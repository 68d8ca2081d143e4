/**
 * Python's `int.to_bytes(width, byteorder='big', signed=False)` for a
 * non-negative integer, and the matching reading of a big-endian field.
 * The container uses it with width 4 for its size field (blurl.py:12).
 */
module BigEndian {
  import opened Wrappers

  newtype byte = b: int | 0 <= b < 256

  type Bytes = seq<byte>

  /** 256^k: the number of distinct values a field of k bytes can hold. */
  function Pow256(k: nat): (r: nat)
    ensures r > 0
  {
    if k == 0 then 1 else 256 * Pow256(k - 1)
  }

  /**
   * `n.to_bytes(width, 'big', signed=False)`: the most significant byte
   * first; `None` stands for the OverflowError Python raises when `n` does
   * not fit in `width` bytes.
   */
  function ToBytes(n: nat, width: nat): (r: Option<Bytes>)
    ensures r.Some? <==> n < Pow256(width)
    ensures r.Some? ==> |r.value| == width
    decreases width
  {
    if width == 0 then
      if n == 0 then Some([]) else None
    else
      match ToBytes(n / 256, width - 1)
      case None => None
      case Some(high) => Some(high + [(n % 256) as byte])
  }

  /** The unsigned value of a big-endian byte string (`int.from_bytes(s, 'big')`). */
  function FromBytes(s: Bytes): (n: nat)
    ensures n < Pow256(|s|)
  {
    if s == [] then 0 else FromBytes(s[..|s| - 1]) * 256 + s[|s| - 1] as nat
  }

  /** Reading back what `ToBytes` wrote gives the original number. */
  lemma {:induction false} FromToBytes(n: nat, width: nat)
    requires n < Pow256(width)
    ensures FromBytes(ToBytes(n, width).value) == n
    decreases width
  {
    if width > 0 {
      var s := ToBytes(n, width).value;
      FromToBytes(n / 256, width - 1);
      assert s[..|s| - 1] == ToBytes(n / 256, width - 1).value;
    }
  }

  /** Every byte string is what `ToBytes` writes, at its own length, for its value. */
  lemma {:induction false} ToFromBytes(s: Bytes)
    ensures ToBytes(FromBytes(s), |s|) == Some(s)
    decreases |s|
  {
    if s != [] {
      var init := s[..|s| - 1];
      var n := FromBytes(s);
      ToFromBytes(init);
      assert n / 256 == FromBytes(init);
      assert n % 256 == s[|s| - 1] as nat;
      assert init + [s[|s| - 1]] == s;
    }
  }

  /** Two numbers that fit get distinct encodings: the field is unambiguous. */
  lemma ToBytesInjective(m: nat, n: nat, width: nat)
    requires m < Pow256(width) && n < Pow256(width)
    requires ToBytes(m, width) == ToBytes(n, width)
    ensures m == n
  {
    FromToBytes(m, width);
    FromToBytes(n, width);
  }
}
