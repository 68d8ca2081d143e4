/**
 * The BLURL container: the four magic bytes "blul", the payload length as
 * a 4-byte unsigned big-endian field, then the zlib-compressed payload
 * (blurl.py:9-13); and the unwrapping, which skips the first eight bytes
 * whatever they hold (blurl.py:22).
 *
 * zlib is not modelled: `compress` and `decompress` are parameters, and a
 * failed `zlib.decompress` is `None`.
 */
module Container {
  import opened Wrappers
  import opened BigEndian

  /** "blul" in ASCII. */
  const Magic: Bytes := [0x62, 0x6c, 0x75, 0x6c]
  /** Width of the length field. */
  const SizeWidth: nat := 4
  /** Bytes before the compressed payload: magic plus length field. */
  const HeaderLength: nat := 8
  /** The first length that no longer fits the field. */
  const SizeLimit: nat := 0x1_0000_0000

  /** `decompress` undoes `compress`: what zlib promises of its pair. */
  ghost predicate Inverse(compress: Bytes -> Bytes, decompress: Bytes -> Option<Bytes>) {
    forall x :: decompress(compress(x)) == Some(x)
  }

  /**
   * What the three writes of blurl.py:11-13 leave in the destination: the
   * whole container, or, when `to_bytes` raises OverflowError, only the
   * magic written before it.
   */
  datatype Written = Container(bytes: Bytes) | Overflow(partial: Bytes)

  lemma SizeLimitIsFieldCapacity()
    ensures Pow256(SizeWidth) == SizeLimit
  {
  }

  /** Wraps a payload in the container header (blurl.py:9-13). */
  function Frame(content: Bytes, compress: Bytes -> Bytes): (w: Written)
    ensures w.Container? <==> |content| < SizeLimit
    ensures w.Container? ==>
      && |w.bytes| == HeaderLength + |compress(content)|
      && w.bytes[..4] == Magic
      && FromBytes(w.bytes[4..HeaderLength]) == |content|
      && w.bytes[HeaderLength..] == compress(content)
    ensures w.Overflow? ==> w.partial == Magic
  {
    SizeLimitIsFieldCapacity();
    match ToBytes(|content|, SizeWidth)
    case None => Overflow(Magic)
    case Some(size) =>
      var bytes := Magic + size + compress(content);
      FromToBytes(|content|, SizeWidth);
      assert bytes[4..HeaderLength] == size;
      Container(bytes)
  }

  /** `content[8:]`: Python's slice is empty when the input is shorter. */
  function Unframe(content: Bytes): (body: Bytes)
    ensures |content| < HeaderLength ==> body == []
    ensures |content| >= HeaderLength ==> content == content[..HeaderLength] + body
  {
    if |content| < HeaderLength then [] else content[HeaderLength..]
  }

  /** What `zlib.decompress(content[8:])` yields (blurl.py:22). */
  function Unpack(content: Bytes, decompress: Bytes -> Option<Bytes>): (r: Option<Bytes>)
    ensures |content| >= HeaderLength ==> r == decompress(content[HeaderLength..])
    ensures |content| <= HeaderLength ==> r == decompress([])
  {
    decompress(Unframe(content))
  }

  /** Unwrapping a container hands the decompressor exactly the compressed payload. */
  lemma UnframeFrame(content: Bytes, compress: Bytes -> Bytes)
    requires |content| < SizeLimit
    ensures Unframe(Frame(content, compress).bytes) == compress(content)
  {
  }

  /** With an inverse pair, unwrapping a container gives back the payload. */
  lemma UnpackFrame(content: Bytes, compress: Bytes -> Bytes, decompress: Bytes -> Option<Bytes>)
    requires Inverse(compress, decompress)
    requires |content| < SizeLimit
    ensures Unpack(Frame(content, compress).bytes, decompress) == Some(content)
  {
    UnframeFrame(content, compress);
  }

  /**
   * Neither the magic nor the length field is examined: any eight bytes in
   * front of the same payload unwrap alike.
   */
  lemma HeaderIgnored(header1: Bytes, header2: Bytes, body: Bytes, decompress: Bytes -> Option<Bytes>)
    requires |header1| == |header2| == HeaderLength
    ensures Unframe(header1 + body) == Unframe(header2 + body) == body
    ensures Unpack(header1 + body, decompress) == Unpack(header2 + body, decompress)
  {
    assert (header1 + body)[HeaderLength..] == body;
    assert (header2 + body)[HeaderLength..] == body;
  }

  /** An input of at most eight bytes hands the decompressor the empty string. */
  lemma ShortInputUnpacksEmpty(content: Bytes, decompress: Bytes -> Option<Bytes>)
    requires |content| <= HeaderLength
    ensures Unpack(content, decompress) == decompress([])
  {
  }

  /** The two-byte payload `{}` gets the header 62 6c 75 6c 00 00 00 02. */
  lemma EmptyObjectHeader(compress: Bytes -> Bytes)
    ensures Frame([0x7b, 0x7d], compress).Container?
    ensures Frame([0x7b, 0x7d], compress).bytes[..HeaderLength] == [0x62, 0x6c, 0x75, 0x6c, 0x00, 0x00, 0x00, 0x02]
  {
    var size := ToBytes(2, SizeWidth).value;
    assert size == [0, 0, 0, 2];
    assert Frame([0x7b, 0x7d], compress).bytes[..HeaderLength] == Magic + size;
  }
}
