/**
 * File-name handling of blurl.py: the stem `name.split(sep)[0]`
 * (blurl.py:6, 18), the output names built from it (blurl.py:10, 27) and
 * the `str.endswith` tests that choose a direction (blurl.py:38-43).
 */
module FileNames {

  const JsonSuffix: string := ".json"
  const BlurlSuffix: string := ".blurl"
  /** What both directions put in front of the new extension. */
  const Tag: string := ".YLSDev"

  /** `sep` occurs in `s` starting at index `i`. */
  predicate OccursAt(s: string, sep: string, i: nat) {
    i + |sep| <= |s| && s[i..i + |sep|] == sep
  }

  /** `sep in s`. */
  predicate Contains(s: string, sep: string) {
    exists i :: 0 <= i <= |s| && OccursAt(s, sep, i)
  }

  /** `s.endswith(suffix)`. */
  predicate EndsWith(s: string, suffix: string)
    ensures EndsWith(s, suffix) <==> exists stem :: s == stem + suffix
  {
    if |suffix| <= |s| && s[|s| - |suffix|..] == suffix then
      assert s == s[..|s| - |suffix|] + suffix;
      true
    else
      false
  }

  /**
   * The index of the first occurrence of `sep` at or after `from`, or `|s|`
   * when there is none (the scan behind `str.split`).
   */
  function FirstOccurrence(s: string, sep: string, from: nat): (k: nat)
    requires from <= |s|
    ensures from <= k <= |s|
    ensures forall i :: from <= i < k ==> !OccursAt(s, sep, i)
    ensures k < |s| ==> OccursAt(s, sep, k)
    decreases |s| - from
  {
    if from == |s| || OccursAt(s, sep, from) then from
    else FirstOccurrence(s, sep, from + 1)
  }

  /**
   * `s.split(sep)[0]`: the text before the first occurrence of `sep`, or
   * all of `s` when `sep` does not occur. Python refuses an empty separator.
   */
  function Stem(s: string, sep: string): (r: string)
    requires sep != []
    ensures r <= s
    ensures forall i :: 0 <= i < |r| ==> !OccursAt(s, sep, i)
    ensures |r| < |s| ==> OccursAt(s, sep, |r|)
    ensures |r| == |s| <==> !Contains(s, sep)
  {
    var k := FirstOccurrence(s, sep, 0);
    assert k < |s| ==> Contains(s, sep) by {
      if k < |s| { assert OccursAt(s, sep, k); }
    }
    s[..k]
  }

  /** The stem never contains the separator it was cut at. */
  lemma StemHasNoSeparator(s: string, sep: string)
    requires sep != []
    ensures !Contains(Stem(s, sep), sep)
  {
    var r := Stem(s, sep);
    forall i | 0 <= i <= |r| && OccursAt(r, sep, i)
      ensures false
    {
      assert s[i..i + |sep|] == r[i..i + |sep|];
      assert OccursAt(s, sep, i);
    }
  }

  /** Name of the container written for a JSON input (blurl.py:6, 10). */
  function CompressedName(name: string): (out: string)
    ensures EndsWith(out, BlurlSuffix)
    ensures !EndsWith(out, JsonSuffix)
  {
    var out := Stem(name, JsonSuffix) + Tag + BlurlSuffix;
    assert out[|out| - 5..] == "blurl";
    out
  }

  /** Name of the JSON document written for a container input (blurl.py:18, 27). */
  function DecompressedName(name: string): (out: string)
    ensures EndsWith(out, JsonSuffix)
    ensures !EndsWith(out, BlurlSuffix)
  {
    var out := Stem(name, BlurlSuffix) + Tag + JsonSuffix;
    assert out[|out| - 5..] == JsonSuffix;
    assert out[|out| - 1] == 'n';
    out
  }

  /** No name ends in both `.json` and `.blurl`: the two tests never overlap. */
  lemma SuffixesExclusive(name: string)
    ensures !(EndsWith(name, JsonSuffix) && EndsWith(name, BlurlSuffix))
  {
    if EndsWith(name, JsonSuffix) {
      assert name[|name| - 1] == name[|name| - 5..][4] == 'n';
    }
  }

  /** What the script does with the name it is given (blurl.py:38-43). */
  datatype Direction = Compress | Decompress | Unsupported

  function Dispatch(name: string): (d: Direction)
    ensures d == Compress <==> EndsWith(name, JsonSuffix)
    ensures d == Decompress <==> EndsWith(name, BlurlSuffix)
    ensures d == Unsupported <==> !EndsWith(name, JsonSuffix) && !EndsWith(name, BlurlSuffix)
  {
    SuffixesExclusive(name);
    if EndsWith(name, JsonSuffix) then Compress
    else if EndsWith(name, BlurlSuffix) then Decompress
    else Unsupported
  }

  /**
   * For a `.json` input the stem is cut at the first `.json`, which lies at
   * least five characters before the end, so the output name keeps only
   * that stem.
   */
  lemma JsonNameStem(name: string)
    requires EndsWith(name, JsonSuffix)
    ensures var stem := Stem(name, JsonSuffix);
      && |stem| <= |name| - |JsonSuffix|
      && OccursAt(name, JsonSuffix, |stem|)
      && !Contains(stem, JsonSuffix)
      && CompressedName(name) == stem + ".YLSDev.blurl"
  {
    var stem := Stem(name, JsonSuffix);
    assert OccursAt(name, JsonSuffix, |name| - |JsonSuffix|);
    StemHasNoSeparator(name, JsonSuffix);
  }

  /** The same for a `.blurl` input, with the roles of the suffixes swapped. */
  lemma BlurlNameStem(name: string)
    requires EndsWith(name, BlurlSuffix)
    ensures var stem := Stem(name, BlurlSuffix);
      && |stem| <= |name| - |BlurlSuffix|
      && OccursAt(name, BlurlSuffix, |stem|)
      && !Contains(stem, BlurlSuffix)
      && DecompressedName(name) == stem + ".YLSDev.json"
  {
    var stem := Stem(name, BlurlSuffix);
    assert OccursAt(name, BlurlSuffix, |name| - |BlurlSuffix|);
    StemHasNoSeparator(name, BlurlSuffix);
  }

  /**
   * The stem is cut at the FIRST occurrence, not at the final extension:
   * two different inputs can be given the same output name.
   */
  lemma EarlierOccurrenceShortensStem()
    ensures CompressedName("a.json.json") == CompressedName("a.json") == "a.YLSDev.blurl"
  {
    assert "a.json"[0..5][0] == 'a';
    StemCutAt("a.json", JsonSuffix, 1);
    StemCutAt("a.json.json", JsonSuffix, 1);
  }

  /** The stem ends where the first occurrence begins. */
  lemma StemCutAt(s: string, sep: string, k: nat)
    requires sep != [] && OccursAt(s, sep, k)
    requires forall i :: 0 <= i < k ==> !OccursAt(s, sep, i)
    ensures Stem(s, sep) == s[..k]
  {
  }

  /** What the tool writes when compressing is accepted by it for decompressing. */
  lemma OutputsDispatchBack(name: string)
    ensures Dispatch(CompressedName(name)) == Decompress
    ensures Dispatch(DecompressedName(name)) == Compress
  {
  }
}
