/**
 * The script itself: `compressFile` (blurl.py:5-15), `decompressFile`
 * (blurl.py:17-30) and the choice between them made from the file name
 * (blurl.py:38-43). The file's contents are given as bytes; what is written
 * is returned. `json.loads` is the parameter `parse`, which yields `None`
 * where Python raises; the document is returned as parsed, since its
 * re-serialisation by `json.dumps(indent=4)` is not modelled.
 */
module Blurl {
  import opened Wrappers
  import opened BigEndian
  import opened FileNames
  import opened Container

  /** The message of the one exception `decompressFile` raises. */
  const InvalidBlurlMessage: string := "Invalid BLURL Passed"

  /** Effect of `compressFile`: the file written, and whether OverflowError cut it short. */
  datatype Compression =
    | Compressed(path: string, data: Bytes)
    | Overflowed(path: string, partial: Bytes)

  /** Effect of `decompressFile`: the document written, or the exception with nothing written. */
  datatype Decompression<J> =
    | Decompressed(path: string, doc: J)
    | Failed(message: string)

  /** Effect of one run of the script on a given file name. */
  datatype Run<J> =
    | Compressing(compression: Compression)
    | Decompressing(decompression: Decompression<J>)
    | UnsupportedFormat

  /** `compressFile(name)` applied to the bytes of the file `name` (blurl.py:5-15). */
  function CompressFile(name: string, content: Bytes, compress: Bytes -> Bytes): (r: Compression)
    ensures r.path == CompressedName(name)
    ensures r.Compressed? <==> |content| < SizeLimit
    ensures r.Compressed? ==>
      && |r.data| == HeaderLength + |compress(content)|
      && r.data[..4] == Magic
      && FromBytes(r.data[4..HeaderLength]) == |content|
      && r.data[HeaderLength..] == compress(content)
    ensures r.Overflowed? ==> r.partial == Magic
  {
    match Frame(content, compress)
    case Container(bytes) => Compressed(CompressedName(name), bytes)
    case Overflow(partial) => Overflowed(CompressedName(name), partial)
  }

  /** `decompressFile(name)` applied to the bytes of the file `name` (blurl.py:17-30). */
  function DecompressFile<J>(name: string, content: Bytes, decompress: Bytes -> Option<Bytes>,
                             parse: Bytes -> Option<J>): (r: Decompression<J>)
    ensures r.Decompressed? <==>
      Unpack(content, decompress).Some? && parse(Unpack(content, decompress).value).Some?
    ensures r.Decompressed? ==>
      r.path == DecompressedName(name) && parse(Unpack(content, decompress).value) == Some(r.doc)
    ensures r.Failed? ==> r.message == InvalidBlurlMessage
  {
    match Unpack(content, decompress)
    case None => Failed(InvalidBlurlMessage)
    case Some(decompressed) =>
      match parse(decompressed)
      case None => Failed(InvalidBlurlMessage)
      case Some(meta) => Decompressed(DecompressedName(name), meta)
  }

  /** The script's top level: dispatch on the suffix of the name entered (blurl.py:38-43). */
  function RunScript<J>(name: string, content: Bytes, compress: Bytes -> Bytes,
                        decompress: Bytes -> Option<Bytes>, parse: Bytes -> Option<J>): (r: Run<J>)
    ensures r.Compressing? <==> EndsWith(name, JsonSuffix)
    ensures r.Decompressing? <==> EndsWith(name, BlurlSuffix)
    ensures r.UnsupportedFormat? <==> !EndsWith(name, JsonSuffix) && !EndsWith(name, BlurlSuffix)
    ensures r.Compressing? ==> r.compression == CompressFile(name, content, compress)
    ensures r.Decompressing? ==> r.decompression == DecompressFile(name, content, decompress, parse)
  {
    match Dispatch(name)
    case Compress => Compressing(CompressFile(name, content, compress))
    case Decompress => Decompressing(DecompressFile(name, content, decompress, parse))
    case Unsupported => UnsupportedFormat
  }

  /**
   * Compressing a `.json` file and then decompressing what was written gives
   * back what parsing the original bytes gives, under `.YLSDev.json`; a
   * payload that is not JSON comes back as the one exception.
   */
  lemma CompressThenDecompress<J>(name: string, content: Bytes, compress: Bytes -> Bytes,
                                  decompress: Bytes -> Option<Bytes>, parse: Bytes -> Option<J>)
    requires Inverse(compress, decompress)
    requires EndsWith(name, JsonSuffix)
    requires |content| < SizeLimit
    ensures var out := CompressedName(name);
      && RunScript(name, content, compress, decompress, parse)
         == Compressing(Compressed(out, Frame(content, compress).bytes))
      && RunScript(out, Frame(content, compress).bytes, compress, decompress, parse)
         == Decompressing(match parse(content)
                          case Some(doc) => Decompressed(DecompressedName(out), doc)
                          case None => Failed(InvalidBlurlMessage))
  {
    OutputsDispatchBack(name);
    UnpackFrame(content, compress, decompress);
  }

  /**
   * A payload too long for the length field leaves a four-byte file holding
   * only the magic (the destination is opened and "blul" written before
   * `to_bytes` raises).
   */
  lemma OversizeLeavesMagic(name: string, content: Bytes, compress: Bytes -> Bytes)
    requires |content| >= SizeLimit
    ensures CompressFile(name, content, compress) == Overflowed(CompressedName(name), [0x62, 0x6c, 0x75, 0x6c])
  {
  }

  /**
   * The header is never validated: two files whose `content[8:]` agree
   * decompress alike, whatever their first eight bytes hold (short files
   * included).
   */
  lemma DecompressIgnoresHeader<J>(name: string, content1: Bytes, content2: Bytes,
                                   decompress: Bytes -> Option<Bytes>, parse: Bytes -> Option<J>)
    requires Unframe(content1) == Unframe(content2)
    ensures DecompressFile(name, content1, decompress, parse) == DecompressFile(name, content2, decompress, parse)
  {
  }

  /**
   * A failure of either zlib or JSON parsing surfaces as the single
   * exception, and only then: the contract of `DecompressFile` restated as
   * one equivalence.
   */
  lemma FailureIsSingleError<J>(name: string, content: Bytes, decompress: Bytes -> Option<Bytes>,
                                parse: Bytes -> Option<J>)
    ensures DecompressFile(name, content, decompress, parse) == Failed(InvalidBlurlMessage)
      <==> (Unpack(content, decompress).None? || parse(Unpack(content, decompress).value).None?)
  {
  }
}
