# BLURL container framing, in Dafny

BLURL-Tools is a small Python script (`blurl.py`) that turns a JSON file into a
BLURL container and back. A container is the four ASCII bytes `blul`, the
length of the original file as a 4-byte unsigned big-endian integer, and the
zlib-compressed file. Decompressing drops the first eight bytes, inflates the
rest and parses it as JSON. The script picks a direction from the file name:
a name ending in `.json` is compressed into `<stem>.YLSDev.blurl`, and a name
ending in `.blurl` is decompressed into `<stem>.YLSDev.json`. The stem is the
text before the first occurrence of the extension.

The model is purely functional, like the script's logic:

- `wrappers.dfy`: `Option` and `Result`.
- `big_endian.dfy` (module `BigEndian`): bytes, and Python's
  `int.to_bytes(width, 'big', signed=False)` including its `OverflowError`,
  with the big-endian reading as its inverse.
- `file_names.dfy` (module `FileNames`): `str.split(sep)[0]`, `str.endswith`,
  the output names and the choice of direction.
- `container.dfy` (module `Container`): building the container and stripping
  its header.
- `blurl.dfy` (module `Blurl`): `compressFile`, `decompressFile` and the
  script's top level, each as a function from the input file's name and bytes
  to what gets written.

zlib is represented by two function parameters. `compress` is a function
`Bytes -> Bytes`, and `decompress` is a function `Bytes -> Option<Bytes>`
where `None` means zlib raised. The round trip `decompress(compress(x)) ==
Some(x)` is not an axiom. It is the predicate `Container.Inverse`, which the
lemmas that need it take as a precondition. `json.loads` is the parameter
`parse: Bytes -> Option<J>`.

The model follows the code of `blurl.py`. The script is simpler than a
container codec usually is:

- It reads and compresses the whole file in one call. There is no chunked
  streaming.
- Decoding never checks the magic or the length field.
- A header shorter than eight bytes is not rejected. The slice is just empty.
- Every decompression or JSON failure becomes the one exception
  `'Invalid BLURL Passed'`.
- An oversized payload fails only after the destination has been opened and
  `blul` written to it.

## Model

| member | source | states |
|---|---|---|
| BigEndian.ToBytes | blurl.py:12 | `to_bytes` succeeds exactly when the value is below 256^width, and then yields exactly `width` bytes |
| BigEndian.FromToBytes | blurl.py:12 | reading the big-endian field back gives the length that was written, for every value that fits |
| BigEndian.ToFromBytes | blurl.py:12 | every byte string is the `to_bytes` image of its own big-endian value (the inverse direction) |
| BigEndian.ToBytesInjective | blurl.py:12 | distinct lengths that fit get distinct length fields |
| FileNames.FirstOccurrence | blurl.py:6 | the index is the first place at or after `from` where the separator occurs, or the end if it occurs nowhere there |
| FileNames.Stem | blurl.py:6 | `split(sep)[0]` is a prefix of the name with no occurrence starting inside it, ends where the first occurrence starts, and is the whole name exactly when the separator does not occur |
| FileNames.StemHasNoSeparator | blurl.py:18 | the stem never contains the separator |
| FileNames.StemCutAt | blurl.py:6 | if `sep` first occurs at `k`, the stem is `s[..k]` |
| FileNames.CompressedName | blurl.py:10 | the container name ends in `.blurl` and not in `.json` |
| FileNames.DecompressedName | blurl.py:27 | the document name ends in `.json` and not in `.blurl` |
| FileNames.SuffixesExclusive | blurl.py:38-40 | no name ends in both `.json` and `.blurl` |
| FileNames.EndsWith | blurl.py:38-40 | `s.endswith(suffix)` holds exactly when `s` is some stem followed by `suffix` |
| FileNames.Dispatch | blurl.py:38-43 | compress exactly for `.json` names, decompress exactly for `.blurl` names, unsupported for all others |
| FileNames.JsonNameStem | blurl.py:6-10 | for a `.json` name the stem ends at the first `.json`, at least five characters before the end, contains no `.json`, and the output name is stem + `.YLSDev.blurl` |
| FileNames.BlurlNameStem | blurl.py:18-27 | the same for a `.blurl` name, with output stem + `.YLSDev.json` |
| FileNames.EarlierOccurrenceShortensStem | blurl.py:6-10 | `a.json.json` and `a.json` are both written to `a.YLSDev.blurl` |
| FileNames.OutputsDispatchBack | blurl.py:38-43 | a name the script writes when compressing is dispatched to decompression, and the reverse |
| Container.SizeLimitIsFieldCapacity | blurl.py:12 | a 4-byte field holds exactly the lengths below 2^32 |
| Container.Frame | blurl.py:9-13 | a container is produced exactly for lengths below 2^32; it starts with `blul`, bytes 4..8 read back as the payload length, and from offset 8 it is exactly the compressed payload; otherwise only `blul` was written |
| Container.Unframe | blurl.py:22 | `content[8:]` is empty for inputs shorter than 8 bytes, and otherwise is what follows the first 8 bytes |
| Container.Unpack | blurl.py:22 | the decompressor is applied to what follows the first 8 bytes, or to the empty string for inputs of at most 8 bytes |
| Container.UnframeFrame | blurl.py:9-22 | unwrapping a container hands the decompressor exactly the compressed payload |
| Container.UnpackFrame | blurl.py:9-22 | with an inverse compressor pair, unwrapping a container gives back the original bytes |
| Container.HeaderIgnored | blurl.py:22 | any two 8-byte headers before the same body unwrap to the same data |
| Container.ShortInputUnpacksEmpty | blurl.py:22 | an input of at most 8 bytes hands the decompressor the empty string |
| Container.EmptyObjectHeader | blurl.py:11-12 | the payload `{}` gets the header `62 6c 75 6c 00 00 00 02` |
| Blurl.CompressFile | blurl.py:5-15 | writes to stem + `.YLSDev.blurl`; the full container exactly when the length fits, with magic, length field and payload in place; otherwise the file holds only the magic |
| Blurl.DecompressFile | blurl.py:17-30 | succeeds exactly when both inflating `content[8:]` and parsing succeed, writing the parsed document to stem + `.YLSDev.json`; every failure is the message `Invalid BLURL Passed` |
| Blurl.RunScript | blurl.py:38-43 | compresses exactly `.json` names, decompresses exactly `.blurl` names, and reports any other name as unsupported |
| Blurl.CompressThenDecompress | blurl.py:5-30 | compressing a `.json` file and decompressing the result yields what parsing the original bytes yields, or the single exception if they are not JSON |
| Blurl.OversizeLeavesMagic | blurl.py:10-12 | a payload of 2^32 bytes or more leaves just `blul` in the destination |
| Blurl.DecompressIgnoresHeader | blurl.py:19-25 | two files with the same `content[8:]` decompress to the same outcome, whatever their first 8 bytes hold, short files included |
| Blurl.FailureIsSingleError | blurl.py:21-25 | the outcome is the `Invalid BLURL Passed` exception exactly when inflating or parsing fails |

## Left out

- zlib (blurl.py:9, 22): deflate itself is not modelled. `compress` and `decompress` are parameters. Their round trip is a precondition (`Container.Inverse`), not a proven fact.
- JSON (blurl.py:23, 26): `json.loads` is the parameter `parse`. `json.dumps(meta, indent=4)` is not modelled. `Blurl.DecompressFile` returns the parsed document, not the text written for it.
- File I/O (blurl.py:7-8, 10-14, 19-20, 27-29): the input file's bytes are a parameter and the written file is returned. Errors from `open`, `read` and `write` are not modelled. Neither is the encoding of the text written in mode `"w"`. The second opening of each output file, which exists only to print a message, is also left out.
- The console (blurl.py:15, 30, 32-36, 43): `print` and `input`. The entered name is a parameter of `Blurl.RunScript`.
- FileNames.Stem: requires a non-empty separator, as Python's `str.split` does (it raises `ValueError` otherwise). The script only passes the constants `.json` and `.blurl`.
