# bin2hex: Intel HEX records, reader and layout generator in Dafny

This project models the core of `loader/bin2hex.py`. That script converts
binary firmware images, each bound to a load address, into one Intel HEX
file. The model covers four parts.

- **The `HexRecord` class.** It models the record's checksum, the
  constructor's checksum test, the text form `:LLAAAATT<data>CC` and the
  streaming `write` (modules `HexRecords` and `Hex`).
- **`readHexFile`.** It strips every line, stops at the first blank line,
  and decodes each line with the checks in the order the script makes
  them (module `HexReader`).
- **`generatehexfile`.** It walks the images in order and keeps the
  window offset `curraddr` and the segment base `segaddr`. It emits an
  extended linear (type 04) or extended segment (type 02) address record
  when the offset leaves its 64 KB window, and cuts each image into data
  records (module `Layout`). Its result, the record texts, and the saved
  file, the generated lines joined by newlines plus one trailing newline,
  are in module `SavedFile`.
- **The checks `commandline_split` makes before generation.** Every
  address fits 32 bits, no image overlaps another, and every image ends
  inside 4 GB. The images are then sorted (module `InputCheck`).

The generator's output is judged against a loader. Module `LoadImage`
states what an Intel HEX loader makes of a record sequence, following the
Intel Hexadecimal Object File Format Specification (Revision A):

- type 04 sets a base of `value * 65536`, and a data byte goes to
  `(base + offset + k) mod 2^32`;
- type 02 sets a base of `value * 16`, and a data byte goes to
  `base + (offset + k) mod 65536`.

The main theorem, `LayoutProofs.GeneratePlacesEveryByte`, says that loading
the generated records puts every byte of every image at its address. It
covers the corrected chunk in both modes and the chunk as written in mode
4 only: in mode 2 the chunk as written can misplace bytes, which is the
first finding below.

The chunk size is a parameter, `ChunkRule`:

- `Overshoot` is the formula of lines 163-164 as written. `GenerateHexFile`
  uses it, like the script.
- `WithinWindow` is the remainder of the window, which the comment at
  line 162 asks for.

The comment at line 162 says a data record must not bridge a segment,
but the formula at lines 163-164 does not achieve that: five bytes at
0xFFFE in mode 4 are written as one data record at 0xFFFE that runs past
0x10000, with no extension record. The model follows the code, and the
discrepancy is the first finding below.

The generator's "out of order" exception is modelled as
`Err(OutOfOrder(address, position))`. It is proved to happen exactly when
some image starts before the end of the one before it. Images are byte
sequences (`Entry(address, contents)`). Opening and reading files, the
command line and `int()` parsing of addresses are outside the model.

## Model

| member | source | states |
|---|---|---|
| Hex.ParseHex | loader/bin2hex.py:97-99 | `int(text, 16)` on plain hexadecimal digits: it succeeds exactly when the text is non-empty and every character is a digit of either case, and the value is below 16 to the power of the length |
| Hex.ParseHexBound | loader/bin2hex.py:97-99 | a parsed field of two digits fits a byte and one of four digits fits a 16-bit word |
| Hex.Hex2 | loader/bin2hex.py:70-73 | `%02X`: two upper-case hexadecimal digits whose values, most significant first, make the byte |
| Hex.Hex4 | loader/bin2hex.py:70-71 | `%04X`: four upper-case hexadecimal digits whose values, most significant first, make the 16-bit word |
| Hex.ParseHex2 | loader/bin2hex.py:70 | the `%02X` text of a byte parses back to that byte |
| Hex.ParseHex4 | loader/bin2hex.py:70 | the `%04X` text of an address parses back to that address |
| Hex.ParseHexIgnoresCase | loader/bin2hex.py:97-99 | parsing gives the same result for a text and its upper-case form |
| Hex.Hex2OfParsed | loader/bin2hex.py:97-99 | a parsed two-digit field, formatted again with `%02X`, is the field in upper case |
| Hex.Hex4OfParsed | loader/bin2hex.py:98 | a parsed four-digit field, formatted again with `%04X`, is the field in upper case |
| HexRecords.Checksum | loader/bin2hex.py:51-55 | the checksum byte brings the sum of length, both address bytes, type and data to 0 modulo 256 |
| HexRecords.ChecksumIsUnique | loader/bin2hex.py:51-57 | no other byte closes that sum, so the constructor's comparison is exactly the Intel HEX integrity check |
| HexRecords.WireSum | loader/bin2hex.py:51-55 | the bytes of a record on the wire add up to the checksummed field sum plus the checksum |
| HexRecords.NewRecord | loader/bin2hex.py:45-57 | the constructor succeeds exactly when no checksum is given or the given one closes the byte sum; the result keeps type, address and data and is well formed; a refused checksum is reported with the calculated value, which differs from it |
| HexRecords.MakeRecord | loader/bin2hex.py:45-57 | without a given checksum the constructor never raises and the record is well formed |
| HexRecords.Render | loader/bin2hex.py:68-75 | a record's text starts with `:` and is 11 + 2n characters long for n data bytes |
| HexRecords.HexBytesDigits | loader/bin2hex.py:73 | the data text is upper-case hex, and its k-th pair of characters is the `%02X` of the k-th byte |
| HexRecords.RenderLayout | loader/bin2hex.py:68-75 | after the colon every character is an upper-case hex digit, and length, address, type, each data byte and the checksum sit at fixed positions and read back as their values |
| HexRecords.Write | loader/bin2hex.py:77-82 | streaming the header, the data bytes one by one and the checksum with a newline writes exactly the record's text plus a newline |
| HexRecords.EndOfFileRecord | loader/bin2hex.py:176 | the closing record is a well-formed type-1 record without data |
| HexRecords.EndOfFileText | loader/bin2hex.py:176 | the closing record's text is `:00000001FF` |
| HexReader.StripFacts | loader/bin2hex.py:90 | `strip()` removes exactly the leading and the trailing whitespace, and the result neither starts nor ends with whitespace |
| HexReader.BlankIffAllWhitespace | loader/bin2hex.py:90-92 | a line ends the loop exactly when it is made only of whitespace |
| HexReader.StripLineBreak | loader/bin2hex.py:88-90 | a written line read with its newline strips back to the record text |
| HexReader.Slice | loader/bin2hex.py:97-99 | Python's clamped slice: it agrees with the plain slice whenever the bounds lie inside the text; otherwise it holds the characters from i up to the smaller of j and the text's length, and is empty when i is past the text or j is not after i |
| HexReader.ParseBytes | loader/bin2hex.py:103-107 | the data pairs parse exactly when every pair is hexadecimal; the k-th byte is the k-th pair's value; a failure is a hex error |
| HexReader.ParseHeader | loader/bin2hex.py:97-99 | the header parses exactly when the slices 1:3, 3:7 and 7:9 are all hexadecimal, and otherwise fails with a hex error; on a line of at least nine characters the count, address and type, formatted again, are those slices in upper case |
| HexReader.PrefixHeader | loader/bin2hex.py:97-99 | any prefix of a record's text of at least nine characters parses to the record's length, address and type |
| HexReader.ParseBody | loader/bin2hex.py:103-110 | for a line of the announced length, a parsed record is well formed, has the header's type and address and the parsed data pairs, and carries the checksum written in the last two characters; a failure is a hex error or a checksum error naming the checksum calculated from the parsed fields and the one written |
| HexReader.DecodeLine | loader/bin2hex.py:94-110 | the checks come in the source's order: a line not starting with `:` is refused with its line number and first character; otherwise a header that is not hex gives the header's error; otherwise a line whose length is not 11 + 2n for the announced count n gives the length error with the line number, the actual and the expected length; otherwise the result is the body's. A decoded record is well formed and its line is 11 + 2n characters long |
| HexReader.DecodeLineExactly | loader/bin2hex.py:94-110 | a line decodes to record r exactly when r is well formed and r's text is the line in upper case |
| HexReader.RenderThenDecode | loader/bin2hex.py:94-110 | a well-formed record's text decodes to that record |
| HexReader.DecodeThenRender | loader/bin2hex.py:94-110 | a decoded line, written back, is the line in upper case |
| HexReader.DecodeRenderedText | loader/bin2hex.py:94-110 | a line spelling a record's text in any letter case decodes to that record when the checksum closes the sum, and otherwise to a checksum error naming the calculated and the written value |
| HexReader.ChecksumCorruptionDetected | loader/bin2hex.py:109-110 | replacing the checksum of a well-formed record's text by any other byte is refused with the correct and the written checksum |
| HexReader.TruncationDetected | loader/bin2hex.py:100-101 | cutting one or more of the characters after the header off a record's text is refused as a length mismatch naming the actual and the expected length |
| HexReader.HeaderOfPrefix | loader/bin2hex.py:97-99 | the header is read from the first nine characters only |
| HexReader.ReadFromLines | loader/bin2hex.py:88-111 | the loop returns one record per line before the first blank line, each the decoding of its line; it fails exactly when one of those lines fails, and then with the error of the first such line |
| HexReader.ReadHexFile | loader/bin2hex.py:85-112 | a successful read returns one record per line before the first blank line |
| HexReader.ReadHexFileLines | loader/bin2hex.py:85-112 | the same for the whole function, with lines numbered from 1: success exactly when every line before the first blank one decodes, the i-th record being the i-th line's, and otherwise the first failing line's error |
| HexReader.ReadHexFileRecords | loader/bin2hex.py:85-112 | every record read is well formed, and written back it gives its stripped line in upper case |
| HexReader.ReadStopsAtBlank | loader/bin2hex.py:91-92 | nothing after the first blank line affects the result |
| HexReader.ReadRenderedLines | loader/bin2hex.py:85-112 | the texts of well-formed records, one per line, read back as exactly those records |
| HexReader.ReadWrittenLines | loader/bin2hex.py:85-112 | the same when every line carries its newline |
| HexReader.SplitLines | loader/bin2hex.py:88 | iterating over a text yields non-empty pieces that put back together give the text; only a piece's last character can be a newline, and every piece but the last ends with one |
| HexReader.WrittenSplits | loader/bin2hex.py:88 | iterating over the written text yields each record's text with its newline |
| HexReader.ReadWrittenFile | loader/bin2hex.py:77-112 | a file made by `write`-ing well-formed records reads back as those records, in order |
| Layout.RecordLength | loader/bin2hex.py:122-125 | the record length of either mode fits the one-byte length field |
| Layout.HighBitsSplit | loader/bin2hex.py:150-152 | within 32 bits `a & 0xFFFF0000` plus the low 16 bits is `a`; the mask is a multiple of 64 KB and is zero exactly below 64 KB |
| Layout.ExtensionRecord | loader/bin2hex.py:153-156 | the extension record is a well-formed type-04 (mode 4) or type-02 (mode 2) record at address 0 with two data bytes |
| Layout.EnterWindow | loader/bin2hex.py:148-160 | the absolute position is kept and the offset ends inside the window; an extension record is written exactly when the offset had left the window, and then it announces the new segment; the segment only grows and stays 64 KB aligned |
| Layout.SourceChunk | loader/bin2hex.py:163-166 | the chunk as written is between 1 and the record length, and is the whole record length whenever that fits in the window |
| Layout.WindowChunk | loader/bin2hex.py:162 | the corrected chunk is between 1 and the record length, fits in the window, and is the whole record length or reaches the window's end |
| Layout.EmitStep | loader/bin2hex.py:147-172 | one pass reads between 1 and the record length of the remaining bytes, and the position advances by exactly that many |
| Layout.EmitFile | loader/bin2hex.py:147-173 | after an image the position is its start plus its size, and the segment stays aligned |
| Layout.MoveTo | loader/bin2hex.py:139-141 | the new offset, with the segment kept, stands for the image's address |
| Layout.PlaceEntry | loader/bin2hex.py:139-145 | an image is laid out exactly when it starts at or after the current position, and otherwise raises with its address and that position; laid out, it ends the position at its end |
| Layout.LayoutFrom | loader/bin2hex.py:133-173 | after the outer loop succeeds, the position is the end of the last image (the cursor is unchanged when there are none), and the segment has only grown and stays 64 KB aligned |
| Layout.Generate | loader/bin2hex.py:114-178 | an unsupported subtype gives no records; a successful call ends with the end of file record |
| LayoutProofs.ExtensionRecordSetsBase | loader/bin2hex.py:153-156 | the extension record makes a loader's base the generator's new segment: the upper 16 bits in mode 4, the paragraph number in mode 2 (below 1 MB) |
| LayoutProofs.EnterWindowLoads | loader/bin2hex.py:148-160 | entering the window places no byte and moves the loader's base to the generator's segment |
| LayoutProofs.DataRecordLoads | loader/bin2hex.py:171 | a data record written at the window offset places its bytes from the cursor's absolute position on, when the chunk rule suits the mode |
| LayoutProofs.DataRecordLoadsInWindow | loader/bin2hex.py:171-172 | under either chunk rule, in both modes, a data record written at the window offset places its bytes in order, each byte inside the window at its absolute address, and leaves the loader's base unchanged |
| LayoutProofs.StepLoadsInWindow | loader/bin2hex.py:147-172 | under either chunk rule, one pass places the bytes it read in order, its first byte at the cursor's position and every byte inside the starting window at its address, and leaves the loader's base on the generator's segment |
| LayoutProofs.EmitFileLoadsInWindow | loader/bin2hex.py:147-173 | under either chunk rule, including the chunk as written in mode 2, an image's records place its bytes in order, the first at the image's start and every byte up to the end of the 64 KB window it starts in at its address |
| LayoutProofs.StepLoads | loader/bin2hex.py:147-172 | when the chunk rule suits the mode (the corrected chunk, or mode 4) and the bytes end within 4 GB and, in mode 2, within 1 MB, one pass places the bytes it read at their addresses and leaves the loader's base on the generator's segment |
| LayoutProofs.EmitFilePlacesBytes | loader/bin2hex.py:147-173 | when the chunk rule suits the mode (the corrected chunk, or mode 4) and the image ends within 4 GB and, in mode 2, within 1 MB, an image's records place its bytes at consecutive addresses from its start; with the chunk as written in mode 2 this fails (see `ChunkCounterexamples.SourceChunkMisplacesInMode2`) |
| LayoutProofs.LayoutFromPlacesBytes | loader/bin2hex.py:133-173 | when the chunk rule suits the mode (the corrected chunk, or mode 4) and every image ends within 4 GB and, in mode 2, within 1 MB, the records of a successful outer loop place each image's bytes at the image's addresses, image after image |
| LayoutProofs.GeneratePlacesEveryByte | loader/bin2hex.py:114-178 | for images in order, ending in 4 GB (and in 1 MB in mode 2), generation succeeds, and loading its records places exactly every byte of every image at its address: always with the corrected chunk, in mode 4 with the chunk as written |
| LayoutProofs.EmptyImageWritesNothing | loader/bin2hex.py:139-147 | an empty image at or after the position writes no record, not even an extension record, and only moves the offset to its address |
| LayoutProofs.LoadIgnoresEndOfFile | loader/bin2hex.py:176 | the end of file record places nothing |
| LayoutProofs.LayoutFromSucceeds | loader/bin2hex.py:133-145 | the outer loop succeeds exactly when the first image starts at or after the cursor and each image starts at or after the end of the one before |
| LayoutProofs.LayoutFromFails | loader/bin2hex.py:139-145 | on failure the error names the first image that starts below its bound, with its address and that bound |
| LayoutProofs.FirstFailure | loader/bin2hex.py:139-145 | the same with the offending image's index as the result |
| LayoutProofs.GenerateSucceedsWhenOrdered | loader/bin2hex.py:133-145 | generation raises exactly when the images are out of order |
| LayoutProofs.GenerateFailure | loader/bin2hex.py:139-145 | a failed call names an image i after the first, with its address below the previous image's end, all images before i being in order |
| LayoutProofs.GenerateFailsExactlyOutOfOrder | loader/bin2hex.py:139-145 | both of the above together |
| LayoutProofs.StepShape | loader/bin2hex.py:147-172 | one pass writes a shaped record: a well-formed data record of 1 to the record length bytes, inside the window under the corrected chunk, or the mode's extension record |
| LayoutProofs.StepData | loader/bin2hex.py:167-171 | the data one pass writes is exactly the bytes it read |
| LayoutProofs.EmitFileShape | loader/bin2hex.py:147-173 | every record an image produces is shaped |
| LayoutProofs.EmitFileData | loader/bin2hex.py:147-173 | the data records of one image, read in order, are the whole image |
| LayoutProofs.LayoutFromShape | loader/bin2hex.py:133-173 | every record of the outer loop is shaped |
| LayoutProofs.LayoutFromData | loader/bin2hex.py:133-173 | the data of the outer loop's records is all images' bytes, one image after another |
| LayoutProofs.GeneratedRecordShapes | loader/bin2hex.py:114-178 | a successful call writes shaped records, then the end of file record last; every record is well formed, and the data records carry every image's bytes in order |
| LayoutProofs.WindowRecordsStayInWindow | loader/bin2hex.py:162 | with the corrected chunk no data record runs past its 64 KB window, in either mode |
| ChunkCounterexamples.SingleStep | loader/bin2hex.py:147-172 | an image in the first window that fits one chunk is read in one pass, as one data record at its address |
| ChunkCounterexamples.SingleRecord | loader/bin2hex.py:114-178 | such an image alone gives one data record and the end of file record |
| ChunkCounterexamples.SourceRecordCrossesWindow | loader/bin2hex.py:163-164 | as written, an image starting in the first window that the overshoot chunk still covers is one data record running past 0x10000 |
| ChunkCounterexamples.SourceChunkMisplacesInMode2 | loader/bin2hex.py:163-164 | in mode 2 a segmented loader puts the first such byte past the window at address 0 instead of 0x10000 |
| SavedFile.SavedTextIsWritten | loader/bin2hex.py:316-318 | for a non-empty list of records, joining their texts by newlines and adding one gives the same text as `write`-ing the records one after another |
| SavedFile.EmptySaveReadsEmpty | loader/bin2hex.py:316-318 | an empty list saves as one newline, which reads as no records |
| SavedFile.SavedText | loader/bin2hex.py:316-318 | the lines joined by newlines plus one newline, read back as a text file, yield each line with its newline when no line holds a line break, and a lone newline when there were no lines |
| SavedFile.GenerateHexFile | loader/bin2hex.py:114-178 | `generatehexfile` returns no lines for a subtype other than 4 and 2; otherwise it raises exactly when the images are out of order, and then with the address of an image below the end of the one before it and that end; a successful list ends with `:00000001FF`, and saved as the main program saves it (lines 316-318) it reads back with `readHexFile` as the generated records |
| InputCheck.AcceptedWithinAddressSpace | loader/bin2hex.py:224-226 | images that pass the checks end inside 4 GB, as the generator requires |
| InputCheck.CheckInputs | loader/bin2hex.py:198-226 | no error exactly when the images pass the checks; otherwise the first error in the order the loops meet it (all addresses, then per image its overlaps in order, then its 4 GB limit); passing images end inside 4 GB |
| InputCheck.StrictCheckOrdersAllButSharedStarts | loader/bin2hex.py:219-229 | after the check as written and the sort, each image starts at or after the end of the one before, unless both start at one address |
| InputCheck.StrictCheckAdmitsSharedStart | loader/bin2hex.py:221 | two images at one address, the first non-empty, pass the check as written in sorted order, and the generator then raises |
| InputCheck.SharedCheckOrders | loader/bin2hex.py:219-229 | with the corrected test, sorted images that pass are in the order the generator needs |
| InputCheck.SharedCheckRefinesStrict | loader/bin2hex.py:221 | the corrected test refuses everything the test as written refuses |
| InputCheck.CheckedInputsGenerate | loader/bin2hex.py:219-229 | with the corrected test, sorted images that pass are always laid out: the generator does not raise |

## Left out

- Command line: option parsing, `checkhextypearg`, `process_command_line`, version printing and the output file checks (lines 180-185, 233-310). None of them computes anything the core uses.
- The main program's check that every address fits the chosen subtype (lines 288-296). Instead, the placement theorem requires images to end below 1 MB in mode 2.
- File I/O. An image is its byte sequence, so `open`, `os.path.getsize` and `f.read` are not modelled. The path checks of lines 208-212 and the output file write of lines 316-318 are left out too; the saved text itself is modelled.
- The address text conversion of lines 199-204 and the pairing of lines 189-194. The model starts from `(address, bytes)` pairs.
- The sort of line 229 is stated as a predicate (`SortedByAddress`), not run.
- Exception classes and message text. Errors are `Result` values with the fields the messages print.
- The messages of lines 222 and 226 index `binlist`. Under Python 3, `binlist` is a `map` object, so building either message would itself raise `TypeError`. The model reports the offending images by index instead.
- Subtype 0 and other subtypes: `Generate` returns no records and `GenerateHexFile` no lines. The script returns the empty string there (line 128), which the main program saves exactly as it saves an empty list. Nothing beyond that is modelled.
- Mode 2 images ending above 1 MB. There the paragraph number no longer fits the extension record. The placement theorem excludes them by precondition.
- `HexRecord` fields are typed to their wire widths: type and checksum a byte, address 16 bits, at most 255 data bytes. The Python class takes any integers. Every record the generator builds satisfies these widths, and so does every record the reader builds from fields spelled with plain hexadecimal digits. A field that `int(text, 16)` reads leniently can fall outside them: `:00-0010002` reads as a record with address -1 (see the `Hex.ParseHex` line below).
- Negative addresses: `Entry.address` is a natural number, but `int()` at line 204 accepts a sign, so an address such as `-5` can pass the checks of lines 205 and 219-226. The generator then raises at line 139, because its first position is 0. The model starts from non-negative addresses.
- The getters `getType`, `getData` and `getAddress` (lines 59-66) are datatype fields.
- `write` streams to `sys.stdout` by default. `HexRecords.Write` returns the text it would stream.
- Hex.ParseHex: `int(text, 16)` also accepts surrounding whitespace, a sign, a `0x` prefix, underscores and non-ASCII decimal digits (such as Arabic-Indic digits). The model rejects those, so a line whose fields use them is refused here but read by the script.
- HexReader.SplitLines: a text file's iteration also ends lines at `\r` and `\r\n` under universal newlines. The model splits at `\n` only, and `strip()` then removes a trailing `\r`.

## Findings

| source | as written | input that shows it | evidently intended | confidence | as-written member | corrected member |
|---|---|---|---|---|---|---|
| loader/bin2hex.py:163-164 | past the window the record takes `curraddr + recordlength - 0x10000` bytes, the amount by which it would overshoot the window | 3 bytes at 0xFFFE in mode 2: one data record at 0xFFFE whose third byte a segmented loader puts at 0x0000 (also 5 bytes at 0xFFFE in mode 4: one record across 0x10000) | the remainder of the window, `0x10000 - curraddr`, as the comment at line 162 says ("don't bridge segment") | not executed | ChunkCounterexamples.SourceChunkMisplacesInMode2, ChunkCounterexamples.SourceRecordCrossesWindow | LayoutProofs.GeneratePlacesEveryByte (rule WithinWindow), LayoutProofs.WindowRecordsStayInWindow |
| loader/bin2hex.py:221 | the overlap test requires the first image to start strictly below the second | `[Entry(a, x), Entry(a, y)]` with `x` non-empty: both pass, and the generator then raises "out of order" | two images at one address also overlap when the first is non-empty (`<=` for distinct entries) | not executed | InputCheck.StrictCheckAdmitsSharedStart | InputCheck.SharedCheckOrders, InputCheck.CheckedInputsGenerate |
