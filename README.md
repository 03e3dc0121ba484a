# cppscript: the TSV reader and the protodump archive

This project models the core of cppscript in Dafny. The core has two parts.

- `tsv::parser` (`include/tsv_parser.h`) reads a tab-separated text file of any size through one fixed line buffer. The buffer holds 16383 characters plus a terminating NUL. `next_line` looks for the next `'\n'` in the buffer and turns it into NUL. When the scan reaches the NUL that ends the data, `fill_file_buffer` moves the unconsumed tail to the front and reads more of the file. If the whole buffer holds no line end, it throws that buffer-full away and reads a fresh one. The fields of the current line are then cut off one at a time, in place, at tab characters. `next_field<T>` converts each field through the `tsv::val` table.
- `protodump` (`include/protodump.h`) has three parts:
  - `tsv_to_bgz` feeds every line to a row mapper, serializes each accepted record and writes it into a numbered series of dump files (`<prefix>.<%02d>.<suffix>`). Each record is written as a Base 128 varint length followed by the record bytes. Each file ends with a zero-length sentinel. The writer moves on to the next file once the current one has grown past the size limit.
  - `find_dump_files` discovers the files of an archive.
  - `bgz_foreach` reads the records back in order and hands each one to an executor.
  - The `PROTODUMP_req` / `PROTODUMP_opt` macros build row mappers from a list of typed fields.

The parser is a `class` over an `array<char>`. Ghost state ties the array to the file's text: `Source` is the whole file, `consumed` is how much of it lies before `linePos`, and `Pending()` is the text not yet returned as lines. Every method of the parser is proved against that text:

- `NextLine` makes the next `'\n'`-terminated line of the pending text current. For a line of 16383 characters or more, only the part after its last whole buffer-full is kept.
- A loop of `next_line` over a fresh reader meets exactly the lines of the file (`ReadAllLines`).
- The fields are the tab-separated pieces of the line.

The writer and the reader are methods whose loops are proved against pure specifications:

- `Run`: the outcome of each row.
- `Plan`: how records are spread over files by rotation.
- `Frames` / `Deframe`: the byte format of one file.

The round trip is proved for any input text, any mapper and any size limit: writing an archive, discovering its files and reading them back hands the executor exactly the records the mapper produced from the rows read, in order, and the counts are those of the rows (`DumpThenRead`). When every line of the input fits the line buffer, those rows are exactly the input's lines.

Behaviour of the code that is easy to miss:

- **The input file cannot be opened.** The code does not report an error. The reader then sees an empty file, and the writer produces one dump file holding only the sentinel.
- **Rotation.** It is decided by the byte count of the file stream under the gzip layer, which is compressed output. It is not the uncompressed byte count. The model takes that count as an arbitrary function of the bytes written to the file so far.
- **Return value.** `tsv_to_bgz` returns `dump_files.empty()` (see Findings).

Files:

| file | contents |
|---|---|
| `common.dfy` | `byte`, `Option`, the C integer bounds, `Flatten` |
| `varint.dfy` | `WriteVarint32` / `ReadVarint32` |
| `tsv_parser.dfy` | lines, fields and `val` (`TsvParser`), the refill on values and the `Parser` class (`TsvBuffer`) |
| `naming.dfy` | the prefix cut, `%02d` naming, `find_dump_files` |
| `framing.dfy` | the frame format of one dump file |
| `protodump.dfy` | `tsv_to_bgz`, rotation, `bgz_foreach`, the whole write–find–read cycle |
| `row_mapper.dfy` | the `PROTODUMP_*` mapper macros on the parser |

## Model

| member | source | states |
|---|---|---|
| TsvParser.NewlineAt | include/tsv_parser.h:87-92 | the scan stops at the first `'\n'`: no `'\n'` before it, and it reaches the end exactly when there is none |
| TsvParser.LinesStep | include/tsv_parser.h:82-101 | the lines of a text with a line end are its first line, then the lines after that `'\n'` |
| TsvParser.Lines | include/tsv_parser.h:82-101 | the lines `next_line` returns from a text: each piece before a `'\n'`, in order; trailing text with no `'\n'` is not a line |
| TsvParser.ShiftedPending | include/tsv_parser.h:118-125 | dropping a buffer-full that holds no `'\n'` keeps the first line end and the text after it, and the kept line is a suffix of the real one |
| TsvParser.LineAfterRefill | include/tsv_parser.h:84-89 | the rescan after a refill finds a line exactly when the text before the refill had one. The line is that text's first line, without the whole buffer-fulls an overlong line loses, and the text after its `'\n'` stays pending |
| TsvParser.TabAt | include/tsv_parser.h:144-145 | the field scan stops at the first tab, or at the end when there is none |
| TsvParser.CutField | include/tsv_parser.h:141-151 | the fields of a rest are the text up to its first tab, then the fields after that tab |
| TsvParser.Fields | include/tsv_parser.h:141-151 | the fields `next_field` cuts from a line: the pieces between tabs, in order; an empty line has no field, and a non-empty one at least one and no more than its length |
| TsvParser.FieldsHaveNoTab | include/tsv_parser.h:141-151 | no field holds a tab, and a non-empty rest has at least one field |
| TsvParser.JoinFields | include/tsv_parser.h:137-139 | the fields joined with tabs give back the line (unless it ends with a tab) |
| TsvParser.DigitRun | include/tsv_parser.h:161-172 | the decimal run `strtol` reads covers only digits and stops at the first non-digit |
| TsvParser.ParseDecimal | include/tsv_parser.h:165-172 | what `strtol` reads behind `atol`: leading white space skipped, an optional sign, then the leading digit run; 0 when there is no digit |
| TsvParser.ValLong | include/tsv_parser.h:165-172 | `atol`/`atoll` give a value within the 64-bit bounds (saturating) |
| TsvParser.ValInt | include/tsv_parser.h:161-164 | `atoi` gives a value within the 32-bit bounds (low 32 bits of `strtol`) |
| TsvParser.ValBool | include/tsv_parser.h:153-156 | `val<bool>`: true exactly for the text `true` |
| TsvParser.Val | include/tsv_parser.h:153-172 | the `val` table: `bool`, `int`, `long`, `long long` and text, each converted as its specialisation does |
| TsvBuffer.RefillAt | include/tsv_parser.h:107-124 | what each cell holds after the refill this model uses: the moved tail, then the bytes read, then the old cells. The model adds one NUL after a short read's data, which the code does not write (see Left out) |
| TsvBuffer.RefillAsWritten | include/tsv_parser.h:107-124 | the buffer after `memmove` and `fread` exactly as written: the kept tail, the bytes read, then the cells the read did not reach, unchanged; the length stays the same |
| TsvBuffer.Refill | include/tsv_parser.h:107-124 | the refill the model uses: as written, with a NUL right after the bytes of a short read; the length stays the same |
| TsvBuffer.RefillDiffersInOneCell | include/tsv_parser.h:112-123 | the corrected refill differs from the one as written in the cell after a short read's data only |
| TsvBuffer.ShortReadKeepsStaleCells | include/tsv_parser.h:112-116 | as written, every cell after a short read still holds what it held before the read |
| TsvBuffer.FirstFillReadsGarbage | include/tsv_parser.h:119-124 | as written, a short first read into the fresh array lets the scan run on into cells the file never filled; cells there holding `b\n` give a line `b` the file does not hold, while the model's refill gives only the file's line |
| TsvBuffer.ShortReadSameLines | include/tsv_parser.h:112-116 | after a short read, the refill as written and the model's refill give the same lines whenever the cells after the new data hold no `'\n'` |
| TsvBuffer.LinesLineFreeTail | include/tsv_parser.h:87-92 | text with no `'\n'` after the last line end adds no line |
| TsvBuffer.TextBeforeNulAppend | include/tsv_parser.h:87-92 | a scan over NUL-free text goes on into whatever follows it |
| TsvBuffer.TextBeforeNul | include/tsv_parser.h:87-89 | the text a scan sees is a prefix of the array and holds no NUL |
| TsvBuffer.TextBeforeNulStops | include/tsv_parser.h:87-89 | a scan over NUL-free text followed by NUL sees exactly that text |
| TsvBuffer.RefillData | include/tsv_parser.h:107-124 | after the model's refill, the front of the array is one contiguous piece of the file, ended by NUL after a short read |
| TsvBuffer.Parser.constructor | include/tsv_parser.h:63-74 | a new reader has read nothing, has no line, and everything in the file is pending; the last cell is NUL |
| TsvBuffer.Parser.TotalRead | include/tsv_parser.h:35 | the bytes delivered plus those still unread make up the file |
| TsvParser.Dropped | include/tsv_parser.h:118-125 | an overlong line loses whole buffer-fulls only, leaving fewer than 16383 characters, and a line shorter than the buffer loses nothing |
| TsvParser.DroppedShift | include/tsv_parser.h:118-125 | one more buffer-full in front of a line is one more buffer-full dropped |
| TsvBuffer.Parser.NextLine | include/tsv_parser.h:82-101 | true exactly when the pending text has a `'\n'`. Then the current line is its first line, without the whole buffer-fulls an overlong line loses, and the text after the `'\n'` is pending. False means the file is read to its end and what is left has no line end |
| TsvBuffer.Parser.ScanLine | include/tsv_parser.h:86-92 | the scan stops at the first `'\n'` or at the NUL that ends the data |
| TsvBuffer.Parser.TakeLine | include/tsv_parser.h:93-100 | the found `'\n'` becomes NUL, the line before it is current and the text after it is pending |
| TsvBuffer.Parser.RefillAndRetry | include/tsv_parser.h:84-89 | the refill-then-rescan branch of `next_line` keeps the `next_line` contract |
| TsvBuffer.Parser.RetryAfterFill | include/tsv_parser.h:89 | the rescan after a refill that dropped a `'\n'`-free buffer-full (or kept everything) finds the first line of the text before the refill, without the whole buffer-fulls an overlong line loses; when it finds none, the file is read to its end |
| TsvBuffer.Parser.LineInData | include/tsv_parser.h:86-93 | the first `'\n'` in the buffered data is the first line end of the pending text |
| TsvBuffer.Parser.NoNulInData | include/tsv_parser.h:88 | the buffered data holds no NUL, so the NUL the scan meets is the one that ends the data |
| TsvBuffer.Parser.FillFileBuffer | include/tsv_parser.h:103-127 | with no file or at end of file: false, and the array, the cursors and the pending text are unchanged. Otherwise it reads up to the consumed prefix (or a whole buffer) and is true exactly when the read delivered bytes. It keeps the pending text, except that a full `'\n'`-free buffer is dropped |
| TsvBuffer.Parser.NoFill | include/tsv_parser.h:104-105 | with no file, or at end of file, the fill fails and changes nothing but the current-line flag; the pending text then holds no `'\n'` |
| TsvBuffer.Parser.FillCompacting | include/tsv_parser.h:107-117 | the compacting refill reads up to the consumed prefix's size; on success the data starts at the front and the pending text is unchanged |
| TsvBuffer.Parser.FillFresh | include/tsv_parser.h:118-125 | the whole-buffer read: at the start it keeps the pending text, after a full line-less buffer it drops that buffer-full |
| TsvBuffer.Parser.Reload | include/tsv_parser.h:107-124 | the memmove followed by the fread leaves the array as the model's refill says (with its added NUL), and the file position moves by the bytes read |
| TsvBuffer.Parser.MoveTail | include/tsv_parser.h:110 | `memmove` of the unconsumed cells to the front; the other cells keep their contents |
| TsvBuffer.Parser.ReadChunk | include/tsv_parser.h:112-116 | `fread` delivers the next `min(n, rest)` bytes of the file into the cells and sets end-of-file exactly on a short read. The model then writes a NUL after the data, which the code does not |
| TsvBuffer.Parser.HasMoreField | include/tsv_parser.h:33 | true exactly when the current line has a field left |
| TsvBuffer.Parser.MoveNextField | include/tsv_parser.h:141-151 | None exactly when no field is left; otherwise the first remaining field, which is removed from the line's remaining fields |
| TsvBuffer.Parser.EndField | include/tsv_parser.h:146-149 | the tab ending a field becomes NUL and the cursor moves past it; at the line's end the cursor stays |
| TsvBuffer.Parser.ScanField | include/tsv_parser.h:144-145 | the field scan ends at the first tab of the rest, or at its end |
| TsvBuffer.Parser.SkipField | include/tsv_parser.h:32 | true exactly when a field was left, and then one field fewer remains |
| TsvBuffer.Parser.NextField | include/tsv_parser.h:129-135 | the first remaining field converted by the `val` table, and one field fewer remains |
| TsvBuffer.Parser.NextAll | include/tsv_parser.h:137-139 | the rest of the current line, which has no line end and rebuilds the remaining fields |
| TsvBuffer.ReadAllLines | include/tsv_parser.h:82-101 | `while (next_line())` over a fresh reader meets exactly the lines of the file, in order, when every line fits the buffer |
| TsvBuffer.NextRow | include/tsv_parser.h:82-101 | one `next_line` plus `next_all` yields the first pending line and leaves the rest pending |
| Varint.Encode | include/protodump.h:120 | `WriteVarint32` bytes: every byte but the last has its high bit set; one byte exactly below 128 |
| Varint.EncodeLength32 | include/protodump.h:120 | the varint of a 32-bit length is at most five bytes |
| Varint.ReadVarint32 | include/protodump.h:178 | a read value fits 32 bits and uses at least one byte of the input; nothing is read from empty input |
| Varint.DecodeRaw | include/protodump.h:178 | the byte loop of `ReadVarint32`: seven bits from each byte, low group first, up to the first byte below 0x80 and within the byte limit; it uses at least one byte, and the last byte it uses is below 0x80 |
| Varint.DecodeEncode | include/protodump.h:178 | the varint reader gives back the value written and the length of its encoding, whatever follows |
| Varint.ReadWriteVarint32 | include/protodump.h:178 | `ReadVarint32` after `WriteVarint32` of a 32-bit value gives the value and consumes exactly its bytes |
| Varint.EncodeInjective | include/protodump.h:120 | the encoding is prefix-free: two encodings starting the same stream are of the same value |
| Framing.Sentinel | include/protodump.h:129 | the end mark is the single byte 0 |
| Framing.Frame | include/protodump.h:120-121 | one record as written: its length as a varint, then its bytes |
| Framing.Frames | include/protodump.h:118-121 | the frames of the records, in the order written |
| Framing.FileBytes | include/protodump.h:118-129 | a whole dump file: the frames of its records, then the sentinel |
| Framing.Deframe | include/protodump.h:178-185 | the records read from a file's bytes: frames until a zero length, a missing length, or the end of the data, a cut frame giving the bytes that remain |
| Framing.DeframeFrame | include/protodump.h:178-184 | one frame written is read back as its record, leaving the reader right after it |
| Framing.DeframeFrames | include/protodump.h:178-185 | frames written one after another are read back in order |
| Framing.FileRoundTrip | include/protodump.h:178-185 | a dump file is read back as exactly its records; nothing after the sentinel is read |
| Framing.ArchiveRoundTrip | include/protodump.h:164-185 | the files of an archive read one after another give all their records in order |
| Framing.DeframeAll | include/protodump.h:164-186 | what the reading loop over all the files hands over: each file's records, file after file |
| DumpNaming.LastDot | include/protodump.h:75-76 | `find_last_of('.')`: a '.' with none after it, or -1 |
| DumpNaming.StripExtension | include/protodump.h:74-77 | the prefix is the path cut before its last '.', or the whole path without one |
| DumpNaming.Pad2 | include/protodump.h:21 | `%02d` gives at least two decimal digits |
| DumpNaming.DecimalValue | include/protodump.h:21 | reading back the digits of `%d` gives the number |
| DumpNaming.Pad2Value | include/protodump.h:21 | `atol` of the `%02d` text gives back the index |
| DumpNaming.DumpName | include/protodump.h:21 | a dump file name from `%s.%02d.%s`: the prefix, a dot, the index in at least two digits, a dot, the suffix |
| DumpNaming.DumpNameInjective | include/protodump.h:21 | two dump files of one archive have the same name only with the same index |
| DumpNaming.DumpNames | include/protodump.h:84 | file `j` of the list is named after index `j` |
| DumpNaming.FindDumpFiles | include/protodump.h:143-157 | the names of files 0, 1, ... that open, in order, up to the first that does not |
| DumpNaming.FindStopsAtGap | include/protodump.h:145-152 | with files 0, 1 and 3 present, discovery returns exactly files 0 and 1 |
| Protodump.TallyPartition | include/protodump.h:101-122 | every row is counted once in `total_count` and in at most one other counter; `parsed_count` is the number of records written |
| Protodump.WrittenPayloads | include/protodump.h:116-122 | the records written, in row order: the payload of every row that was serialized |
| Protodump.Count | include/protodump.h:101-122 | one row's counter increments: `total_count` always, and `zero_length_count`, `invalid_length_count` or `parsed_count` as the row ended |
| Protodump.TallyOf | include/protodump.h:101-122 | the counters after the rows, starting from 0 |
| Protodump.Step | include/protodump.h:100-122 | one row: rejected by the mapper, of size 0, of negative size, or serialized, with the log cleared only after a write |
| Protodump.Run | include/protodump.h:100-122 | the outcomes of the rows in order, one per row, and the log left after the last |
| Protodump.RunFramable | include/protodump.h:106-121 | every record written has a positive length that fits an `int` |
| Protodump.PlanFlatten | include/protodump.h:116-127 | the dump files hold all records written, in order, none split or lost |
| Protodump.PlanRotation | include/protodump.h:124-127 | a non-empty prefix of a file exceeds the size limit exactly when it is the whole of a file that is not the last |
| Protodump.Plan | include/protodump.h:116-127 | the records spread over files: each goes into the current file, and a new one starts once the byte count passes the limit; there is always at least one file |
| Protodump.PlanNoEmptyFile | include/protodump.h:124-134 | every file but the last holds at least one record |
| Protodump.PlanFramable | include/protodump.h:116-121 | every file holds only framable records |
| Protodump.DumpRoundTrip | include/protodump.h:116-129 | the dump files of a record list, read back in order, give that list |
| Protodump.PlanSnoc | include/protodump.h:116-127 | one more record joins the last file, which is closed when it went over the limit |
| Protodump.GrowArchive | include/protodump.h:116-127 | a written row adds its record to the open file and rotates when it went over the limit |
| Protodump.SameArchive | include/protodump.h:102-114 | a rejected, empty or negative-size row leaves the archive as it was |
| Protodump.OpenedOneMore | include/protodump.h:87-92 | opening the next name adds it as the next dump file |
| Protodump.WriteDumpFile | include/protodump.h:94-130 | the inner loop fills one file with framed records and a sentinel, and stops either on rotation or at the end of the input; on rotation it has read at least one row, and the last row read is the one whose record went over the limit |
| Protodump.HandleRow | include/protodump.h:101-127 | one row is counted, mapped and, unless skipped, framed into the file; `full` exactly when the file went over the limit, which only a row that wrote a record can do |
| Protodump.TsvToBgz | include/protodump.h:69-141 | the dump files are named in sequence and hold the archive plan of the records written, with counters matching the rows and `total_read` the whole input; a dump file that cannot be opened stops the call with the earlier files complete; the rows it counted are then the first lines of the input, and they are none (file 0) or end with the row whose record caused the last rotation |
| Protodump.DumpAll | include/protodump.h:82-135 | the outer loop opens dump files 0, 1, ... in turn and fills each; it ends either when a file cannot be opened, with the files before it complete and the rows read ending at the last rotation, or after a file that did not go over the limit, with the whole plan written and all the input read |
| Protodump.DumpNext | include/protodump.h:83-134 | one turn of the outer loop: a name that cannot be opened stops it; otherwise the file is written, and the loop goes on only after a rotation, having read at least one more line |
| Protodump.StopAt | include/protodump.h:87-91 | a dump file that cannot be opened leaves the files before it complete, the plan ending in that empty file, and the rows read the first lines of the input |
| Protodump.FinishAt | include/protodump.h:132-134 | a file that ends without a rotation ends the run: the files hold the whole plan and the rows are every line of the input |
| Protodump.ReturnedAsWrittenIsFalse | include/protodump.h:140 | the flag returned as written is false on every run, successful or not |
| Protodump.ReturnedAsWritten | include/protodump.h:140 | the flag `tsv_to_bgz` returns as written: false when a dump file cannot be opened, otherwise `dump_files.empty()` |
| Protodump.ReadDumpFile | include/protodump.h:177-185 | the records handed over for one file are exactly its deframing |
| Protodump.DeframeNext | include/protodump.h:178-184 | a whole frame at the front is handed over, then reading continues after it |
| Protodump.DeframeCut | include/protodump.h:178-184 | a frame cut short hands over the bytes that are there and ends the file |
| Protodump.BgzForeach | include/protodump.h:159-191 | files are read in order until one cannot be opened; true exactly when all were read; the records handed over are those of the files read, and `read_count` counts them |
| Protodump.ReadOneMore | include/protodump.h:164-188 | the records of one more file come after those of the files read before it |
| Protodump.DumpNamesDistinct | include/protodump.h:84 | the names of an archive are pairwise distinct |
| Protodump.FindsAll | include/protodump.h:143-157 | in a directory holding exactly files 0 .. n-1 of an archive, discovery finds all of them |
| Protodump.ArchiveDirectory | include/protodump.h:143-157 | the directory of an archive has exactly its names, and reading them gives its files back |
| Protodump.FindAndRead | include/protodump.h:143-191 | discovery plus `bgz_foreach` on an archive's directory read back every record in its files |
| Protodump.RunRoundTrip | include/protodump.h:100-185 | the records written by a run, read back from its files, are exactly those records, `parsed_count` of them |
| Protodump.DumpThenRead | include/protodump.h:69-191 | write, discover and read: the executor receives exactly the records written, in order, and `read_count == parsed_count`; the counts are those of the rows read, and those rows are the input's lines when every line fits the buffer |
| RowMapper.SchemaAccepts | include/protodump.h:194-206 | a row is accepted exactly when every required field has a line field of its own |
| RowMapper.ApplySchema | include/protodump.h:194-206 | a mapper built from `PROTODUMP_req` / `PROTODUMP_opt`: each column takes the next field through `val`; a missing required field rejects the row, a missing optional one is skipped |
| RowMapper.SchemaSets | include/protodump.h:194-201 | each field spec with a line field sets its record field to that field converted to its type |
| RowMapper.SchemaKeeps | include/protodump.h:194-201 | the mapper sets only the fields that have a line field; every other record field is unchanged |
| RowMapper.RejectedUsesAll | include/protodump.h:194-195 | a rejected row has used up every field of its line |
| RowMapper.MapField | include/protodump.h:194-201 | one `PROTODUMP_req`/`_opt`: fails exactly when a required field has no line field; otherwise sets it from the next field or leaves the record as it was |
| RowMapper.MapRow | include/protodump.h:203-206 | the mapper on the parser gives the result and the record of the schema on the line's fields, consuming one field per spec |
| RowMapper.ThreeFieldScenario | include/protodump.h:100-122 | with three required fields, a full row is written with its three values and a two-field row is rejected; two rows counted, one parsed |

## Left out

- Compression: the gzip layer is the identity on the frame stream. The byte count that decides rotation is an arbitrary function of the bytes written to the file so far. The file handles and `close` are not modelled.
- Protocol Buffers: a record type is a `Codec` with `ByteSize`, `SerializeToArray` and `Clear`. `ParseFromArray` and its ignored failure are not modelled: the executor receives the record bytes.
- Elapsed time (`stopwatch`), `perror` output and the `TSV_DEBUG` line copy are not modelled: they are clocks, I/O and diagnostics.
- `val<float>` and `val<double>` are not modelled: floating point.
- `PROTODUMP_enum_begin` / `PROTODUMP_enum_end` are not modelled: they are a static hash map from text to enum values.
- File system access is given as parameters:
  - the input file's content, `None` when it cannot be opened;
  - the set of names that cannot be opened for writing;
  - a map from readable names to their decompressed bytes.
- Protodump.TsvToBgz: the counters are unbounded, so the wrap-around of the `uint32_t` counters after 2^32 rows is not modelled.
- Protodump.BgzForeach: `read_count` (`uint32_t`, protodump.h:54) is unbounded too, so its wrap-around after 2^32 records is not modelled.
- Protodump.TsvToBgz: the 1024-byte `snprintf` limit on a dump file name is not modelled; names are never truncated.
- DumpNaming.FindDumpFiles: the same 1024-byte `snprintf` limit on the names it builds (protodump.h:146-147) is not modelled; names are never truncated.
- Protodump.TsvToBgz: the rows are shown to be the file's lines (all of them on success, the first of them when a dump file cannot be opened) only when every line fits the line buffer. An overlong line loses its dropped buffer-fulls; `NextLine` states what is kept.
- TsvBuffer.ReadAllLines: requires every line of the file to fit in the buffer. Otherwise the reader silently drops whole buffer-fulls of an overlong line, which `NextLine` states on its own.
- Protodump.DumpThenRead: discovery sees only the files this run wrote. Creating a dump file truncates it but never deletes files with higher indexes, so files left by an earlier, longer run under the same prefix would also be found and read. That case is not modelled.
- TsvBuffer.Parser.constructor: requires the file to hold no NUL byte. The reader treats a NUL as the end of the buffered data, and that case is not modelled.
- TsvBuffer.Parser.constructor: the delimiter is stored but not used, because the code splits on `'\t'` whatever the delimiter.
- Protodump.BgzForeach: `SetTotalBytesLimit` (reads fail past `INT_MAX` bytes per file) is not modelled.
- Framing.Deframe / Protodump.DeframeCut / Protodump.BgzForeach: for a frame cut short by the end of the data, the model hands over the bytes present, whereas the code hands over whatever the reused scratch buffer then holds.
- TsvBuffer.Parser.ReadChunk: every read that delivers fewer bytes than asked for is taken as end of file, which then holds for `Valid()`. A read error, which sets `ferror` and not `feof`, is not modelled: the file is taken to be read without error.
- TsvBuffer.Parser.Reload / ReadChunk: after a short read they write a NUL right after the new data, which the code does not. After any fill but the first, this cannot change the lines read. Every `'\n'` already consumed became NUL (line 93), and the scan crossed the rest of the data without meeting one, so the cells past the new data hold no `'\n'`. `ShortReadSameLines` shows the lines are then the same, and the next refill fails at end of file in both. Only a short first fill, into the uninitialised array, differs (Findings).

## Findings

| source | as written | input that shows it | evidently intended | confidence | as-written member | corrected member |
|---|---|---|---|---|---|---|
| include/tsv_parser.h:119-124 | the first `fread` goes into the array just allocated by `new char[]` (line 67), whose cells are uninitialised. When the file is shorter than the buffer, nothing marks where the data ends. `next_line` then scans on past it into those cells, up to the first 0 it meets, and any `'\n'` among them ends a line the file does not hold | a file holding `x\n` only, with the uninitialised cells after it happening to hold `b\n` and a 0: the lines read are `x`, `b`. Reading the cells is undefined behaviour, so what they hold depends on the allocator | end the data after the bytes read (a 0 at `buf[read]`), so that only the file's lines are read | medium (depends on heap contents), not executed | TsvBuffer.FirstFillReadsGarbage | TsvBuffer.Refill |
| include/protodump.h:140 | `return result.dump_files.empty();` is false whenever a dump file was opened, so a completed run returns false, the same as a failed one | any input whose first dump file can be created | true on success, false when a dump file cannot be opened | high, not executed | Protodump.ReturnedAsWrittenIsFalse | Protodump.TsvToBgz |

In the model, the corrected refill `TsvBuffer.Refill` is what `TsvBuffer.Parser.Reload` performs. `TsvBuffer.ReadAllLines` proves that with it every line of the file is met exactly once, in order, whatever the array held at the start. For later refills the NUL changes nothing (`TsvBuffer.ShortReadSameLines`). `Protodump.TsvToBgz` returns `ok` as the success flag.

