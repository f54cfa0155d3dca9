# QRT snapshot decoder — a Dafny model

`QRTparser.py` turns a "QRT" market-data snapshot into one CSV file per
instrument. A QRT file is laid out as follows:

- **Preamble.** A 32-byte preamble carries three little-endian 32-bit counters:
  - the records per page (`record_size`);
  - the byte offset of the record area (`record_begin_position`);
  - the number of instrument descriptors (`code_number`).
- **Descriptor table.** At `0x20` a table of fixed-size descriptors begins.
  - Each descriptor is 254 bytes, or 252 when the "alignment" flag is set.
  - A descriptor holds a NUL-padded 7-byte name, a 32-bit record count at offset 10, and 33 little-endian 16-bit page positions from offset 14.
- **Record area.** Record `i` of an instrument lives in page `i / record_size`. That page's position in the table, times `record_size` records of 36 bytes, locates it in the record area. The record is slot `i % record_size` of its page.
- **Records.** Each 36-byte record packs:
  - a 32-bit epoch time;
  - three 32-bit floats;
  - six 16-bit volumes and six 8-bit prices (three book levels per side);
  - a reserved word.

  Only the time, the floats and the first book level reach the output line.

`write_all` reads the preamble once and then runs `_parse_all`. If any step of that attempt raises, it tries exactly once more with the other descriptor size.

The model works on the file as an immutable `seq<byte>`. `fp.seek(p); fp.read(n)` is a clamped slice, and every Python exception the decoding can hit is a `Fault` value in a `Result` (exceptions raised by the file system, such as a failing `open`, are not modelled):

- `struct.error` on a short buffer;
- `ZeroDivisionError` on a zero page size;
- `IndexError` on a page past the table;
- the `Exception('Runtime Error')` that `_parse_all` re-raises.

Modules:

- `Faults`, `Bytes`: the result type, Python slicing and reads, and `struct`'s little-endian unpacking.
- `Header`: `_parse_header`.
- `FutureMaps`: `_parse_future_map`, with its 33-round position loop as a method, the descriptor layout, and NUL stripping.
- `Calendar`, `Timestamp`: `time.gmtime` on non-negative times, checked against an independent seconds-since-epoch definition, and the `%04d-%02d-…` time column.
- `Records`: `_parse_one_record`'s unpacking and the record-offset arithmetic.
- `RowText`: the comma-joined output line, and reading it back with `split(',')`.
- `Driver`: `_parse_all` and `write_all` as methods with loops. Each is proved equal to a specification function, and the properties are proved as lemmas about those functions.

Two details of the code matter for the model:

- **Name stripping.** The name is stripped of NULs at both ends (`strip`, line 50), not only at the right; NULs inside the name stay.
- **The `== -1` skip.** Positions are unpacked as unsigned 16-bit values (`"H"`, line 54), so the skip test at line 108 can never be true. The model leaves the test out. `Driver.RecordRowsSpec` shows that every instrument yields exactly `records_number` rows, and that none is skipped.

## Model

| member | source | states |
|---|---|---|
| Bytes.Read | QRTparser.py:44-45 | seek+read returns the n bytes at p when they all exist, otherwise whatever is left of the file from p (nothing past its end); a short read is not an error |
| Bytes.Slice | QRTparser.py:54 | Python slicing: bounds clamped to the length, the exact sub-sequence when in range, length max(0, min(hi,len) - lo) |
| Bytes.UnpackU16 | QRTparser.py:54 | `unpack_from("H")` succeeds iff at least 2 bytes are given, the value's little-endian encoding is the first two bytes, otherwise struct.error(2, len) |
| Bytes.UnpackU32 | QRTparser.py:38-40 | `unpack_from("L")` succeeds iff at least 4 bytes are given, the value's little-endian encoding is the first four bytes, otherwise struct.error(4, len) |
| Header.ParseHeader | QRTparser.py:36-41 | the header decodes iff the file has 32 bytes; record_size, record_begin_position and code_number are the LE u32 at 12..15, 20..23, 28..31; a failure is a struct error on a field with fewer than 4 bytes |
| Header.HeaderRoundTrip | QRTparser.py:36-41 | decoding a preamble that encodes three counters gives them back, whatever the other preamble bytes and whatever follows |
| Header.HeaderReadsOnlyItsFields | QRTparser.py:37-40 | two files agreeing on bytes 12..15, 20..23 and 28..31 decode to the same header: no other byte matters |
| FutureMaps.BytesOfFuture | QRTparser.py:92-95 | the descriptor size is 254 without and 252 with the alignment flag, and always covers the 80 bytes the decoder looks at |
| FutureMaps.FutureMapsDisjoint | QRTparser.py:96 | descriptor i+1 starts one descriptor size after descriptor i, and no two descriptors overlap |
| FutureMaps.StripLeadingNulSpec | QRTparser.py:50 | lstrip of NULs keeps a suffix that does not start with NUL and removes only NULs |
| FutureMaps.StripTrailingNulSpec | QRTparser.py:50 | rstrip of NULs keeps a prefix that does not end with NUL and removes only NULs |
| FutureMaps.StripNulIsTrimmedSlice | QRTparser.py:50 | `FutureMaps.StripNul`, the model of `strip('\x00')`, returns a contiguous slice of the name field, with only NULs cut on either side, that neither starts nor ends with NUL |
| FutureMaps.StripPaddedName | QRTparser.py:49-50 | a name of at most 7 bytes without NUL at either end, NUL-padded and stripped, is returned unchanged |
| FutureMaps.StockPositionsSpec | QRTparser.py:52-55 | after n rounds of the position loop: success iff the buffer reaches 14+2n, then n entries, the k-th being the LE u16 at 14+2k |
| FutureMaps.DecodeFutureMapSpec | QRTparser.py:43-56 | `FutureMaps.DecodeFutureMap`, the decode of the bytes read for one descriptor: it succeeds iff at least 80 bytes were read (not 254/252); then name = strip of the first 7 bytes, count = LE u32 at 10, exactly 33 positions, the j-th being the LE u16 at 14+2j |
| FutureMaps.DecodeFutureMapReadsOnlyItsFields | QRTparser.py:49-55 | bytes 7..9 and everything from byte 80 on never affect the decoded descriptor |
| FutureMaps.FutureMapRoundTrip | QRTparser.py:43-56 | decoding an encoded descriptor (padded name, any 3 gap bytes, count, 33 positions), followed by anything, gives it back |
| FutureMaps.ParseFutureMap | QRTparser.py:43-56 | the imperative seek/read/decode of one descriptor returns exactly the specified decode of the bytes read |
| FutureMaps.ParseStockPositions | QRTparser.py:52-55 | the `for j in range(33)` append loop returns exactly the specified 33-entry table, or the error of the first entry that cannot be read |
| Calendar.Gmtime | QRTparser.py:78 | gmtime of a non-negative time is a valid calendar reading (month 1..12, day within the month, hour < 24, minute < 60, second < 60) that denotes exactly that many seconds since 1970 |
| Calendar.EpochSecondsInjective | QRTparser.py:78 | different valid calendar readings denote different instants |
| Calendar.GmtimeUnique | QRTparser.py:78 | gmtime returns the one valid reading that denotes the given seconds: it inverts the seconds-since-epoch definition |
| Calendar.GmtimeYearOfU32 | QRTparser.py:78 | every time an unsigned 32-bit field can hold falls in a year from 1970 to 2106 |
| Timestamp.Decimal | QRTparser.py:84-87 | `"%d"` of a non-negative integer is a non-empty run of digits with no leading zero |
| Timestamp.DecimalValue | QRTparser.py:84-87 | reading back the `"%d"` digits gives the number |
| Timestamp.ZeroPaddedSpec | QRTparser.py:79 | `"%0<w>d"` of a number below 10^w is exactly w digits and reads back as the number |
| Timestamp.TimeStringRoundTrip | QRTparser.py:78-79 | `Timestamp.TimeString`, the time column of `gmtime` and the `%04d-%02d-…` format: for years up to 9999 it is 19 characters in the `YYYY-MM-DD-HH-MM-SS` layout, spells out exactly gmtime's fields, and so denotes the original seconds |
| Timestamp.TimeStringInjective | QRTparser.py:78-79 | two different times (years up to 9999) never print the same time column |
| Timestamp.TimeStringOfU32 | QRTparser.py:77-79 | every u32 record time gets a 19-character time column in the fixed layout that reads back as that time |
| Records.UnpackRecord | QRTparser.py:77 | unpacking `"LfffHHHHHHBBBBBBH"` succeeds iff 36 bytes are given, else struct.error(36, len) |
| Records.RecordRoundTrip | QRTparser.py:61-77 | unpacking a packed 17-field record, followed by anything, gives it back |
| Records.EncodeRecordInjective | QRTparser.py:61-77 | different records pack to different bytes |
| Records.RecordEncodingComplete | QRTparser.py:77 | any 36 bytes are the packing of the record they unpack to: the layout has no padding and no skipped byte |
| Records.ParseOneRecord | QRTparser.py:58-77 | reading a record succeeds iff the 36 bytes at its offset are in the file, else struct.error(36, bytes read); the row holds the LE u32 at 0, 4, 8, 12, the LE u16 at 16 and 22, and the bytes at 28 and 31 |
| Records.ParseOneRecordReadsOnlyItsColumns | QRTparser.py:78-87 | depth levels two and three and the reserved word never reach the row: files agreeing on the emitted bytes give the same row |
| Records.CodePosSpec | QRTparser.py:107-112 | `Records.CodePos`, the `code_pos` arithmetic of lines 107-112: the offset fails exactly for a zero record_size (ZeroDivision) or a page past the table (IndexError of that page), and otherwise lies record_begin_position plus a whole number of records, namely positions[page]*rs + i%rs, into the file |
| Records.CodePosStride | QRTparser.py:111-112 | consecutive records of one page are consecutive 36-byte blocks |
| Records.CodePosCollision | QRTparser.py:107-112 | two records share an offset only when they are the same slot of pages the table maps to the same position |
| RowText.Columns | QRTparser.py:79-87 | a row yields as many columns as the header line names |
| RowText.RecordLineSplits | QRTparser.py:80-88 | `RowText.RecordLine`, the comma-joined line `_parse_one_record` returns: provided the float renderings hold no comma, `split(',')` of it gives back exactly its eight columns |
| RowText.ColumnsReadBack | QRTparser.py:78-88 | the first column is the 19-character time layout reading back as gmtime of the record time and so as the time itself; columns 5-8 are digit runs reading back as buy1volume, sell1volume, buy1, sell1 |
| RowText.RecordLineDeterminesIntegers | QRTparser.py:78-88 | two rows printing the same line have the same time and the same four integer columns |
| RowText.LineSplits | QRTparser.py:113-114 | `RowText.Lines`, the lines appended for an instrument's rows: line i is the `_parse_one_record` line of row i, one per row in row order, and, with comma-free float renderings, splits back into that row's columns |
| RowText.HeaderColumnsSplit | QRTparser.py:103 | the header line splits back into its eight column names |
| Driver.ParseDirectory | QRTparser.py:92-96 | the descriptor comprehension with the 254/252 choice returns exactly the specified directory |
| Driver.ParseRecords | QRTparser.py:106-114 | the per-instrument record loop returns exactly the specified rows, or the first error |
| Driver.ParseAll | QRTparser.py:90-117 | `_parse_all`'s loops, with the skip of instruments without records and the catch-all re-raise, return exactly the specified attempt result |
| Driver.WriteAll | QRTparser.py:119-130 | the header read and the try/flip/retry sequence produce exactly the specified session |
| Driver.ParseAllResult | QRTparser.py:116-117 | every failure of an attempt surfaces as the re-raised runtime error |
| Driver.CollectSpec | QRTparser.py:96 | a loop that stops at the first raise succeeds iff every round does, then yields one value per round in order; otherwise it fails with the first failing round's error, every earlier round having succeeded |
| Driver.DescriptorAtSpec | QRTparser.py:96 | descriptor i decodes iff the 80 bytes from 0x20 + i*size lie in the file |
| Driver.DirectorySpec | QRTparser.py:92-96 | the directory decodes iff code_number is 0 or the last descriptor's 80 bytes are in the file; it then has code_number entries, the i-th decoded at 0x20 + i*254 (or 252) |
| Driver.DirectoryAlignmentMonotone | QRTparser.py:92-96 | a directory that decodes with 254-byte descriptors also decodes with 252-byte ones |
| Driver.RecordAtSpec | QRTparser.py:107-113 | record i fails with ZeroDivision for a zero record_size, with IndexError for a page past the table, and otherwise is the record read at its computed offset, succeeding iff 36 bytes are there |
| Driver.RecordRowsSpec | QRTparser.py:106-114 | an instrument's loop succeeds iff every record reads, and then yields exactly records_number rows, the i-th being record i: none is skipped |
| Driver.RecordRowsZeroRecordSize | QRTparser.py:107 | with record_size 0 and at least one record the loop fails with ZeroDivision |
| Driver.RecordRowsPageOverflow | QRTparser.py:107 | an instrument claiming more records than its pages hold fails |
| Driver.WithRecordsSpec | QRTparser.py:97-99 | the instruments that get a file are the directory slots with a non-zero record count, each slot kept once and in slot order: it returns the increasing list of those slots, and the j-th instrument kept is the one in the j-th listed slot (so two slots with equal descriptors give two entries) |
| Driver.FileOfSpec | QRTparser.py:100-114 | an instrument's file carries its name and reads iff all its records do, holding exactly those rows |
| Driver.OutputSpec | QRTparser.py:97-114 | the instrument loop succeeds iff every instrument with records reads (`AllFilesRead`), then yields one file per such instrument, in directory order |
| Driver.OutputFile | QRTparser.py:97-114 | the j-th file is named after the j-th instrument with records and holds its records_number rows, record i as row i |
| Driver.NoRecordsNoFiles | QRTparser.py:97-99 | when no instrument has records, the attempt succeeds and writes nothing |
| Driver.WriteAllRetry | QRTparser.py:119-130 | `Driver.WriteAllResult`, the session `write_all` runs: a header failure propagates with no attempt; otherwise the first attempt uses the caller's alignment, a second one happens iff the first fails and uses the other alignment, there is never a third, and the session ends as its last attempt did |
| Driver.WriteAllSucceeds | QRTparser.py:126-130 | once the header reads and as far as decoding goes (I/O failures are not modelled), the session succeeds iff one of the two alignments works, and any failure is the re-raised runtime error |
| Driver.ShortFileFailsBothAttempts | QRTparser.py:119-130 | a file holding the preamble but not the first descriptor's 80 bytes, with code_number > 0, makes two attempts and fails |

## Left out

- File handling is not modelled: `open`, `seek`, `read`, `close`, `__enter__`/`__exit__`, `os.mkdir`, `os.stat`, `os.path.join` and `print`. The input is an immutable byte sequence, and each attempt's output is a sequence of (instrument name, rows) pairs. The name stands for `<out_dir>/<name>.csv`.
- The CSV appends are not modelled as file writes: an attempt returns each instrument's rows, and the text appended for them is `RowText.Lines` of those rows, each line followed by a newline (line 114). Nor are their side effects modelled: a failed first attempt may already have appended lines to some files before the retry. The model returns rows per attempt.
- The rule that writes the header line only into an empty file depends on filesystem state. It is left out, and `HEADER_COLUMNS` keeps only the column names.
- The three float fields are kept as raw 32-bit words. Float interpretation and the `%8.1f`/`%4.0f`/`%8.0f` rendering are not modelled: `RowText` takes the rendering as a function parameter.
- Native `struct` sizing of `'L'` is not modelled. `'L'` is taken as 4-byte little-endian, the only size for which the record adds up to 36 bytes.
- `main`, `help` and argument handling are left out.
- Calendar.Gmtime: covers only non-negative times. Record times are unsigned 32-bit, so nothing else reaches it. The platform's own `time_t` limits are not modelled.
- Timestamp.TimeStringRoundTrip: requires a year of at most four digits. `Timestamp.TimeStringOfU32` shows that every u32 record time meets this.
- The re-raised runtime error keeps the failure that caused the re-raise, for stating properties. The Python 2 exception carries only the text `'Runtime Error'`.
- Header.ParseHeader: reads the preamble at offset 0. The source reads it without a seek (line 37), from wherever the handle stands; that is offset 0 only on a fresh handle, which is how `main` uses the parser. A second `write_all` on the same parser, which would read the header from where the last record read left the handle, is not modelled.
- Driver.WriteAllSucceeds: holds for decoding failures only. Any I/O failure inside `_parse_all`'s `try` (lines 100-115: `open(csv_filename, 'ab')`, `os.stat`, the writes) also fails the attempt and triggers the retry at lines 128-130; the model has no I/O and so never fails there. For example a name field `A\0B\0\0\0\0` decodes to the name `A\0B`, which Python 2's `open` rejects as a path, while the model's attempt succeeds.
- The `== -1` skip at line 108 is left out because it can never be true for an unsigned 16-bit position.
