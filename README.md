# dnestpy decoders in Dafny

This project models the two binary decoders of dnestpy, a toolkit for
Dragon Nest game data:

- **DNT tables** (`dnestpy/dnt.py`). A DNT file holds:
  - a four-byte zero header;
  - a `<HI` pair: the column count and the row count;
  - the column schema, one record per column: a length-prefixed EUC-KR name and a one-byte type tag;
  - the rows, each decoded cell by cell in column order by the decoder the tag selects.

  A synthetic `id` column of type u32 comes before the on-disk schema.
- **PAK archives** (`dnestpy/pak.py`). A PAK archive holds:
  - a 32-byte id string at offset 0 (`len(IDSTRING)`), which the model reads as 32 bytes;
  - the marker `0B 00 00 00` at 0x100;
  - the file count and the directory offset at 0x104 and 0x108;
  - one fixed 316-byte record per archived file at the directory offset. A record is a NUL-terminated, backslash-separated path field, five u32 fields and 40 reserved zero bytes.

  The directory is kept sorted by data offset. Extraction inflates the `zsize` bytes at an entry's offset.

The files are:

- `bytes.dfy` (module `Bytes`). The shared vocabulary:
  - bytes and little-endian integers;
  - the errors a decode raises, one constructor per cause;
  - `Codec`, the EUC-KR decoder both formats use, as a caller-supplied function;
  - `ReadAt`, which is Python's `read(n)` on a binary file. It returns at most `n` bytes from the cursor, fewer at the end of the file, and none when the cursor is at or past the end.
- `records.dfy` (module `Records`). `Many` is the pattern `[decode(buff) for _ in range(k)]` that both decoders use: records read back to back. It comes with generic lemmas:
  - where record `i` starts and ends;
  - the first failure decides the error;
  - fixed-width spans;
  - independence from bytes outside the run.
- `files.dfy` (module `Files`). `BinaryFile` is an open file: fixed contents and a cursor that `Read` advances and `Seek` sets.
- `dnt.dfy` (module `Dnt`). The DNT decoder:
  - the cell decoders as pure functions of (bytes, position);
  - `DecodeTable`, the whole-file reference definition;
  - `LoadTable`, `ParseSchema`, `ParseRows` and `ParseRow`, the loops of `DNTFile.__init__`, each proved equal to its reference definition.
- `pak.dfy` (module `Pak`). The PAK reader:
  - `DecodeEntry` and `DecodeDirectory`, the fixed-layout reference definitions;
  - the cursor-driven methods `ReadEntry`, `ReadEntries` and `Archive.ReadFilelist`. They perform the source's reads one by one from the shared handle and are proved equal to the reference definitions;
  - `Archive.Extract`.

## Model

| member | source | states |
|---|---|---|
| Bytes.ReadAt | dnestpy/dnt.py:14 | A read returns exactly `n` bytes when they are there. Otherwise it returns the bytes up to the end of the file, and none past it. The cursor moves to the end of what was read. |
| Bytes.UnpackU32 | dnestpy/dnt.py:19-20 | `<I` succeeds exactly when four bytes remain, and advances by four. Its value is b0 + 2^8·b1 + 2^16·b2 + 2^24·b3, which is below 2^32. Fewer bytes raise a truncation error. |
| Bytes.ReadAtPrefix | dnestpy/dnt.py:14 | Cutting the file at or after the cursor's new position does not change a read. |
| Bytes.ReadAtSuffix | dnestpy/pak.py:73-75 | A read depends only on the file length and the bytes from the cursor on. |
| Bytes.ReadAtWindow | dnestpy/pak.py:71-72 | A read depends only on the file length and the bytes it covers. |
| Records.Many | dnestpy/dnt.py:47 | A decoded run of `k` records holds exactly `k` records. |
| Records.ManyAt | dnestpy/dnt.py:47 | Record `i` of a decoded run is what one record decode yields where the first `i` records end. The first `i` records are a prefix of the run. |
| Records.ManyFailFrom | dnestpy/dnt.py:49 | Once a run fails, every longer run fails with the same error. |
| Records.ManyFailsAt | dnestpy/pak.py:81 | The first record that fails gives its error to every longer run. |
| Records.ManySpan | dnestpy/pak.py:81 | Records of `w` bytes each: `k` of them end `k·w` bytes after the start. |
| Records.ManyAdvances | dnestpy/dnt.py:49 | A run of records that never move the cursor backwards ends at or after its start. |
| Records.ManyFrom | dnestpy/pak.py:81 | Two files on which every record decodes alike from the start of the run decode the same run. |
| Records.ManyPrefix | dnestpy/dnt.py:49 | A run never reads past its end, provided no record does. |
| Records.ManyFixed | dnestpy/dnt.py:49 | Records of exactly `w` bytes: a run of `k` decodes exactly when `k·w` bytes remain. |
| Files.BinaryFile.constructor | dnestpy/pak.py:60 | Opening a file puts the cursor at 0 over its contents. |
| Files.BinaryFile.Read | dnestpy/pak.py:18 | `read(n)` returns what ReadAt yields at the old cursor, and the cursor moves past it. |
| Files.BinaryFile.Seek | dnestpy/pak.py:73 | `seek(offset, 0)` sets the cursor to `offset`, even past the end. |
| Dnt.ParseByte | dnestpy/dnt.py:9-10 | Succeeds exactly when a byte remains. Its value is that byte and it advances by 1. Otherwise it is truncated. |
| Dnt.ParseBool | dnestpy/dnt.py:16-17 | Succeeds exactly when four bytes remain and advances by 4. Its value is "first byte nonzero"; the other three bytes are not looked at. Otherwise it is truncated. |
| Dnt.VarcharLayout | dnestpy/dnt.py:12-14 | A missing u16 prefix is a truncation. Otherwise the body is the `n` prefixed bytes, clamped at the end of the file. The decode succeeds exactly when that body decodes, and the cursor lands just past it. A short body is not rejected. |
| Dnt.ParseVarchar | dnestpy/dnt.py:12-14 | On success the cursor advances by at least the two prefix bytes and stays within the file. |
| Dnt.CellLayout | dnestpy/dnt.py:16-23 | The type decoders: a varchar cell is parse_varchar's result. Bool, int and float cells read exactly four bytes and fail as a truncation when fewer remain. A bool is "first byte nonzero"; an int and a float are the little-endian u32 (a float as raw bits). |
| Dnt.ParseCell | dnestpy/dnt.py:32-38 | A decoded cell has the type its column names, and the cursor moves forward within the file. |
| Dnt.DropFirst | dnestpy/dnt.py:53 | `[1:]` removes exactly the first character, whatever it is; an empty name stays empty. |
| Dnt.ColumnLayout | dnestpy/dnt.py:51-55 | A column record is a varchar name, then a tag byte. A missing tag is a truncation. A tag outside the type map raises with that tag. Otherwise the column is the name without its first character, with the type map's decoder (tags 4 and 5 both float). |
| Dnt.ParseColumn | dnestpy/dnt.py:51-55 | On success the cursor moves forward within the file. |
| Dnt.ColumnsAt | dnestpy/dnt.py:47 | The `ncols` column records read back to back: a decoded schema has exactly `ncols` columns. |
| Dnt.CellsAt | dnestpy/dnt.py:57-59 | A decoded row has one cell per column, each of its column's type. |
| Dnt.RowsAt | dnestpy/dnt.py:49 | The `nrows` rows read back to back: a decoded run has exactly `nrows` rows. |
| Dnt.ColumnCount | dnestpy/dnt.py:45 | `ncols` is the little-endian u16 in bytes 4 and 5. |
| Dnt.RowCount | dnestpy/dnt.py:45 | `nrows` is the little-endian u32 in bytes 6 to 9. |
| Dnt.DecodeTable | dnestpy/dnt.py:40-49 | On success the header is four zero bytes, there are ncols + 1 columns with `id` (u32) first, and there are exactly nrows rows. |
| Dnt.DecodedFrom | dnestpy/dnt.py:43-49 | A zero header with a decoded schema and decoded rows is a successful decode made of exactly those parts. |
| Dnt.TableParts | dnestpy/dnt.py:43-49 | Conversely, every successful decode has a zero header, a decoded schema, and rows decoded under `id` plus that schema. |
| Dnt.RowsFit | dnestpy/dnt.py:49 | Every row decoded in a run fits its columns. |
| Dnt.TableFits | dnestpy/dnt.py:48-49 | Each row of a decoded table holds one cell per column, each of the kind its column names. |
| Dnt.SchemaFails | dnestpy/dnt.py:47 | A schema that fails to decode fails the whole decode with its error. |
| Dnt.ParseRow | dnestpy/dnt.py:57-59 | The loop over the columns from the cursor yields exactly CellsAt. |
| Dnt.ParseSchema | dnestpy/dnt.py:47 | The loop over `ncols` column records yields exactly the run of column records, with its error on failure. |
| Dnt.ParseRows | dnestpy/dnt.py:49 | The loop over `nrows` rows yields exactly the run of rows. |
| Dnt.LoadTable | dnestpy/dnt.py:40-49 | `DNTFile.__init__` as a sequence of reads yields exactly DecodeTable's table or error. |
| Dnt.CellsFailFrom | dnestpy/dnt.py:59 | Once a row's cells fail, more columns fail with the same error. |
| Dnt.CellAt | dnestpy/dnt.py:59 | Cell `j` is column `j`'s decoder applied where cell `j - 1` ended. |
| Dnt.SchemaColumn | dnestpy/dnt.py:46-47 | Column `j` of a decoded run, counted from `id`, is the column record decoded where the first `j - 1` records end. |
| Dnt.TableColumn | dnestpy/dnt.py:45-47 | Column `j` of a decoded table (after `id`) is the column record decoded where the first `j - 1` records end. |
| Dnt.TableRow | dnestpy/dnt.py:49 | Row `i` of a decoded table is decoded column by column from where row `i - 1` ended; row 0 starts right after the schema. |
| Dnt.BadHeaderFails | dnestpy/dnt.py:43-44 | A file whose first four bytes are not all zero, or that is shorter than four bytes, fails with the header error whatever follows. |
| Dnt.UnknownTagFails | dnestpy/dnt.py:54 | A column tag outside {1..5} fails the whole decode with that tag. |
| Dnt.FixedWidthCells | dnestpy/dnt.py:59 | Without varchar columns a row is exactly 4 bytes per column, and it decodes exactly when that many bytes remain. |
| Dnt.FixedWidthRows | dnestpy/dnt.py:49 | Without varchar columns, `k` rows decode exactly when `k` times the row width remain, and they take exactly that much. |
| Dnt.ParseVarcharPrefix | dnestpy/dnt.py:12-14 | A varchar does not read past its end. |
| Dnt.ParseCellPrefix | dnestpy/dnt.py:16-23 | A cell does not read past its end. |
| Dnt.ParseColumnPrefix | dnestpy/dnt.py:51-55 | A column record does not read past its end. |
| Dnt.ColumnsPrefix | dnestpy/dnt.py:47 | The schema does not read past its end. |
| Dnt.CellsPrefix | dnestpy/dnt.py:59 | A row does not read past its end. |
| Dnt.RowsPrefix | dnestpy/dnt.py:49 | The rows do not read past their end. |
| Dnt.TableIgnoresTrailingBytes | dnestpy/dnt.py:40-49 | Cutting the file anywhere after the last decoded byte gives the same table. |
| Dnt.TailNotConsulted | dnestpy/dnt.py:31 | A table followed by the `\x05THEND` marker decodes as the table alone does. |
| Dnt.OneRowExample | dnestpy/dnt.py:40-59 | A one-column, one-row file decodes to the columns `id` and `X` (the leading `_` dropped) and the row (7, 42), and uses the whole file. |
| Pak.NulIndex | dnestpy/pak.py:19 | The index of the first NUL is at most the field's length. |
| Pak.BeforeNul | dnestpy/pak.py:19 | `partition(b'\x00')[0]` is a prefix of the field. |
| Pak.BeforeNulPrefix | dnestpy/pak.py:19 | `partition(b'\x00')[0]` returns a NUL-free prefix of the field that stops at the first NUL, or the whole field when there is none. |
| Pak.BeforeNulStops | dnestpy/pak.py:19 | With the first NUL at `n`, the name is the first `n` bytes. |
| Pak.Split | dnestpy/pak.py:21 | `split('\\')` always yields at least one piece. |
| Pak.JoinSplit | dnestpy/pak.py:21 | `split('\\')` yields pieces free of backslashes that join back to the input. |
| Pak.SplitJoin | dnestpy/pak.py:21 | Splitting the join of separator-free segments gives the segments back. |
| Pak.SplitPlain | dnestpy/pak.py:21 | A piece without a separator splits to itself. |
| Pak.SplitAfter | dnestpy/pak.py:21 | A separator-free piece followed by the separator is split off first. |
| Pak.Path | dnestpy/pak.py:18-21 | An entry's path has at least one segment. |
| Pak.DecodeEntry | dnestpy/pak.py:16-28 | A decoded record ends exactly 316 bytes after it starts, within the file. |
| Pak.EntryLayout | dnestpy/pak.py:18-26 | A decoded record's name is its 256-byte path field cut at the first NUL. Its zsize, size, zsize1, offset and unk3 are the u32 values at record offsets 256, 260, 264, 268 and 272. |
| Pak.ReservedRead | dnestpy/pak.py:27-28 | The reserved-bytes comparison holds exactly when 40 bytes remain and all are zero. |
| Pak.EntryDecodes | dnestpy/pak.py:18-28 | A record decodes exactly when its name decodes and the 40 reserved bytes are present and zero. An undecodable name fails first, a record cut short before its reserved bytes is truncated, and short or nonzero reserved bytes are a corrupt listing. |
| Pak.PastEndTruncated | dnestpy/pak.py:18-22 | With a codec that decodes the empty string, a record starting at or past the end of the archive fails as a truncation: its path field reads empty, and the first `<I` finds no bytes. |
| Pak.EntriesAt | dnestpy/pak.py:81 | `[PAKFile(buff) for _ in range(num_files)]`: a decoded run of `k` records holds exactly `k` entries. |
| Pak.Insert | dnestpy/pak.py:81-82 | Inserting adds exactly one entry: length one more, multiset plus that entry. |
| Pak.InsertAbove | dnestpy/pak.py:81-82 | Inserting keeps a lower bound on the offsets. |
| Pak.InsertSorted | dnestpy/pak.py:81-82 | Inserting into a sorted list keeps it sorted by offset. |
| Pak.SortByOffset | dnestpy/pak.py:81-82 | The sort has the same length, is a permutation, and is sorted ascending by offset. |
| Pak.InsertKeepsOrder | dnestpy/pak.py:81-82 | Inserting places an entry before every entry already there with the same offset. |
| Pak.SortIsStable | dnestpy/pak.py:81-82 | For every offset, the entries with that offset appear in the same order before and after sorting. |
| Pak.FileCount | dnestpy/pak.py:77 | `num_files` is the little-endian u32 at 0x104. |
| Pak.DirectoryOffset | dnestpy/pak.py:78 | `info_offset` is the little-endian u32 at 0x108. |
| Pak.DecodeDirectory | dnestpy/pak.py:68-82 | A missing or different id string, or a missing or different marker at 0x100, fails as not an archive. On success there are exactly `num_files` entries, sorted by offset. |
| Pak.EntriesSpan | dnestpy/pak.py:81 | `k` records read back to back take exactly 316·k bytes. |
| Pak.DirectoryIsSortedRecords | dnestpy/pak.py:77-82 | A decoded directory is the records at the directory offset, sorted stably by offset. It has `num_files` entries, is a permutation of directory order, is sorted, and keeps directory order among equal offsets. |
| Pak.DirectoryRecord | dnestpy/pak.py:77-81 | Entry `i` in directory order is the record decoded at `info_offset + 316·i`, which ends at `info_offset + 316·(i+1)`. |
| Pak.EntryFails | dnestpy/pak.py:81 | The first record that fails gives its error to any longer run of records. |
| Pak.BadRecordFailsDirectory | dnestpy/pak.py:27-28 | A record that fails to decode (for example, nonzero reserved bytes) fails the whole directory with its error. |
| Pak.DirectoryFails | dnestpy/pak.py:77-81 | Records that do not decode fail the whole directory with their error. |
| Pak.EntriesFrom | dnestpy/pak.py:79-81 | The records depend only on the archive length and its bytes from the directory on. |
| Pak.EntryFrom | dnestpy/pak.py:16-28 | One record depends only on the archive length and its bytes from the record on. |
| Pak.PaddingNotExamined | dnestpy/pak.py:71-75 | Bytes 32 to 0xFF are never examined: archives that differ only there decode alike, as long as the directory lies after them. |
| Pak.CompressedSpan | dnestpy/pak.py:44-45 | The bytes handed to decompression are `data[offset .. offset + zsize)`, clamped at the end of the file, and empty past it. |
| Pak.Extraction | dnestpy/pak.py:40-45 | Extraction succeeds exactly when the compressed span inflates, and otherwise fails with the inflate error. The content is the inflated span, and the target is the root followed by the entry's backslash-separated segments. |
| Pak.ExampleDecodes | dnestpy/pak.py:16-28 | A 316-byte record with the path field `a\b\c.txt` then NULs, and zero u32 and reserved bytes, decodes whenever its name does. It ends at byte 316 and keeps the name. |
| Pak.PathExample | dnestpy/pak.py:18-21 | That record decodes to the path a / b / c.txt, and extracting it targets root / a / b / c.txt. |
| Pak.ReadU32 | dnestpy/pak.py:22 | `struct.unpack('<I', buff.read(4))[0]` on the shared cursor yields UnpackU32's value, and the cursor moves as the read does. |
| Pak.ReadEntry | dnestpy/pak.py:16-28 | `PAKFile.__init__`, read field by field from the shared cursor, yields exactly DecodeEntry's entry or error. On success the cursor lands 316 bytes on. |
| Pak.ReadEntries | dnestpy/pak.py:81 | `num_files` records read one after another yield exactly the run of records, with the first failing record's error. The cursor ends just past the last record. |
| Pak.Archive.constructor | dnestpy/pak.py:54-60 | A fresh archive has its file opened at offset 0 and no entries. |
| Pak.Archive.ReadFilelist | dnestpy/pak.py:68-82 | `read_filelist`, run on the freshly opened handle, succeeds exactly when DecodeDirectory does, and then sets `files` to its entries. On failure it raises DecodeDirectory's error and leaves `files` unchanged. |
| Pak.Archive.Extract | dnestpy/pak.py:33-47 | `extract` hands exactly the compressed span of the entry to decompression, whatever the cursor was before. The target is root / the entry's path. The cursor ends after the span. |

## Left out

- The EUC-KR codec is not part of this model. Decoding is a caller-supplied function (`Codec`) whose `None` stands for `UnicodeDecodeError`. DNT names and text are the codec's output.
- Pak.EntryDecodes: `Codec` is not required to decode the empty byte string to the empty string, as EUC-KR does. With a codec that rejects it, a record wholly past the end of the archive fails as undecodable, where the source raises `struct.error`. Pak.PastEndTruncated states the source's outcome for a codec that decodes the empty string. The same holds for an empty DNT varchar.
- PAK paths are kept as the raw bytes of the name, split on 0x5C. The source splits the decoded text. This is the same split only because byte 0x5C never occurs inside a two-byte EUC-KR character. The model does not state that property of the codec.
- `pathlib.Path` normalisation, such as collapsing empty or `.` segments, is not modelled. A path is the list of split segments, and joining under a root is concatenation.
- Pak.Archive.Extract and Pak.Extraction: the target always starts with `root`. On POSIX, pathlib also treats a `/` inside a decoded segment as a separator, and a segment that starts with `/` makes the path absolute. That drops the root and every earlier segment: a path field `/etc/x` followed by NULs makes the source write to `/etc/x`. The model does not capture this escape from the destination directory.
- `zlib.decompress` is not part of this model. It is a caller-supplied function (`Inflate`) whose `None` stands for `zlib.error`.
- Filesystem effects are left out: the directory creation and the output file writing of `extract`, and opening a file by path. A file is its contents as a byte sequence.
- Python's `struct` float format is left out. A float cell keeps its raw 32-bit little-endian pattern, with no IEEE-754 interpretation.
- The `namedtuple` row type is left out. This includes its checks on field names, such as a duplicate name or a name that is not an identifier. A row is a sequence of cells.
- `logging` calls, `__repr__`, `__exit__` and `close` are diagnostics and resource handling and are left out.
- The asserts are modelled as enabled. Under `python -O` the header, id string, marker and reserved-byte checks would be skipped.
- Pak.Archive.ReadFilelist: requires the cursor at offset 0, which is where the file is after `__enter__` opens it. The source reads the id string from wherever the cursor is.
- Dnt.ParseCell, Dnt.ParseColumn and Dnt.ParseVarchar: their own contracts state only the result's type and cursor bounds. The full layout of each is stated by Dnt.CellLayout, Dnt.ColumnLayout and Dnt.VarcharLayout.
