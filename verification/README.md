# simpleDB storage core in Dafny

simpleDB is a single-table record store driven by a command loop (`main.c`).
Rows have a fixed schema: a 32-bit `id`, a 32-byte `username` and a 255-byte
`email`. Each row is serialized into a 291-byte block (`ROW_SIZE`). Blocks are
packed 14 to a 4096-byte page (`ROWS_PER_PAGE`). A pager caches up to 100 pages
(`TABLE_MAX_PAGES`), so the table holds at most 1400 rows (`TABLE_MAX_ROWS`).
Pages are loaded lazily from a backing file. `insert` appends one row and
`select` scans the rows in order.

This project models that storage core as pure functions over immutable values:

- `Bytes`: the byte, `uint32` and `int32` machine types, `Option`, and the
  4-byte encoding of the id.
- `Layout`: the schema constants, and the arithmetic that maps a row index to
  a page and an offset inside it.
- `RowCodec`: the `Row` record, `serialize_row` and `deserialize_row`.
- `Pager`: the page cache, `pager_open` and `get_page`.
- `Table`: `db_open`, `row_slot`, `execute_insert` and `execute_select`,
  plus the end-to-end property "n inserts, then select".
- `Prepare`: `prepare_insert`, which validates insert arguments.

Modelling choices:

- A page is a `seq<byte>` of length `PAGE_SIZE`. The cache is a length-100
  sequence of `Option<Page>`.
- `View(pager, p)` is the content page `p` has as seen through the cache: the
  resident page, or the page a cache miss would produce. Every row property
  is stated through `View`, so it does not depend on which pages happen to
  be resident.
- The backing file is an immutable byte sequence. The pager records its
  length in a 32-bit field, so the length is reduced modulo 2^32, as the
  source's assignment does.
- A page that is freshly allocated on a cache miss is modelled as zero-filled.
  The rows of an opened table are read wholly from the file's own bytes
  (`Table.OpenedRowReadsFile`), so none of them comes from that fill.
- The id is stored little-endian. The source copies the integer in native
  byte order; any fixed injective 4-byte encoding has the same properties.
- Text fields are raw fixed-width bytes. `prepare_insert` pads an accepted
  token with zeros to its field's width. NUL termination is not modelled.
- `get_page` exits the process on a bad page number. Here `GetPage` returns
  `None` instead, and `ExecuteSelect` reports `PageOutOfRange`.
- `db_open` counts rows with the corrected, paged count (see Findings): the
  rows whose 291-byte slots the file holds in the page layout.
- `main` builds its table with `new_table()`, which is not defined in
  `main.c`. The model offers `EmptyTable()` and `DbOpen(file)` as initial
  states.

Behaviour of the code that the model keeps:

- Insert reports a full table whenever `num_rows >= TABLE_MAX_ROWS`. That
  includes tables opened past capacity.
- `prepare_insert` rejects oversized tokens; the codec copies fixed-width
  fields and checks nothing.
- Nothing is ever written back to the file.

## Model

| member | source | states |
|---|---|---|
| Bytes.WordRoundTrip | main.c:216-222 | the 4-byte id encoding is a bijection: decoding an encoded id returns it, and every 4-byte block re-encodes to itself |
| Bytes.EncodeWord | main.c:216 | the 4 bytes written for the id are its little-endian digits: they decode to the id |
| Bytes.DecodeWord | main.c:222 | the id read from a 4-byte block is the one word whose encoding is that block |
| Bytes.DecodeEncodeLE | main.c:216-222 | little-endian decoding inverts encoding for every value that fits in the given number of bytes |
| Bytes.EncodeDecodeLE | main.c:216-222 | re-encoding a decoded byte block gives back the block |
| Layout.FieldsTileRow | main.c:45-52 | the id, username and email ranges are [0,4), [4,36) and [36,291): back to back, pairwise disjoint, together exactly ROW_SIZE = 291 bytes |
| Layout.Capacities | main.c:54-58 | ROWS_PER_PAGE is 14, the most whole rows a 4096-byte page holds, and TABLE_MAX_ROWS is 1400 |
| Layout.SlotPlacement | main.c:256-261 | row r sits in page r/14 at offset (r%14)*291; the slot ends within the page; the page number is below 100 exactly when r < 1400; page and offset give back r |
| Layout.SlotsDisjoint | main.c:256-261 | two distinct rows never share a byte: they are on different pages or their 291-byte ranges do not intersect |
| Layout.FileOffsetBounds | main.c:243-261 | a row's byte position in the file, page start plus in-page offset, is at least 291 bytes per earlier row, and the next row starts no earlier than this row ends |
| RowCodec.Encode | main.c:215-219 | the encoded block has ROW_SIZE bytes, with the id, username and email at their schema offsets |
| RowCodec.Decode | main.c:221-225 | decoding any ROW_SIZE block yields a row with fields of their full fixed widths |
| RowCodec.DeserializeRow | main.c:221-225 | the row read from a buffer at an offset is the one whose encoding is exactly the ROW_SIZE bytes found there |
| RowCodec.CodecRoundTrip | main.c:215-225 | decode(encode(r)) == r for every well-formed row, and encode(decode(b)) == b for every block |
| RowCodec.SerializeRow | main.c:215-219 | serializing into a buffer writes the encoded row at the offset and changes no byte outside [at, at+ROW_SIZE) |
| RowCodec.SerializeDeserialize | main.c:215-225 | a row serialized at an offset deserializes back from that offset |
| RowCodec.SerializeFrame | main.c:215-219 | serializing into one slot leaves the row read from any disjoint slot unchanged |
| Pager.PagerOpen | main.c:93-109 | opening keeps the file, records its length reduced modulo 2^32 (so never more than the file has), and leaves all 100 page slots empty |
| Pager.FilePages | main.c:236-241 | the page count of the recorded length is the number of 4096-byte pages that cover it, counting a partial last page |
| Pager.ReadPage | main.c:243-250 | a loaded page holds the file's bytes from p*4096 where the file has them, and zeros past the end of a short read |
| Pager.MissPage | main.c:233-250 | on a cache miss, byte i of page p is the file's byte p*4096+i when the load check `p <= num_pages` passes and the file has that byte, and zero otherwise |
| Pager.GetPage | main.c:227-254 | fetching fails exactly for page numbers of 100 or more; otherwise it returns the page's content, makes it resident, keeps every other slot and the file as they were, keeps every page's content as seen through the cache, and returns a cached page without change |
| Pager.GetPageCaches | main.c:233-253 | after a fetch the page is resident, and a second fetch returns the same page and the same cache |
| Pager.WritePage | main.c:268-269 | writing a page buffer through its slot changes the content of that page only |
| Pager.LoadPastEndReadsNothing | main.c:236-250 | the load check `page_num <= num_pages` reads one page past the recorded end, but that read gets no bytes, so the page equals a fresh one |
| Pager.PageGuardAsWritten | main.c:228-231 | the page check as written admits exactly the pages the corrected check admits, plus page 100 |
| Pager.PageGuardAsWrittenAdmitsPastEnd | main.c:228-231 | the page-number check as written admits page 100, which is outside the 100-slot page array; the corrected fetch refuses it |
| Table.EmptyTable | main.c:301 | the initial table is valid and holds no rows |
| Table.RowCountAsWritten | main.c:114 | the count as written is the largest n with n*291 bytes within the file length, as if rows were packed with no gap between pages |
| Table.PagedRowCount | main.c:114 | the corrected count n is exact for the page layout: every row below n ends within the file, and row n does not |
| Table.RowCountAsWrittenOvercounts | main.c:114 | the count as written is never below the paged count; on a file of exactly 14 pages it gives 197 rows where the file holds 196, and row 196 starts at or past the end |
| Table.DbOpen | main.c:111-118 | opening keeps the file, loads no page, and counts exactly the rows whose slots lie within the recorded length; a file of at most 100 pages gives a valid table |
| Table.OpenedRowReadsFile | main.c:233-250 | each row of an opened table lies within the file and is the decoding of the file's 291 bytes at that row's page and offset |
| Table.RowSlot | main.c:256-262 | resolving a slot succeeds exactly for rows below 1400; the slot is page r/14 at offset (r%14)*291, lies within a resident page, its bytes decode to the stored row, and no page's content changes |
| Table.ExecuteInsert | main.c:264-272 | at 1400 rows or more the result is TABLE_FULL and the table is unchanged; otherwise the result is SUCCESS, the row count grows by exactly one and stays at most 1400 |
| Table.InsertStoresRow | main.c:268-270 | after a successful insert, the row at the old row count decodes to the inserted row |
| Table.InsertKeepsRow | main.c:268-269 | a successful insert leaves every earlier row decoding as before |
| Table.InsertAppends | main.c:268-271 | a successful insert turns the table's rows into the old rows followed by exactly the inserted row |
| Table.ExecuteSelect | main.c:274-285 | on a table of at most 1400 rows, select returns rows 0..num_rows-1 in order and changes neither the row count nor any stored row; on a larger table it stops at page 100 |
| Table.InsertAllWhenFull | main.c:265-267 | once the table is full, any further series of inserts leaves it unchanged |
| Table.InsertAllRows | main.c:264-272 | a series of inserts leaves the old rows followed by the inserted rows, cut off at 1400 rows |
| Table.InsertThenSelect | main.c:264-285 | from an empty table, at most 1400 inserts followed by a select yield exactly the inserted rows in insertion order |
| Table.OversizedFileReachesPastLastPage | main.c:111-118 | a file of at least 1401 rows' worth of bytes gets a row count past capacity as written, and one longer than 100 pages plus one row also under the paged count; scanning reaches row 1400 on page 100, which the as-written check admits |
| Prepare.Pad | main.c:196-197 | a padded field has exactly the field's width, starts with the token and is zero after it |
| Prepare.PrepareInsert | main.c:170-200 | syntax error exactly when a token is missing; otherwise negative id exactly when id < 0; otherwise string too long exactly when the username exceeds 32 bytes or the email exceeds 255; otherwise success, with a well-formed row holding the id and the tokens |
| Prepare.PreparedRowSurvivesInsert | main.c:195-197 | a prepared row inserted into a table with room is stored with the statement's id, and each text field begins with its token |
| Prepare.StrcpyBytes | main.c:196-197 | a terminated string copy writes the token followed by one NUL byte |
| Prepare.CopyTokensAsWritten | main.c:196-197 | after the two terminated copies as written, the id bytes are untouched, the username field starts with the username and, if it is shorter than 32 bytes, a NUL; the username field's bytes after its NUL are as before; the email field holds the email followed by its NUL; every byte after that NUL is as before |
| Prepare.FullWidthTokensLeaveFieldsUnterminated | main.c:187-197 | the length checks accept a 32-byte username and a 255-byte email; the username's NUL lands on the email's first byte and is overwritten by the email copy, the email's NUL lands in the record's padding byte, and no byte of either field is NUL |

## Findings

| source | as written | input that shows it | evidently intended | confidence | as-written member | corrected member |
|---|---|---|---|---|---|---|
| main.c:228 | `page_num > TABLE_MAX_PAGES` lets `page_num == 100` through to `pages[100]`, one past the array | a table from `db_open` over a file of at least 1401*291 = 407691 bytes, which the row count as written (main.c:114) makes 1401 rows or more, then `select`: row 1400 is on page 100 | refuse `page_num >= TABLE_MAX_PAGES` | not executed; high for the guard, but `main` as shown never calls `db_open` | Table.OversizedFileReachesPastLastPage | Pager.GetPage |
| main.c:114 | `file_length / ROW_SIZE` counts rows as if packed with no gap, but each 4096-byte page holds 14 rows and 22 unused bytes | a file of exactly 14 full pages, 57344 bytes: the count is 197, the layout holds 196, and row 196's slot starts at byte 57344, wholly past the end | count the rows whose slots the page layout places within the file | not executed; high | Table.RowCountAsWrittenOvercounts | Table.DbOpen |
| main.c:187-197 | the length checks accept 32- and 255-byte tokens, and `strcpy` then leaves no NUL inside either field | a 32-byte username and a 255-byte email: the username's NUL on `email[0]` is overwritten by the email copy, and the email's NUL lands in the padding byte at offset 291 of the 292-byte record; both fields stay unterminated, so `print_row`'s `%s` (main.c:128) reads past them | store each token in its fixed-width field and never read it as a terminated string, or reject lengths equal to the width | not executed; high | Prepare.FullWidthTokensLeaveFieldsUnterminated | Prepare.PrepareInsert |

## Left out

- The command loop, `read_input`, `print_prompt`, `print_row` and `do_meta_command`: console I/O and process exit.
- `prepare_statement` and `execute_statement`: keyword matching with `strncmp` and dispatch. `PrepareInsert` takes the tokens already split, with the id already converted by `atoi`.
- `atoi` overflow: undefined behaviour in the source. The id is taken as an `int32`.
- `free_table`, `close_input_buffer` and all `malloc`/`free`: memory management. `free_table`'s loop also stops at the first empty slot and has no bound.
- `pager_open`: `open` is called with `O_RDWR | O_CREAT` in the path position and `filename` is ignored (main.c:94), so no named file is opened; the model takes the file as given.
- `pager_open`'s `open`/`lseek` and `get_page`'s `lseek`/`read` are system calls. The file is modelled as an immutable byte sequence. I/O errors, which make the source exit, are not modelled.
- Writing pages back to the file: the source has no flush, so a round trip through a reopened file is not modelled.
- `new_table`: called by `main` but not defined in `main.c`. `EmptyTable` stands in for it.
- Bytes.EncodeWord: fixes little-endian order; the source copies the id in the machine's native byte order.
- Pager.MissPage: a fresh page is zero-filled. The source leaves uninitialised the bytes that a short read does not fill.
- Table.ExecuteSelect: with the row count as written, a row past the end of the file would be read from the zero fill, where the source reads uninitialised `malloc` memory (main.c:235); `DbOpen` uses the paged count, so no counted row reaches past the file.
