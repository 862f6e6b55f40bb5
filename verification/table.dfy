/** The single append-only table: a row count over the page cache, with the
    insert and select operations. */
module Table {
  import opened Bytes
  import opened Layout
  import opened RowCodec
  import opened Pager

  datatype Table = Table(numRows: nat, pager: Pager)
  {
    predicate Valid()
    {
      pager.Valid() && numRows <= TABLE_MAX_ROWS
    }
  }

  datatype ExecuteResult = ExecuteSuccess | ExecuteTableFull

  datatype InsertOutcome = InsertOutcome(result: ExecuteResult, table: Table)

  /** Select either yields every row, or stops because a row's page is
      refused by the corrected page check (page TABLE_MAX_PAGES or later). */
  datatype SelectOutcome = Selected(table: Table, rows: seq<Row>) | PageOutOfRange(page: nat)

  /** Where a row lives: a page number and a byte offset in that page. */
  datatype Slot = Slot(page: nat, offset: nat)

  /** Row `r` as stored, read through the cache without changing it. */
  function RowAt(pg: Pager, r: nat): (row: Row)
    requires pg.Valid() && r < TABLE_MAX_ROWS
  {
    SlotPlacement(r);
    DeserializeRow(View(pg, PageOf(r)), OffsetOf(r))
  }

  /** The rows a table holds, in index order. */
  function Rows(t: Table): (rs: seq<Row>)
    requires t.Valid()
    ensures |rs| == t.numRows
    ensures forall i :: 0 <= i < |rs| ==> rs[i].WellFormed()
  {
    seq(t.numRows, i requires 0 <= i < t.numRows => RowAt(t.pager, i))
  }

  /** A table over no backing data. */
  function EmptyTable(): (t: Table)
    ensures t.Valid() && Rows(t) == []
  {
    Table(0, PagerOpen([]))
  }

  /** The row count as written: the file length divided by ROW_SIZE,
      rounded down, as if rows were packed with no gap between pages. */
  function RowCountAsWritten(fileLength: nat): (n: nat)
    ensures n * ROW_SIZE <= fileLength < (n + 1) * ROW_SIZE
  {
    fileLength / ROW_SIZE
  }

  /** The number of rows whose slots lie wholly within the first
      `fileLength` bytes of the file, in the page layout that loading uses:
      whole pages of ROWS_PER_PAGE rows, then the whole rows of the last,
      partial page. */
  function PagedRowCount(fileLength: nat): (n: nat)
    ensures forall r :: 0 <= r < n ==> FileOffsetOf(r) + ROW_SIZE <= fileLength
    ensures fileLength < FileOffsetOf(n) + ROW_SIZE
  {
    var q, rest := fileLength / PAGE_SIZE, fileLength % PAGE_SIZE;
    var m := if rest / ROW_SIZE < ROWS_PER_PAGE then rest / ROW_SIZE else ROWS_PER_PAGE;
    Capacities();
    assert forall r :: 0 <= r < q * 14 + m ==> FileOffsetOf(r) + ROW_SIZE <= fileLength by {
      forall r | 0 <= r < q * 14 + m
        ensures FileOffsetOf(r) + ROW_SIZE <= fileLength
      {
        if r < q * 14 {
          assert PageOf(r) <= q - 1;
          assert OffsetOf(r) <= 13 * 291;
        } else {
          assert PageOf(r) == q && OffsetOf(r) == (r - q * 14) * 291;
        }
      }
    }
    var n := q * 14 + m;
    assert fileLength < FileOffsetOf(n) + ROW_SIZE by {
      if m == 14 {
        assert PageOf(n) == q + 1 && OffsetOf(n) == 0;
      } else {
        assert PageOf(n) == q && OffsetOf(n) == m * 291;
      }
    }
    n
  }

  /** The as-written count is never below the paged count, and exceeds it
      once fourteen whole pages are present: a file of exactly fourteen
      pages opens with one row more than it holds, and that row's slot lies
      wholly past the end of the file. */
  lemma RowCountAsWrittenOvercounts(fileLength: nat)
    ensures PagedRowCount(fileLength) <= RowCountAsWritten(fileLength)
    ensures fileLength == 14 * PAGE_SIZE ==>
              && RowCountAsWritten(fileLength) == 197
              && PagedRowCount(fileLength) == 196
              && FileOffsetOf(196) >= fileLength
  {
    var n, w := PagedRowCount(fileLength), RowCountAsWritten(fileLength);
    if n > 0 {
      FileOffsetBounds(n - 1);
      assert n * ROW_SIZE <= fileLength < (w + 1) * ROW_SIZE;
      assert n < w + 1;
    }
    if fileLength == 14 * PAGE_SIZE {
      assert w == 57344 / 291 == 197;
      assert n == 14 * ROWS_PER_PAGE == 196;
      assert FileOffsetOf(196) == 14 * PAGE_SIZE;
    }
  }

  /** Opens a table over `file` with no page loaded. The row count is the
      corrected, paged one: exactly the rows whose slots the file holds. */
  function DbOpen(file: seq<byte>): (t: Table)
    ensures t.pager.Valid() && t.pager.file == file
    ensures forall p :: 0 <= p < TABLE_MAX_PAGES ==> t.pager.pages[p].None?
    ensures t.pager.fileLength == |file| % UINT32_LIMIT
    ensures forall r :: 0 <= r < t.numRows ==> FileOffsetOf(r) + ROW_SIZE <= t.pager.fileLength
    ensures t.pager.fileLength < FileOffsetOf(t.numRows) + ROW_SIZE
    ensures |file| <= TABLE_MAX_PAGES * PAGE_SIZE ==> t.Valid()
  {
    var pg := PagerOpen(file);
    var n := PagedRowCount(pg.fileLength);
    Capacities();
    assert pg.fileLength <= TABLE_MAX_PAGES * PAGE_SIZE ==> n <= TABLE_MAX_ROWS;
    Table(n, pg)
  }

  /** Every row of a freshly opened table is read from the file's own bytes
      at that row's place in the page layout; none comes from the fill of a
      short read. */
  lemma OpenedRowReadsFile(file: seq<byte>, r: nat)
    requires r < DbOpen(file).numRows && r < TABLE_MAX_ROWS
    ensures FileOffsetOf(r) + ROW_SIZE <= |file|
    ensures RowAt(DbOpen(file).pager, r) == Decode(file[FileOffsetOf(r)..FileOffsetOf(r) + ROW_SIZE])
  {
    var t := DbOpen(file);
    var p, off := PageOf(r), OffsetOf(r);
    var start := FileOffsetOf(r);
    SlotPlacement(r);
    assert start + ROW_SIZE <= t.pager.fileLength <= |file|;
    assert p <= FilePages(t.pager.fileLength) by {
      assert p * PAGE_SIZE < t.pager.fileLength;
    }
    var page := View(t.pager, p);
    assert page == MissPage(t.pager, p);
    var slot, stored := page[off..off + ROW_SIZE], file[start..start + ROW_SIZE];
    forall i | 0 <= i < ROW_SIZE
      ensures slot[i] == stored[i]
    {
      assert p * PAGE_SIZE + (off + i) == start + i;
    }
    assert slot == stored;
  }

  /** Resolves row `r` to its slot, materialising the page. Fails exactly
      when the row's page is past the page array. */
  function RowSlot(t: Table, r: nat): (s: Option<(Table, Slot)>)
    requires t.pager.Valid()
    ensures s.Some? <==> r < TABLE_MAX_ROWS
    ensures s.Some? ==> var (t', slot) := s.value;
              && t'.numRows == t.numRows && t'.pager.Valid()
              && slot == Slot(PageOf(r), OffsetOf(r))
              && slot.page < TABLE_MAX_PAGES && slot.offset + ROW_SIZE <= PAGE_SIZE
              && t'.pager.pages[slot.page].Some?
              && DeserializeRow(t'.pager.pages[slot.page].value, slot.offset) == RowAt(t.pager, r)
              && (forall q :: 0 <= q < TABLE_MAX_PAGES ==> View(t'.pager, q) == View(t.pager, q))
  {
    SlotPlacement(r);
    match GetPage(t.pager, PageOf(r))
    case None => None
    case Some((pg, _)) => Some((t.(pager := pg), Slot(PageOf(r), OffsetOf(r))))
  }

  /** Appends `row` at index numRows unless the table is at capacity. */
  function ExecuteInsert(row: Row, t: Table): (o: InsertOutcome)
    requires t.pager.Valid() && row.WellFormed()
    ensures t.numRows >= TABLE_MAX_ROWS ==> o == InsertOutcome(ExecuteTableFull, t)
    ensures t.numRows < TABLE_MAX_ROWS ==>
              && o.result == ExecuteSuccess
              && o.table.numRows == t.numRows + 1
              && o.table.Valid()
  {
    if t.numRows >= TABLE_MAX_ROWS then InsertOutcome(ExecuteTableFull, t)
    else
      var (t1, slot) := RowSlot(t, t.numRows).value;
      var page := SerializeRow(row, t1.pager.pages[slot.page].value, slot.offset);
      InsertOutcome(ExecuteSuccess, Table(t.numRows + 1, WritePage(t1.pager, slot.page, page)))
  }

  /** A successful insert stores a row that decodes, at the old row count,
      to the inserted row. */
  lemma InsertStoresRow(row: Row, t: Table)
    requires t.Valid() && row.WellFormed() && t.numRows < TABLE_MAX_ROWS
    ensures RowAt(ExecuteInsert(row, t).table.pager, t.numRows) == row
  {
    var n := t.numRows;
    var (t1, slot) := RowSlot(t, n).value;
    SlotPlacement(n);
    SerializeDeserialize(row, t1.pager.pages[slot.page].value, OffsetOf(n));
  }

  /** A successful insert leaves every earlier row decoding as before. */
  lemma InsertKeepsRow(row: Row, t: Table, i: nat)
    requires t.Valid() && row.WellFormed() && t.numRows < TABLE_MAX_ROWS && i < t.numRows
    ensures RowAt(ExecuteInsert(row, t).table.pager, i) == RowAt(t.pager, i)
  {
    var n := t.numRows;
    var (t1, slot) := RowSlot(t, n).value;
    SlotPlacement(n);
    SlotPlacement(i);
    if PageOf(i) == PageOf(n) {
      SlotsDisjoint(i, n);
      SerializeFrame(row, t1.pager.pages[slot.page].value, OffsetOf(n), OffsetOf(i));
    }
  }

  /** A successful insert appends exactly the inserted row to the table's rows. */
  lemma InsertAppends(row: Row, t: Table)
    requires t.Valid() && row.WellFormed() && t.numRows < TABLE_MAX_ROWS
    ensures Rows(ExecuteInsert(row, t).table) == Rows(t) + [row]
  {
    var t' := ExecuteInsert(row, t).table;
    forall i | 0 <= i < t.numRows
      ensures RowAt(t'.pager, i) == RowAt(t.pager, i)
    {
      InsertKeepsRow(row, t, i);
    }
    InsertStoresRow(row, t);
  }

  /** Reading the rows does not depend on which pages are resident. */
  lemma SameViewSameRows(a: Pager, b: Pager, n: nat)
    requires a.Valid() && b.Valid() && n <= TABLE_MAX_ROWS
    requires forall q :: 0 <= q < TABLE_MAX_PAGES ==> View(a, q) == View(b, q)
    ensures Rows(Table(n, a)) == Rows(Table(n, b))
  {
    forall i | 0 <= i < n
      ensures RowAt(a, i) == RowAt(b, i)
    {
      SlotPlacement(i);
    }
  }

  /** Decodes rows 0 .. numRows-1 in order, resolving each slot. */
  method ExecuteSelect(t: Table) returns (o: SelectOutcome)
    requires t.pager.Valid()
    ensures t.numRows <= TABLE_MAX_ROWS ==>
              && o.Selected?
              && o.rows == Rows(t)
              && o.table.numRows == t.numRows
              && o.table.Valid()
              && Rows(o.table) == Rows(t)
    ensures t.numRows > TABLE_MAX_ROWS ==> o == PageOutOfRange(TABLE_MAX_PAGES)
  {
    var cur := t;
    var rows: seq<Row> := [];
    var i := 0;
    while i < t.numRows
      invariant i <= t.numRows && i <= TABLE_MAX_ROWS
      invariant cur.numRows == t.numRows && cur.pager.Valid()
      invariant forall q :: 0 <= q < TABLE_MAX_PAGES ==> View(cur.pager, q) == View(t.pager, q)
      invariant |rows| == i
      invariant forall k :: 0 <= k < i ==> rows[k] == RowAt(t.pager, k)
    {
      var s := RowSlot(cur, i);
      if s.None? {
        SlotPlacement(i);
        return PageOutOfRange(PageOf(i));
      }
      var (next, slot) := s.value;
      rows := rows + [DeserializeRow(next.pager.pages[slot.page].value, slot.offset)];
      cur := next;
      i := i + 1;
    }
    SameViewSameRows(cur.pager, t.pager, t.numRows);
    o := Selected(cur, rows);
  }

  /** Inserts `rs` one after another, as a series of insert statements would. */
  function InsertAll(t: Table, rs: seq<Row>): (t': Table)
    requires t.pager.Valid()
    requires forall i :: 0 <= i < |rs| ==> rs[i].WellFormed()
    ensures t'.pager.Valid()
    decreases |rs|
  {
    if |rs| == 0 then t
    else InsertAll(ExecuteInsert(rs[0], t).table, rs[1..])
  }

  /** Once the table is full, further inserts change nothing. */
  lemma {:induction false} InsertAllWhenFull(t: Table, rs: seq<Row>)
    requires t.pager.Valid() && t.numRows >= TABLE_MAX_ROWS
    requires forall i :: 0 <= i < |rs| ==> rs[i].WellFormed()
    ensures InsertAll(t, rs) == t
    decreases |rs|
  {
    if |rs| > 0 {
      InsertAllWhenFull(t, rs[1..]);
    }
  }

  /** After a series of inserts the table holds the old rows followed by the
      inserted ones, cut off at the table's capacity. */
  lemma {:induction false} InsertAllRows(t: Table, rs: seq<Row>)
    requires t.Valid()
    requires forall i :: 0 <= i < |rs| ==> rs[i].WellFormed()
    ensures InsertAll(t, rs).Valid()
    ensures Rows(InsertAll(t, rs)) == (Rows(t) + rs)[..Capped(t.numRows + |rs|)]
    decreases |rs|
  {
    if |rs| == 0 {
      assert (Rows(t) + rs)[..Capped(t.numRows)] == Rows(t);
    } else if t.numRows == TABLE_MAX_ROWS {
      InsertAllWhenFull(t, rs);
      PrefixOfAppend(Rows(t), rs);
    } else {
      var t1 := ExecuteInsert(rs[0], t).table;
      InsertAppends(rs[0], t);
      InsertAllRows(t1, rs[1..]);
      ShiftHead(Rows(t), rs);
    }
  }

  lemma PrefixOfAppend<T>(a: seq<T>, b: seq<T>)
    ensures (a + b)[..|a|] == a
  {
  }

  lemma ShiftHead<T>(a: seq<T>, b: seq<T>)
    requires |b| > 0
    ensures (a + [b[0]]) + b[1..] == a + b
  {
  }

  function Capped(n: nat): nat
  {
    if n <= TABLE_MAX_ROWS then n else TABLE_MAX_ROWS
  }

  /** From an empty table, up to TABLE_MAX_ROWS inserts followed by a select
      yield exactly the inserted rows in insertion order. */
  method InsertThenSelect(rs: seq<Row>) returns (rows: seq<Row>)
    requires |rs| <= TABLE_MAX_ROWS
    requires forall i :: 0 <= i < |rs| ==> rs[i].WellFormed()
    ensures rows == rs
  {
    var t := EmptyTable();
    var i := 0;
    while i < |rs|
      invariant i <= |rs|
      invariant t.Valid() && t.numRows == i
      invariant Rows(t) == rs[..i]
    {
      InsertAppends(rs[i], t);
      var o := ExecuteInsert(rs[i], t);
      t := o.table;
      i := i + 1;
      assert rs[..i] == rs[..i - 1] + [rs[i - 1]];
    }
    var out := ExecuteSelect(t);
    rows := out.rows;
    assert rs[..i] == rs;
  }

  /** A file of at least TABLE_MAX_ROWS + 1 rows' worth of bytes gets a row
      count past capacity from the count as written, and one longer than
      TABLE_MAX_PAGES pages plus a row gets one from the paged count too.
      Scanning such a table reaches row TABLE_MAX_ROWS, whose page is
      TABLE_MAX_PAGES: the as-written page check lets it through although
      the page array has no such slot. */
  lemma OversizedFileReachesPastLastPage(file: seq<byte>)
    requires TABLE_MAX_ROWS * ROW_SIZE + ROW_SIZE <= |file| < UINT32_LIMIT
    ensures RowCountAsWritten(|file|) > TABLE_MAX_ROWS
    ensures TABLE_MAX_PAGES * PAGE_SIZE + ROW_SIZE <= |file| ==> DbOpen(file).numRows > TABLE_MAX_ROWS
    ensures PageOf(TABLE_MAX_ROWS) == TABLE_MAX_PAGES
    ensures PageGuardAsWritten(PageOf(TABLE_MAX_ROWS))
    ensures PageOf(TABLE_MAX_ROWS) >= |DbOpen(file).pager.pages|
  {
    Capacities();
    RowCountAsWrittenOvercounts(|file|);
  }
}
