/** The schema constants of the row store and the arithmetic that places a
    row index inside a page. */
module Layout {

  /** Declared capacities of the two text columns. */
  const COL_USERNAME_SIZE: nat := 32
  const COL_EMAIL_SIZE: nat := 255

  /** Field widths are the sizes of the row record's members. */
  const ID_SIZE: nat := 4
  const USERNAME_SIZE: nat := COL_USERNAME_SIZE
  const EMAIL_SIZE: nat := COL_EMAIL_SIZE

  const ID_OFFSET: nat := 0
  const USERNAME_OFFSET: nat := ID_OFFSET + ID_SIZE
  const EMAIL_OFFSET: nat := USERNAME_OFFSET + USERNAME_SIZE
  const ROW_SIZE: nat := ID_SIZE + USERNAME_SIZE + EMAIL_SIZE

  const PAGE_SIZE: nat := 4096
  const TABLE_MAX_PAGES: nat := 100
  const ROWS_PER_PAGE: nat := PAGE_SIZE / ROW_SIZE
  const TABLE_MAX_ROWS: nat := ROWS_PER_PAGE * TABLE_MAX_PAGES

  /** The three field ranges [0,4), [4,36) and [36,291) sit back to back:
      they are pairwise disjoint and their union is exactly [0, ROW_SIZE). */
  lemma FieldsTileRow()
    ensures ID_OFFSET == 0 && ID_OFFSET + ID_SIZE == USERNAME_OFFSET
    ensures USERNAME_OFFSET + USERNAME_SIZE == EMAIL_OFFSET
    ensures EMAIL_OFFSET + EMAIL_SIZE == ROW_SIZE
    ensures ID_SIZE > 0 && USERNAME_SIZE > 0 && EMAIL_SIZE > 0
    ensures ROW_SIZE == 291
  {
  }

  lemma Capacities()
    ensures ROWS_PER_PAGE == 14 && TABLE_MAX_ROWS == 1400
    ensures ROWS_PER_PAGE * ROW_SIZE <= PAGE_SIZE < (ROWS_PER_PAGE + 1) * ROW_SIZE
  {
  }

  /** Page that holds row `r`. */
  function PageOf(r: nat): nat
  {
    r / ROWS_PER_PAGE
  }

  /** Byte offset of row `r` inside its page. */
  function OffsetOf(r: nat): nat
  {
    (r % ROWS_PER_PAGE) * ROW_SIZE
  }

  /** A slot lies wholly inside its page, the page exists exactly when the
      row is below the table's capacity, and the slot determines the row. */
  lemma SlotPlacement(r: nat)
    ensures OffsetOf(r) + ROW_SIZE <= PAGE_SIZE
    ensures OffsetOf(r) % ROW_SIZE == 0
    ensures r == PageOf(r) * ROWS_PER_PAGE + OffsetOf(r) / ROW_SIZE
    ensures PageOf(r) < TABLE_MAX_PAGES <==> r < TABLE_MAX_ROWS
  {
  }

  /** Distinct rows occupy non-overlapping byte ranges: either different
      pages, or ranges of ROW_SIZE bytes that do not intersect. */
  lemma SlotsDisjoint(i: nat, j: nat)
    requires i != j
    ensures PageOf(i) != PageOf(j)
            || OffsetOf(i) + ROW_SIZE <= OffsetOf(j)
            || OffsetOf(j) + ROW_SIZE <= OffsetOf(i)
  {
  }

  /** Byte at which row `r` sits in the backing file: its page starts at
      PageOf(r) * PAGE_SIZE, and the row at its offset inside the page. */
  function FileOffsetOf(r: nat): nat
  {
    PageOf(r) * PAGE_SIZE + OffsetOf(r)
  }

  /** Rows are laid out in the file in index order, each no earlier than
      ROW_SIZE bytes per preceding row. */
  lemma FileOffsetBounds(r: nat)
    ensures r * ROW_SIZE <= FileOffsetOf(r)
    ensures FileOffsetOf(r) + ROW_SIZE <= FileOffsetOf(r + 1)
  {
    Capacities();
    var p, k := r / 14, r % 14;
    assert r == 14 * p + k;
    assert r * 291 == p * 4074 + k * 291;
    if k < 13 {
      assert (r + 1) / 14 == p && (r + 1) % 14 == k + 1;
    } else {
      assert (r + 1) / 14 == p + 1 && (r + 1) % 14 == 0;
    }
  }
}
