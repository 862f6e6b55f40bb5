/** The page cache: a fixed array of optional pages, filled lazily from an
    immutable backing file on first access. */
module Pager {
  import opened Bytes
  import opened Layout

  type Page = seq<byte>

  /** `file` is the backing file's content; `fileLength` is its length as the
      pager records it, in a 32-bit field. */
  datatype Pager = Pager(file: seq<byte>, fileLength: nat, pages: seq<Option<Page>>)
  {
    predicate Valid()
    {
      && |pages| == TABLE_MAX_PAGES
      && fileLength < UINT32_LIMIT
      && forall p :: 0 <= p < |pages| && pages[p].Some? ==> |pages[p].value| == PAGE_SIZE
    }
  }

  /** Opening records the file's length, reduced to 32 bits, and starts
      with no page resident. */
  function PagerOpen(file: seq<byte>): (pg: Pager)
    ensures pg.Valid() && pg.file == file
    ensures |file| < UINT32_LIMIT ==> pg.fileLength == |file|
    ensures pg.fileLength == |file| % UINT32_LIMIT && pg.fileLength <= |file|
    ensures forall p :: 0 <= p < TABLE_MAX_PAGES ==> pg.pages[p].None?
  {
    Pager(file, |file| % UINT32_LIMIT, seq(TABLE_MAX_PAGES, _ => None))
  }

  /** Number of pages the recorded length spans, counting a partial last page. */
  function FilePages(fileLength: nat): (n: nat)
    ensures (n - 1) * PAGE_SIZE < fileLength <= n * PAGE_SIZE || (n == 0 && fileLength == 0)
  {
    fileLength / PAGE_SIZE + (if fileLength % PAGE_SIZE != 0 then 1 else 0)
  }

  /** A page-sized buffer filled by reading the file from byte p * PAGE_SIZE;
      a short read leaves the rest of the buffer at zero. */
  function ReadPage(file: seq<byte>, p: nat): (page: Page)
    ensures |page| == PAGE_SIZE
    ensures forall i :: 0 <= i < PAGE_SIZE ==>
              page[i] == if p * PAGE_SIZE + i < |file| then file[p * PAGE_SIZE + i] else 0
  {
    var start := p * PAGE_SIZE;
    if start >= |file| then Zeros(PAGE_SIZE)
    else
      var got := if |file| - start < PAGE_SIZE then |file| - start else PAGE_SIZE;
      file[start..start + got] + Zeros(PAGE_SIZE - got)
  }

  /** The content a cache miss gives page `p`: loaded from the file when the
      recorded length reaches it (the check is `p <= FilePages`), otherwise
      a fresh buffer, modelled as zeros. */
  function MissPage(pg: Pager, p: nat): (page: Page)
    ensures |page| == PAGE_SIZE
    ensures forall i :: 0 <= i < PAGE_SIZE ==>
              page[i] == if p <= FilePages(pg.fileLength) && p * PAGE_SIZE + i < |pg.file|
                         then pg.file[p * PAGE_SIZE + i] else 0
  {
    if p <= FilePages(pg.fileLength) then ReadPage(pg.file, p) else Zeros(PAGE_SIZE)
  }

  /** What page `p` holds as seen through the cache: the resident page, or
      the content a miss would produce. */
  function View(pg: Pager, p: nat): (page: Page)
    requires pg.Valid() && p < TABLE_MAX_PAGES
    ensures |page| == PAGE_SIZE
  {
    match pg.pages[p]
    case Some(resident) => resident
    case None => MissPage(pg, p)
  }

  /** Fetches page `p`. The page check is the corrected one: it refuses
      every index at or past TABLE_MAX_PAGES, page TABLE_MAX_PAGES included.
      Otherwise a miss materialises the page and caches it, and a hit
      returns the cached page without touching anything. */
  function GetPage(pg: Pager, p: nat): (r: Option<(Pager, Page)>)
    requires pg.Valid()
    ensures r.Some? <==> p < TABLE_MAX_PAGES
    ensures r.Some? ==> r.value.0.Valid()
    ensures r.Some? ==> r.value.1 == View(pg, p) && r.value.0.pages[p] == Some(r.value.1)
    ensures r.Some? ==> r.value.0.file == pg.file && r.value.0.fileLength == pg.fileLength
    ensures r.Some? ==> forall q :: 0 <= q < TABLE_MAX_PAGES && q != p ==> r.value.0.pages[q] == pg.pages[q]
    ensures r.Some? && pg.pages[p].Some? ==> r.value.0 == pg
    ensures r.Some? ==> forall q :: 0 <= q < TABLE_MAX_PAGES ==> View(r.value.0, q) == View(pg, q)
  {
    if p >= TABLE_MAX_PAGES then None
    else
      match pg.pages[p]
      case Some(page) => Some((pg, page))
      case None =>
        var page := MissPage(pg, p);
        Some((pg.(pages := pg.pages[p := Some(page)]), page))
  }

  /** After a fetch the page is resident, and a second fetch returns the same
      page and the same cache. */
  lemma GetPageCaches(pg: Pager, p: nat)
    requires pg.Valid() && p < TABLE_MAX_PAGES
    ensures var (pg1, page1) := GetPage(pg, p).value;
            pg1.pages[p].Some? && GetPage(pg1, p) == Some((pg1, page1))
  {
  }

  /** Writes a page buffer back through the cache slot `p`. */
  function WritePage(pg: Pager, p: nat, page: Page): (pg': Pager)
    requires pg.Valid() && p < TABLE_MAX_PAGES && |page| == PAGE_SIZE
    ensures pg'.Valid()
    ensures forall q :: 0 <= q < TABLE_MAX_PAGES ==> View(pg', q) == if q == p then page else View(pg, q)
  {
    pg.(pages := pg.pages[p := Some(page)])
  }

  /** The load check admits p == FilePages, one page past the recorded end.
      When the recorded length is the file's true length, that read returns
      no bytes, so the page is the same as a fresh one. */
  lemma LoadPastEndReadsNothing(pg: Pager, p: nat)
    requires pg.fileLength == |pg.file|
    ensures MissPage(pg, p) == if p < FilePages(pg.fileLength) then ReadPage(pg.file, p) else Zeros(PAGE_SIZE)
  {
  }

  /** The page-number check as written: it lets through every page the
      corrected check admits, and page TABLE_MAX_PAGES as well. */
  predicate PageGuardAsWritten(p: nat): (admitted: bool)
    ensures admitted <==> p < TABLE_MAX_PAGES || p == TABLE_MAX_PAGES
  {
    !(p > TABLE_MAX_PAGES)
  }

  /** The as-written check admits page TABLE_MAX_PAGES, which is not an
      index of the page array. */
  lemma PageGuardAsWrittenAdmitsPastEnd(pg: Pager)
    requires pg.Valid()
    ensures PageGuardAsWritten(TABLE_MAX_PAGES) && TABLE_MAX_PAGES >= |pg.pages|
    ensures GetPage(pg, TABLE_MAX_PAGES).None?
  {
  }
}
