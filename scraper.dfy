/** Row assembly for one listing page and the loop over the pages of a
    category. */
module Scraper {
  import opened Wrappers
  import opened Cards
  import opened Contacts
  import opened Workbook

  /** The number of cards a listing page is assumed to hold when IDs are
      assigned. */
  const PageSize := 20

  /** A card of a listing page together with the response its detail URL
      returned when it was fetched. */
  datatype Listing = Listing(card: Card, detail: Response)

  /** The sheet row for one card: ID, name, domain, score, location and the
      four contact fields, in the header's column order. */
  function MakeRow(id: int, info: CardInfo, contacts: seq<string>): (row: Row)
    requires |contacts| == 4
    ensures |row| == |Header| && row[0] == Int(id)
  {
    [Int(id), Str(info.name), Str(info.domain), Str(info.score), Str(info.location),
     Str(contacts[0]), Str(contacts[1]), Str(contacts[2]), Str(contacts[3])]
  }

  /** The row one listing produces under the given ID, or the exception its
      detail page raises. */
  function RowFor(l: Listing, id: int): Result<Row, Exception> {
    match ContactDetails(l.detail)
    case Failure(x) => Failure(x)
    case Success(contacts) => Success(MakeRow(id, ExtractCard(l.card), contacts))
  }

  /** The rows a page appends and whether an exception cut it short. */
  datatype PageOutcome = PageOutcome(rows: seq<Row>, crashed: bool)

  /** What scraping the listings from row number `start` on appends: one row
      per listing, with IDs from `start - 1` up, until a listing raises. */
  function ScrapePage(ls: seq<Listing>, start: int): (p: PageOutcome)
    ensures |p.rows| <= |ls|
    decreases |ls|
  {
    if ls == [] then
      PageOutcome([], false)
    else
      match RowFor(ls[0], start - 1)
      case Failure(_) => PageOutcome([], true)
      case Success(row) =>
        var rest := ScrapePage(ls[1..], start + 1);
        PageOutcome([row] + rest.rows, rest.crashed)
  }

  /** Appends one row per listing to the sheet, counting row numbers up from
      `startRow`; returns true when a detail page raised, in which case the
      rows appended before it stay. */
  method ScrapeInfo(sheet: Sheet, listings: seq<Listing>, startRow: int) returns (crashed: bool)
    modifies sheet
    ensures sheet.rows == old(sheet.rows) + ScrapePage(listings, startRow).rows
    ensures crashed == ScrapePage(listings, startRow).crashed
  {
    var next := startRow;
    var i := 0;
    while i < |listings|
      invariant 0 <= i <= |listings| && next == startRow + i
      invariant old(sheet.rows) + ScrapePage(listings, startRow).rows
             == sheet.rows + ScrapePage(listings[i..], next).rows
      invariant ScrapePage(listings, startRow).crashed == ScrapePage(listings[i..], next).crashed
    {
      ghost var before := sheet.rows;
      assert listings[i..][0] == listings[i] && listings[i..][1..] == listings[i + 1..];
      var l := listings[i];
      var info := ExtractCard(l.card);
      var contacts := ResolveContacts(l.detail);
      if contacts.Failure? {
        ScrapeStep(listings[i..], next, before, before);
        return true;
      }
      sheet.Append(MakeRow(next - 1, info, contacts.value));
      ScrapeStep(listings[i..], next, before, sheet.rows);
      next := next + 1;
      i := i + 1;
    }
    crashed := false;
  }

  /** One iteration of the card loop: a card whose detail page raises ends
      the page; otherwise its row is appended and the page goes on with the
      next card under the next row number. */
  lemma ScrapeStep(ls: seq<Listing>, start: int, before: seq<Row>, after: seq<Row>)
    requires ls != []
    requires ContactDetails(ls[0].detail).Success? ==>
      after == before + [MakeRow(start - 1, ExtractCard(ls[0].card), ContactDetails(ls[0].detail).value)]
    ensures ContactDetails(ls[0].detail).Failure? ==> ScrapePage(ls, start) == PageOutcome([], true)
    ensures ContactDetails(ls[0].detail).Success? ==>
      && before + ScrapePage(ls, start).rows == after + ScrapePage(ls[1..], start + 1).rows
      && ScrapePage(ls, start).crashed == ScrapePage(ls[1..], start + 1).crashed
  {
  }

  /** A page appends at most one row per listing, all of them unless it is
      cut short, and it is cut short exactly at a listing whose detail page
      raises. */
  lemma {:induction false} ScrapePageLength(ls: seq<Listing>, start: int)
    ensures var p := ScrapePage(ls, start);
      && |p.rows| <= |ls|
      && (!p.crashed <==> |p.rows| == |ls|)
      && (p.crashed ==> RowFor(ls[|p.rows|], start - 1 + |p.rows|).Failure?)
    decreases |ls|
  {
    if ls != [] && RowFor(ls[0], start - 1).Success? {
      ScrapePageLength(ls[1..], start + 1);
      var q := ScrapePage(ls[1..], start + 1);
      if q.crashed {
        assert ls[1 + |q.rows|] == ls[1..][|q.rows|];
      }
    }
  }

  /** The k-th row a page appends is the row of its k-th listing, under ID
      `start - 1 + k`. */
  lemma {:induction false} ScrapePageRowAt(ls: seq<Listing>, start: int, k: nat)
    requires k < |ScrapePage(ls, start).rows|
    ensures RowFor(ls[k], start - 1 + k) == Success(ScrapePage(ls, start).rows[k])
    decreases k
  {
    var r := RowFor(ls[0], start - 1);
    assert r.Success?;
    var q := ScrapePage(ls[1..], start + 1);
    assert ScrapePage(ls, start).rows == [r.value] + q.rows;
    if k > 0 {
      ScrapePageRowAt(ls[1..], start + 1, k - 1);
      assert ls[1..][k - 1] == ls[k];
    }
  }

  /** Every row a page appends has the header's nine columns, and the k-th
      one carries ID `start - 1 + k`. */
  lemma ScrapePageIds(ls: seq<Listing>, start: int, k: nat)
    requires k < |ScrapePage(ls, start).rows|
    ensures var row := ScrapePage(ls, start).rows[k];
      |row| == |Header| && row[0] == Int(start - 1 + k)
  {
    ScrapePageRowAt(ls, start, k);
  }

  /** A page is cut short exactly when one of its listings has a detail page
      that raises. */
  lemma {:induction false} ScrapePageCrashIff(ls: seq<Listing>, start: int)
    ensures ScrapePage(ls, start).crashed <==> exists k :: 0 <= k < |ls| && ContactDetails(ls[k].detail).Failure?
    decreases |ls|
  {
    if ls != [] && RowFor(ls[0], start - 1).Success? {
      ScrapePageCrashIff(ls[1..], start + 1);
      if exists k :: 0 <= k < |ls| && ContactDetails(ls[k].detail).Failure? {
        var k :| 0 <= k < |ls| && ContactDetails(ls[k].detail).Failure?;
        assert ls[1..][k - 1] == ls[k];
      }
    }
  }

  /** What scraping each page the browser can show would append: page `i`
      is numbered from row `i * 20 + 2`. */
  function PageOutcomes(pages: seq<seq<Listing>>): (r: seq<PageOutcome>)
    ensures |r| == |pages|
  {
    seq(|pages|, i requires 0 <= i < |pages| => ScrapePage(pages[i], i * PageSize + 2))
  }

  /** The outcome of the page loop: the rows appended, how many pages were
      scraped, and whether an exception ended the loop. */
  datatype CrawlOutcome = CrawlOutcome(rows: seq<Row>, pagesScraped: nat, crashed: bool)

  /** The page loop from page `idx` on, given what scraping each page
      appends (`scraped`) and whether clicking "next" after page `i`
      succeeds (`advances[i]`). */
  function Crawl(scraped: seq<PageOutcome>, advances: seq<bool>, pageCount: int, idx: nat): CrawlOutcome
    requires pageCount <= |scraped| && pageCount - 1 <= |advances|
    decreases pageCount - idx
  {
    if idx >= pageCount then
      CrawlOutcome([], 0, false)
    else
      var page := scraped[idx];
      if page.crashed then
        CrawlOutcome(page.rows, 1, true)
      else if idx < pageCount - 1 && !advances[idx] then
        CrawlOutcome(page.rows, 1, false)
      else
        var rest := Crawl(scraped, advances, pageCount, idx + 1);
        CrawlOutcome(page.rows + rest.rows, rest.pagesScraped + 1, rest.crashed)
  }

  /** The rows of pages `lo` to `hi - 1`, in page order. */
  function PagesRows(scraped: seq<PageOutcome>, lo: nat, hi: nat): seq<Row>
    requires lo <= hi <= |scraped|
    decreases hi - lo
  {
    if lo == hi then [] else scraped[lo].rows + PagesRows(scraped, lo + 1, hi)
  }

  /** Scrapes page after page into the sheet, advancing after every page but
      the last and stopping at the first failed advance; returns true when a
      detail page raised, which ends the loop. `pages[i]` is the listing page
      the browser shows at iteration `i`. */
  method ProcessRequest(sheet: Sheet, pageCount: int, pages: seq<seq<Listing>>, advances: seq<bool>)
    returns (crashed: bool)
    requires pageCount <= |pages| && pageCount - 1 <= |advances|
    modifies sheet
    ensures sheet.rows == old(sheet.rows) + Crawl(PageOutcomes(pages), advances, pageCount, 0).rows
    ensures crashed == Crawl(PageOutcomes(pages), advances, pageCount, 0).crashed
  {
    ghost var scraped := PageOutcomes(pages);
    crashed := false;
    var idx := 0;
    while idx < pageCount
      invariant idx == 0 || idx <= pageCount
      invariant old(sheet.rows) + Crawl(scraped, advances, pageCount, 0).rows
             == sheet.rows + Crawl(scraped, advances, pageCount, idx).rows
      invariant Crawl(scraped, advances, pageCount, 0).crashed == Crawl(scraped, advances, pageCount, idx).crashed
      invariant !crashed
      decreases pageCount - idx
    {
      ghost var before := sheet.rows;
      assert scraped[idx] == ScrapePage(pages[idx], idx * PageSize + 2);
      crashed := ScrapeInfo(sheet, pages[idx], idx * PageSize + 2);
      CrawlStep(scraped, advances, pageCount, idx, before, sheet.rows);
      if crashed {
        return;
      }
      if idx < pageCount - 1 {
        if !advances[idx] {
          break;
        }
      }
      idx := idx + 1;
    }
  }

  /** One iteration of the loop: after page `idx` is appended, the sheet
      either holds everything the loop appends or goes on with page
      `idx + 1`. */
  lemma CrawlStep(scraped: seq<PageOutcome>, advances: seq<bool>, pageCount: int, idx: nat, before: seq<Row>, after: seq<Row>)
    requires pageCount <= |scraped| && pageCount - 1 <= |advances|
    requires idx < pageCount && after == before + scraped[idx].rows
    ensures var c := Crawl(scraped, advances, pageCount, idx);
      if scraped[idx].crashed || (idx < pageCount - 1 && !advances[idx]) then
        before + c.rows == after && c.crashed == scraped[idx].crashed
      else
        var d := Crawl(scraped, advances, pageCount, idx + 1);
        before + c.rows == after + d.rows && c.crashed == d.crashed
  {
  }

  /** The loop scrapes at least one page when one is declared and none past
      the declared count; when it ends on an exception, the last page it
      scraped is the one that raised. */
  lemma {:induction false} CrawlPageCount(scraped: seq<PageOutcome>, advances: seq<bool>, pageCount: int, idx: nat)
    requires pageCount <= |scraped| && pageCount - 1 <= |advances|
    ensures var c := Crawl(scraped, advances, pageCount, idx);
      && (idx >= pageCount ==> c.pagesScraped == 0)
      && (idx < pageCount ==> 0 < c.pagesScraped <= pageCount - idx)
      && (c.crashed ==> (c.pagesScraped > 0 && scraped[idx + c.pagesScraped - 1].crashed))
    decreases pageCount - idx
  {
    if idx < pageCount && !scraped[idx].crashed && !(idx < pageCount - 1 && !advances[idx]) {
      CrawlPageCount(scraped, advances, pageCount, idx + 1);
    }
  }

  /** The loop appends the rows of the pages it scraped, in page order. */
  lemma {:induction false} CrawlAppendsScrapedPages(scraped: seq<PageOutcome>, advances: seq<bool>, pageCount: int, idx: nat)
    requires pageCount <= |scraped| && pageCount - 1 <= |advances| && idx <= |scraped|
    ensures var c := Crawl(scraped, advances, pageCount, idx);
      idx + c.pagesScraped <= |scraped| && c.rows == PagesRows(scraped, idx, idx + c.pagesScraped)
    decreases pageCount - idx
  {
    CrawlPageCount(scraped, advances, pageCount, idx);
    if idx < pageCount {
      assert PagesRows(scraped, idx + 1, idx + 1) == [];
      if !scraped[idx].crashed && !(idx < pageCount - 1 && !advances[idx]) {
        CrawlAppendsScrapedPages(scraped, advances, pageCount, idx + 1);
      }
    }
  }

  /** Pages on which nothing stops the loop are scraped one after another:
      from `idx`, the loop appends pages `idx` to `k - 1` and then carries on
      as it would from page `k`. */
  lemma {:induction false} CrawlRunsThrough(scraped: seq<PageOutcome>, advances: seq<bool>, pageCount: int, idx: nat, k: nat)
    requires pageCount <= |scraped| && pageCount - 1 <= |advances|
    requires idx <= k < pageCount
    requires forall j :: idx <= j < k ==> advances[j] && !scraped[j].crashed
    ensures var d := Crawl(scraped, advances, pageCount, k);
      Crawl(scraped, advances, pageCount, idx)
        == CrawlOutcome(PagesRows(scraped, idx, k) + d.rows, k - idx + d.pagesScraped, d.crashed)
    decreases k - idx
  {
    if idx < k {
      CrawlRunsThrough(scraped, advances, pageCount, idx + 1, k);
      var d := Crawl(scraped, advances, pageCount, k);
      assert scraped[idx].rows + (PagesRows(scraped, idx + 1, k) + d.rows)
          == PagesRows(scraped, idx, k) + d.rows;
    } else {
      assert PagesRows(scraped, idx, k) == [];
    }
  }

  /** When the advance after page k is the first to fail, the loop stops
      there with exactly pages 0 to k appended, in order, and no error. */
  lemma CrawlStopsAtFailedAdvance(scraped: seq<PageOutcome>, advances: seq<bool>, pageCount: int, k: nat)
    requires pageCount <= |scraped| && pageCount - 1 <= |advances|
    requires k < pageCount - 1 && !advances[k]
    requires forall j :: 0 <= j < k ==> advances[j]
    requires forall j :: 0 <= j <= k ==> !scraped[j].crashed
    ensures Crawl(scraped, advances, pageCount, 0) == CrawlOutcome(PagesRows(scraped, 0, k + 1), k + 1, false)
  {
    CrawlRunsThrough(scraped, advances, pageCount, 0, k);
    assert PagesRows(scraped, k, k + 1) == scraped[k].rows;
    PagesRowsSplit(scraped, 0, k, k + 1);
  }

  /** When every advance succeeds and no page raises, the loop scrapes all
      `pageCount` pages, in order. */
  lemma CrawlScrapesAllPages(scraped: seq<PageOutcome>, advances: seq<bool>, pageCount: nat)
    requires pageCount <= |scraped| && pageCount - 1 <= |advances|
    requires forall j :: 0 <= j < pageCount - 1 ==> advances[j]
    requires forall j :: 0 <= j < pageCount ==> !scraped[j].crashed
    ensures Crawl(scraped, advances, pageCount, 0) == CrawlOutcome(PagesRows(scraped, 0, pageCount), pageCount, false)
  {
    if pageCount > 0 {
      var k := pageCount - 1;
      CrawlRunsThrough(scraped, advances, pageCount, 0, k);
      assert PagesRows(scraped, k, k + 1) == scraped[k].rows;
      PagesRowsSplit(scraped, 0, k, k + 1);
    }
  }

  /** When page k is the first to raise, and every advance before it
      succeeded, the loop ends there with the rows of pages 0 to k - 1 and
      the rows page k appended before the exception. */
  lemma CrawlEndsAtFirstException(scraped: seq<PageOutcome>, advances: seq<bool>, pageCount: int, k: nat)
    requires pageCount <= |scraped| && pageCount - 1 <= |advances|
    requires k < pageCount && scraped[k].crashed
    requires forall j :: 0 <= j < k ==> advances[j] && !scraped[j].crashed
    ensures Crawl(scraped, advances, pageCount, 0) == CrawlOutcome(PagesRows(scraped, 0, k + 1), k + 1, true)
  {
    CrawlRunsThrough(scraped, advances, pageCount, 0, k);
    assert PagesRows(scraped, k, k + 1) == scraped[k].rows;
    PagesRowsSplit(scraped, 0, k, k + 1);
  }

  /** The rows of a range of pages are the rows of its two halves. */
  lemma {:induction false} PagesRowsSplit(scraped: seq<PageOutcome>, lo: nat, mid: nat, hi: nat)
    requires lo <= mid <= hi <= |scraped|
    ensures PagesRows(scraped, lo, hi) == PagesRows(scraped, lo, mid) + PagesRows(scraped, mid, hi)
    decreases mid - lo
  {
    if lo < mid {
      PagesRowsSplit(scraped, lo + 1, mid, hi);
      assert PagesRows(scraped, lo, hi)
          == scraped[lo].rows + (PagesRows(scraped, lo + 1, mid) + PagesRows(scraped, mid, hi));
    }
  }

  /** The k-th card of page `idx` is written under ID `idx * 20 + 1 + k`. */
  lemma PageCardIds(pages: seq<seq<Listing>>, idx: nat, k: nat)
    requires idx < |pages| && k < |PageOutcomes(pages)[idx].rows|
    ensures var row := PageOutcomes(pages)[idx].rows[k];
      |row| == |Header| && row[0] == Int(idx * PageSize + 1 + k)
  {
    ScrapePageIds(pages[idx], idx * PageSize + 2, k);
  }

  /** A single declared page with two cards whose detail pages do not raise
      yields two rows, with IDs 1 and 2, and no error. */
  lemma SinglePageTwoCards(first: Listing, second: Listing)
    requires ContactDetails(first.detail).Success? && ContactDetails(second.detail).Success?
    ensures var c := Crawl(PageOutcomes([[first, second]]), [], 1, 0);
      && c.pagesScraped == 1 && !c.crashed && |c.rows| == 2
      && |c.rows[0]| == |Header| && |c.rows[1]| == |Header|
      && c.rows[0][0] == Int(1) && c.rows[1][0] == Int(2)
  {
    var page := [first, second];
    var scraped := PageOutcomes([page]);
    assert scraped[0] == ScrapePage(page, 2);
    assert page[1..] == [second] && [second][1..] == [];
    assert RowFor(first, 1).Success? && RowFor(second, 2).Success?;
    assert ScrapePage([second][1..], 4) == PageOutcome([], false);
    var tail := ScrapePage([second], 3);
    assert tail.rows == [RowFor(second, 2).value] && !tail.crashed;
    assert ScrapePage(page, 2).rows == [RowFor(first, 1).value] + tail.rows;
    assert Crawl(scraped, [], 1, 1) == CrawlOutcome([], 0, false);
    ScrapePageIds(page, 2, 0);
    ScrapePageIds(page, 2, 1);
  }
}
