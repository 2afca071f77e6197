# TrustScraper pipeline model

A Dafny model of the scraping pipeline of TrustAnalyzer (`TrustScraper.py`):
it walks the pages of a Trustpilot category, extracts name, rating summary,
location and domain from every business card with a sentinel for each missing
field, classifies the contact entries of each business's detail page into
address, phone, email and website, and appends one nine-column row per card
to a spreadsheet, numbering rows from the page index.

The browser, the HTTP client and the HTML parser are replaced by inputs:

- a card is a `Cards.Card` holding the text of its name, rating and location
  elements and its `href`, each optional;
- a detail page is a `Contacts.Response`: a status code and, when the page has
  a contact list, its entries (the first `<p>` and first `<a>` of each `<li>`);
- a listing page is a sequence of `Scraper.Listing`s, each a card with the
  response its detail URL returned;
- the browser is a sequence of listing pages (what it shows at each loop
  iteration) and a sequence of booleans (whether clicking "next" succeeded);
- the output file is its rows, if it exists.

Modules: `Wrappers` (Option, Result, the escaping exceptions), `Text`
(`str.strip`, `in`, `str.replace`), `Cards` (field extraction), `Contacts`
(contact classification, with the in-place loop `ResolveContacts`),
`Workbook` (cells, header, the `Sheet` class and workbook setup), `Scraper`
(row assembly `ScrapeInfo` and the page loop `ProcessRequest`, each proved
against a specification function, `ScrapePage` and `Crawl`), and `Pagination`
(`request_page_count`).

Behaviour of the code the model keeps:

- the ID written for card `k` of page `i` is `i * 20 + 1 + k` (the code writes
  `start_row - 1` with `start_row = i * 20 + 2`), so the first row has ID 1;
- a card without a link is still fetched, at `https://trustpilot.com`, and its
  contact fields come from whatever that page returns;
- a declared page count of 0 (or less) is not an error: the loop appends
  nothing;
- a contact link without `href` raises `KeyError`, which nothing catches: the
  rest of the run is lost, the rows already appended stay;
- contact texts are stored as found, not stripped;
- the domain is one left-to-right `str.replace` pass, so removing `/review/`
  can assemble a new one from the text around it (`/rev/review/iew/` gives
  `/review/`): the model claims every occurrence present in the link is
  removed, never that the domain is free of `/review/`.

## Model

| member | source | states |
|---|---|---|
| `Text.Strip` | TrustScraper.py:77 | `str.strip()`; its contract is carried by `Text.StripEnds`, `Text.StripFramed`, `Text.StripEmptyIff` and `Text.StripIdempotent` (below) |
| `Text.Contains` | TrustScraper.py:114-118 | the `in` substring test; `Text.ContainsIff` proves it equal to an occurrence at some index |
| `Text.Replace` | TrustScraper.py:93 | `str.replace`, one left-to-right pass over non-overlapping occurrences; its properties are `Text.ReplaceWithoutPattern`, `Text.RemoveShortens` and `Text.ReplaceLeading` |
| `Text.TrimLeftSpec` | TrustScraper.py:77 | stripping the front keeps a suffix that starts with a non-space and drops only whitespace |
| `Text.TrimRightSpec` | TrustScraper.py:77 | stripping the back keeps a prefix that ends with a non-space and drops only whitespace |
| `Text.StripEnds` | TrustScraper.py:76-89 | a stripped field neither starts nor ends with whitespace and is no longer than the element text |
| `Text.StripFramed` | TrustScraper.py:76-89 | a stripped field is a contiguous piece of the element text with only whitespace around it |
| `Text.StripEmptyIff` | TrustScraper.py:76-89 | a stripped field is empty exactly when the element text is all whitespace |
| `Text.StripIdempotent` | TrustScraper.py:76-89 | stripping an already stripped text changes nothing |
| `Text.ContainsIff` | TrustScraper.py:114-118 | the `in` test on the `href` holds exactly when the marker occurs at some index |
| `Text.ContainsAt` | TrustScraper.py:114-118 | a marker occurring at a known index makes the `in` test true |
| `Text.ReplaceWithoutPattern` | TrustScraper.py:93 | `str.replace` leaves a string in which the pattern does not occur unchanged |
| `Text.RemoveShortens` | TrustScraper.py:93 | replacing with the empty string never lengthens the string |
| `Text.ReplaceLeading` | TrustScraper.py:93 | a leading occurrence is replaced and the pass continues right after it |
| `Cards.TextOr` | TrustScraper.py:76-89 | a field is its element's stripped text, or the field's sentinel when the element is missing; stated by `Cards.PresentTextIsStripped` and `Cards.ExtractCardFallbacks` |
| `Cards.Domain` | TrustScraper.py:93 | the link with `/review/` removed; stated by `Cards.DomainOfLink`, `Cards.ReviewLinkDomain`, `Cards.DomainRemovesEveryOccurrence` and `Cards.RemovalCanRebuildPattern` |
| `Cards.ExtractCard` | TrustScraper.py:76-94 | the five fields of one card; stated by `Cards.ExtractCardFallbacks`, `Cards.FieldsIndependent` and `Cards.PresentFieldsAreStrippedText` |
| `Cards.ExtractCardFallbacks` | TrustScraper.py:76-94 | a missing name or location gives "Unknown", a missing rating gives the zero-score sentinel `NoScore`, a missing link gives domain "" and URL `https://trustpilot.com`; the URL is the site root followed by the link |
| `Cards.FieldsIndependent` | TrustScraper.py:76-94 | each field depends on its own element only: cards that agree on an element agree on its field whatever else they hold |
| `Cards.PresentTextIsStripped` | TrustScraper.py:76-89 | a present element yields its text with only surrounding whitespace removed: the result sits in the text with whitespace alone around it and neither starts nor ends with whitespace |
| `Cards.PresentFieldsAreStrippedText` | TrustScraper.py:76-89 | the name, rating and location of a card are each their present element's text with only surrounding whitespace removed |
| `Cards.DomainOfLink` | TrustScraper.py:93 | the domain is never longer than the link and equals it when the link holds no `/review/` |
| `Cards.ReviewLinkDomain` | TrustScraper.py:92-94 | the link `/review/<slug>` gives domain `<slug>` and URL `https://trustpilot.com/review/<slug>` |
| `Cards.DomainRemovesEveryOccurrence` | TrustScraper.py:93 | every `/review/` in the link is removed, not just the first: `/`-free pieces each preceded by `/review/`, then a tail without `/review/`, give the pieces and the tail run together |
| `Cards.RemoveBetweenWords` | TrustScraper.py:93 | removing the `/review/` between two `/`-free words, the first not `review`, leaves the words and the outer slashes: `/a/review/b/` gives `/ab/` |
| `Cards.RemovalCanRebuildPattern` | TrustScraper.py:93 | removal is one pass and can leave a new `/review/`: `/rev/review/iew/` gives `/review/` |
| `Cards.ReplaceAfterPlain` | TrustScraper.py:93 | the replace pass copies a segment without `/` unchanged and goes on after it |
| `Contacts.Classify` | TrustScraper.py:111-119 | where one entry goes and what it writes there, or `KeyError`; stated by `Contacts.ParagraphWins`, `Contacts.LinkPrecedence` and `Contacts.HotelSiteIsPhone` |
| `Contacts.Fill` | TrustScraper.py:110-119 | the entry loop over the four-slot list yields four fields when it does not raise; its contents are `Contacts.FillRaisesIff`, `Contacts.FillKeepsUntargeted` and `Contacts.FillKeepsLastTargeted` |
| `Contacts.ContactDetails` | TrustScraper.py:102-125 | a page that does not raise yields exactly four contact fields |
| `Contacts.ResolveContacts` | TrustScraper.py:102-125 | the in-place fill of the four-slot list, entry by entry, yields exactly `ContactDetails` of the response: the four contact fields, or `KeyError` |
| `Contacts.RaisesIff` | TrustScraper.py:111-114 | an entry raises exactly when it has no `<p>` and holds a link without `href`; a `<p>` is read first, so its link is never subscripted |
| `Contacts.FillRaisesIff` | TrustScraper.py:110-119 | the entry loop raises exactly when some entry is a link without `href` in an entry with no `<p>` |
| `Contacts.ContactsRaiseIff` | TrustScraper.py:102-125 | a detail page raises exactly when its status is 200, it has a contact list and some entry is a link without `href` in an entry with no `<p>` |
| `Contacts.FillKeepsUntargeted` | TrustScraper.py:110-119 | an iteration changes only the slot its entry is classified into; an untargeted slot keeps its value |
| `Contacts.FillKeepsLastTargeted` | TrustScraper.py:110-119 | later entries overwrite earlier ones: a slot holds the text of the last entry classified into it |
| `Contacts.SlotIsLastMatch` | TrustScraper.py:104-119 | on a page that does not raise, each contact field is the text of the last entry classified into it |
| `Contacts.UntargetedSlotIsUnknown` | TrustScraper.py:104-119 | on a page that does not raise, a field no entry is classified into stays "Unknown" |
| `Contacts.UnreachableContactsAreUnknown` | TrustScraper.py:102-125 | a status other than 200, or a page without contact list, gives four "Unknown" fields and no exception |
| `Contacts.ParagraphWins` | TrustScraper.py:111-112 | an entry with a `<p>` sets the address, whatever link it also holds |
| `Contacts.LinkPrecedence` | TrustScraper.py:113-119 | otherwise a link is a phone if its `href` contains "tel", else an email if it contains "mailto", else a website if it contains "http", else ignored |
| `Contacts.HotelSiteIsPhone` | TrustScraper.py:114-119 | the substring test files the website `http://hotel.x` as a phone number |
| `Workbook.Sheet.Append` | TrustScraper.py:129 | appending adds one row after the existing rows and changes nothing else |
| `Workbook.SetupWorkbook` | TrustScraper.py:39-46 | an existing file is loaded and kept unchanged; otherwise the sheet and the saved file hold exactly the header row `ID, Company Name, Domain, Score, Location, Address, Phone, Email, Website` |
| `Scraper.MakeRow` | TrustScraper.py:129 | a row has the header's nine columns and the ID first |
| `Scraper.RowFor` | TrustScraper.py:98-129 | the row of one card under an ID, or the exception its detail page raises; `Scraper.ScrapePageRowAt` ties each appended row to it |
| `Scraper.ScrapePage` | TrustScraper.py:75-130 | a page appends at most one row per card |
| `Scraper.ScrapeInfo` | TrustScraper.py:70-130 | the sheet gains the page's rows after its existing rows, which stay untouched, and the method reports whether an exception cut the page short |
| `Scraper.ScrapeStep` | TrustScraper.py:75-130 | one card iteration: a raising detail page ends the page with nothing appended; otherwise the card's row is appended and the counter moves to the next row number |
| `Scraper.ScrapePageLength` | TrustScraper.py:75-130 | a page appends one row per card unless cut short, and it is cut short exactly at a card whose detail page raises |
| `Scraper.ScrapePageRowAt` | TrustScraper.py:129-130 | the k-th row appended is the row of the k-th card, in card order, under ID `start_row - 1 + k` |
| `Scraper.ScrapePageIds` | TrustScraper.py:129-130 | every appended row has nine columns and consecutive IDs from `start_row - 1` |
| `Scraper.ScrapePageCrashIff` | TrustScraper.py:75-130 | a page is cut short exactly when one of its cards has a detail page that raises |
| `Scraper.PageOutcomes` | TrustScraper.py:138-142 | one outcome per page the browser shows, page `i` scraped from row `i * 20 + 2`; `Scraper.PageCardIds` gives the resulting IDs |
| `Scraper.Crawl` | TrustScraper.py:138-153 | the page loop's rows, page count and escaping exception; characterized by the `Scraper.Crawl*` lemmas below |
| `Scraper.ProcessRequest` | TrustScraper.py:132-153 | the page loop appends, after the existing rows, exactly the rows of `Crawl` over the pages' `ScrapePage` outcomes, and reports an escaping exception |
| `Scraper.CrawlStep` | TrustScraper.py:138-153 | one iteration either ends the loop (exception, or a failed advance before the last page) or continues with the next page |
| `Scraper.CrawlPageCount` | TrustScraper.py:138-153 | the loop scrapes at least one page when `page_count >= 1`, none otherwise, and at most `page_count`, and ends on an exception only on the page that raised |
| `Scraper.CrawlAppendsScrapedPages` | TrustScraper.py:138-153 | the rows appended are those of the scraped pages, in page order |
| `Scraper.CrawlRunsThrough` | TrustScraper.py:138-153 | pages with a successful advance and no exception are scraped one after another |
| `Scraper.CrawlStopsAtFailedAdvance` | TrustScraper.py:145-153 | when the first failed advance follows page k, exactly pages 0 to k are appended, in order, without error |
| `Scraper.CrawlScrapesAllPages` | TrustScraper.py:138-153 | when every advance succeeds and nothing raises, all `page_count` pages are appended, in order |
| `Scraper.CrawlEndsAtFirstException` | TrustScraper.py:138-153 | when page k is the first to raise, the loop ends there with pages 0 to k - 1 and the part of page k appended before the exception |
| `Scraper.SinglePageTwoCards` | TrustScraper.py:138-142 | one declared page with two cards whose detail pages do not raise gives two full-width rows with IDs 1 and 2 and no error |
| `Scraper.PageCardIds` | TrustScraper.py:142 | card k of page `idx` is written under ID `idx * 20 + 1 + k` |
| `Pagination.PageCountAsWritten` | TrustScraper.py:48-68 | `request_page_count` as written; `Pagination.AsWrittenDropsPageNumber` and `Pagination.PageCountContract` state what it returns |
| `Pagination.PageCount` | TrustScraper.py:48-68 | the page count the function evidently means; stated by `Pagination.PageCountContract` |
| `Pagination.AsWrittenDropsPageNumber` | TrustScraper.py:61-68 | as written, a readable last-page control yields `None` instead of its number |
| `Pagination.PageCountContract` | TrustScraper.py:48-68 | without a driver the count raises `ValueError`; otherwise the corrected count is the control's number, or 1 when the control is missing or unreadable, and agrees with the code as written wherever that returns a number |

## Findings

| source | as written | input that shows it | evidently intended | confidence | as-written member | corrected member |
|---|---|---|---|---|---|---|
| TrustScraper.py:61-68 | `return last_page` is indented inside the `except` branch, so when the last-page control is found and parsed the function ends without a `return` and yields `None`; `process_request` then fails on `range(None)` | a landing page whose last-page control reads `5` | return the parsed number (5), and 1 when the control is missing | high; not executed | `Pagination.PageCountAsWritten`, exhibited by `Pagination.AsWrittenDropsPageNumber` | `Pagination.PageCount`, proved by `Pagination.PageCountContract`; `Scraper.ProcessRequest` takes the integer page count it yields |

## Left out

- Browser automation (`setup_driver`, the consent-overlay click, the bounded waits, the "next" click, `page_source`): replaced by the page and advance inputs; a failed advance is one `false`.
- `requests.get` and HTML parsing: the response is an input; element lookups are given as optional texts. A network exception from `requests.get` (not caught by the code) is not modelled.
- `time.sleep` and `print`: no effect on the data.
- `Workbook.Sheet.Append`: the cell checks of openpyxl's `Worksheet.append` are not modelled: strings longer than 32,767 characters are cut, and the control characters U+0000 to U+0008, U+000B, U+000C and U+000E to U+001F raise `IllegalCharacterError`, which nothing catches. The model stores every row unchanged and never fails. So `Scraper.ScrapeInfo`, `Scraper.ScrapePageCrashIff` and the claim that appended rows stay after an exception hold only for texts free of those characters and within that length. The contact texts and the `href` are never stripped, and `strip()` keeps inner control characters.
- `openpyxl` file I/O: the existing file is an optional list of rows; the final save, which only `ScrapperContext.close` performs, is not modelled.
- `ScrapperContext.__init__`: glue that calls the three setup functions; with the page count as written its `page_count` is `None` whenever the control is found and its text parses as an integer, which the Findings row covers. `ScrapperContext.close` and `main` are broken as written (an attribute that does not exist, a missing argument) and hold no logic.
- `Text.IsSpace`: `str.strip()` also removes Unicode whitespace beyond Latin-1 (such as U+2000 to U+200A); the model strips the ASCII and Latin-1 whitespace only.
- `int()` on the last-page text: abstracted to an optional integer in `Pagination.LastPageControl`.
- `Graphics.py` (category selection UI) and `DataVisualization.py` (charts): not part of this model. The missing-rating sentinel `TrustScore 0 | 0 reviews` does not match the pattern the visualization parses (it has spaces around `|`); the model claims no conformance.
- Review-comment extraction: a TODO in the code, nothing to model.
