# Price scraper: scrape-and-reconcile pipeline in Dafny

This project models the pipeline at the core of the price scraper. It has three
parts:

- `Parser.py` walks the bath-tub category of an online shop page by page. It
  follows each page's "next page" link and collects one `{name, price}` record
  per product container.
- `convert_price_to_int` in `main.py` turns a scraped price text into an
  integer. It keeps the text's digits and reads them in base 10.
- The reconciliation loop of `background_parser_async` in `main.py` looks up
  each scraped item by (name, cost) in the `Prices` table. It inserts and
  commits the item only when no row matches.

Files:

- `common.dfy` holds `Option` and `Result`.
- `prices.dfy` (module `Prices`) models the price normaliser.
- `catalog.dfy` (module `Catalog`) models `parse_page`, `get_next_page_url`,
  `scrape_category` and `get_price`. A page is an abstract value: its product
  containers (optional name text, optional price text) and its anchors (id,
  optional `href`). Fetching a URL is a lookup in a map from URLs to pages. A
  URL the map does not hold stands for a request that raises. The walk is
  written once, over a `Visitor` (what a round learns from one URL). Its
  properties are proved for every visitor. The method `ScrapeCategory` is the
  `while url:` loop, proved equal to the walk over the site's visitor.
- `reconcile.dfy` (module `Reconcile`) models the `Prices` table as a class
  holding a sequence of rows. `ReconcilePass` is the `for item in data` loop,
  proved equal to the function `Pass`. The loop is written once, as `Run`,
  over the iteration that handles one item. `Pass` runs it with `Step`, the
  iteration with the lookup awaited, and `PassAsWritten` with `StepAsWritten`,
  the iteration as main.py writes it. The lemmas about what a pass does to
  the table hold for every iteration that follows the lookup rule
  (`FollowsLookup`). `Reconcile.StepFollowsLookup` proves that `Step` follows
  it, so they all hold for `Pass`.

What the code does when an input is bad:

- `convert_price_to_int` raises `ValueError` when the price text has no
  digit: `int('')` fails. This includes the `"N/A"` that a missing price
  element produces. It also raises when the text has more than 4300 digits,
  which is CPython's default limit on converting a digit string to `int`.
  Nothing in `background_parser_async` catches the exception, so the pass
  stops at that item. Rows committed before it stay.
- `parse_page` raises `AttributeError` for a container without a name
  element. `scrape_category` also raises for a failed request and for a
  next-page anchor without `href`. Each of these ends the whole walk, and
  the products gathered so far are lost with the exception.
- As written, the lookup at main.py:53 is not awaited, so every item whose
  price converts raises there, and a pass stores nothing
  (`Reconcile.RunAsWrittenStoresNothing`; see "## Findings"). With the
  lookup awaited (`Reconcile.Pass`), the items "Bath A" (1 000 р),
  "Bath B" (N/A) and "Bath C" (2 500 р) on an empty table store "Bath A"
  and stop at "Bath B" (`Reconcile.PriceNotNumericStopsThePass`).

## Model

| member | source | states |
|---|---|---|
| Prices.ConvertPriceToInt | main.py:39-41 | Gives no value exactly when the text holds no digit or more than 4300 digits. Otherwise gives the positional base-10 value of the text's digits in their original order. |
| Prices.Digits | main.py:40 | The filtered text has only digits and is no longer than the text. |
| Prices.DigitsKeepsEveryDigit | main.py:40 | A character occurs in the filtered text exactly when it occurs in the text and is a digit. |
| Prices.DecimalValue | main.py:41 | Reading n digits gives a value below 10^n. |
| Prices.HornerIsPlaceValue | main.py:41 | Reading digits left to right, as `int` does, equals the sum of each digit times its power of ten. |
| Prices.NoDigitsIffEmpty | main.py:40-41 | The filtered digit string is empty exactly when no character of the text is a digit, which is when `int('')` would raise. |
| Prices.DigitsOfConcat | main.py:40 | Filtering the digits of a concatenation concatenates the filtered parts. |
| Prices.NonDigitIgnored | main.py:40 | Inserting a non-digit character anywhere in the text leaves the result unchanged. |
| Prices.MinusSignDropped | main.py:40 | A leading '-' is dropped, so the result is never negative. |
| Prices.RenderThenConvert | main.py:40-41 | Converting the decimal rendering of any n >= 0 gives back n, as long as the rendering has at most 4300 digits. A longer one gives no value. |
| Prices.LeadingZerosAbsorbed | main.py:40-41 | Leading zeros before a rendering of n still give n, as long as the whole digit string has at most 4300 digits. A longer one gives no value. |
| Prices.ZerosConvert | main.py:40-41 | A string of k zeros gives 0 when 1 <= k <= 4300, and no value otherwise. |
| Prices.SpacedRoublePrice | main.py:39-41 | "1 234 р." gives 1234. |
| Prices.NoDigitsNoPrice | main.py:40-41 | "N/A", "" and "р." give no value rather than 0. |
| Catalog.StripRemovesOuterSpace | Parser.py:17 | The stripped price is the text with only whitespace before and after it, and it neither starts nor ends with whitespace. |
| Catalog.Strip | Parser.py:17 | The stripped text is no longer than the text, and it neither starts nor ends with whitespace. |
| Catalog.StripIsUnique | Parser.py:17 | Any core of the text with those properties is the stripped text. |
| Catalog.StripIdempotent | Parser.py:17 | Stripping twice equals stripping once. |
| Catalog.ExtractProduct | Parser.py:14-18 | A container yields a record exactly when it has a name element. The record's name is the name text. Its price is the stripped price text, or "N/A" when the price element is missing. |
| Catalog.PageProducts | Parser.py:13-19 | A page yields products exactly when every container has a name. Then it yields one product per container, in container order. Otherwise it reports the first nameless container. |
| Catalog.FetchAndParse | Parser.py:6-20 | A URL that cannot be fetched is an error. Otherwise the result is that page together with its products. A fetched page succeeds exactly when its containers parse, and otherwise fails with the parse error. |
| Catalog.ParsePage | Parser.py:6-20 | The loop over the containers gives the same products or error as the page's specification. |
| Catalog.GetNextPageUrl | Parser.py:23-25 | No link exactly when no anchor has the next-page id. Otherwise the first such anchor decides: its `href`, or a missing-`href` error. |
| Catalog.Visit | Parser.py:34-37 | A round succeeds only on a page that fetches and parses. It carries that page's products, and its next URL is the page's next-page link, or none. A fetch or parse error is passed on unchanged. A page that parses fails only when its next-page anchor has no `href`. |
| Catalog.FollowLink | Parser.py:37-41 | The loop continues exactly when the fragment is present and non-empty, and then goes to the base URL followed by the fragment. |
| Catalog.Walk | Parser.py:29-43 | An empty start URL fetches nothing and finishes with no products. A non-empty one is fetched first. No more pages are fetched than the budget allows. |
| Catalog.ScrapeCategory | Parser.py:29-43 | The `while url:` loop ends with the outcome of the walk from the start URL. |
| Catalog.GetPrice | Parser.py:47-52 | The shop's bath-tub category is walked from the shop's base URL. |
| Catalog.FollowLinkUnderBase | Parser.py:37-39 | A next URL the loop goes on with always starts with the base URL. |
| Catalog.LaterUrlsUnderBase | Parser.py:37-39 | Every URL fetched after the first begins with the base URL string. |
| Catalog.WalkFollowsLinks | Parser.py:33-41 | In every walk, whether it finishes, aborts or runs out of pages, each fetched URL after the first is the base URL followed by the non-empty next-page fragment of the page fetched just before it, and that page was visited without error. |
| Catalog.WalkEnding | Parser.py:34-41 | A walk that aborts failed on the last URL it fetched, with that page's error. A walk out of pages fetched exactly as many pages as the budget. |
| Catalog.AbortedWalkNamesItsUrl | Parser.py:34-37 | On a site, the error of an aborted walk (failed request, missing name, missing `href`) carries the last URL the walk fetched. |
| Catalog.FinishedWalkIsChain | Parser.py:31-41 | A finished walk fetched a chain of next links ending at a page without a next link. It returns those pages' products concatenated in visit order. |
| Catalog.ChainIsWalked | Parser.py:33-41 | From the start of a chain of k pages, the walk fetches exactly those k pages and returns their products in order. |
| Catalog.CycleNeverFinishes | Parser.py:33-41 | With no visited-URL guard, a walk started on any page of a cycle of next links fetches as many pages as the budget allows and never finishes. |
| Catalog.WalkIntoCycleNeverFinishes | Parser.py:33-41 | A walk that follows a path of next links into a cycle also fetches as many pages as the budget allows and never finishes. |
| Catalog.GetPriceUrlsStartWithBase | Parser.py:47-51 | `get_price` fetches the category URL first, and every URL it fetches begins with the shop's base URL string. This is a statement about text: it does not rule out a fragment that changes the host. |
| Reconcile.NextId | main.py:57-60 | A new row's id is above every stored id: one more than the largest, or 1 in an empty table. |
| Reconcile.Matches | main.py:52 | The `select` finds no row exactly when no row has the key. It finds two or more exactly when two different rows have the key. Every row it finds has the key. |
| Reconcile.LookupRow | main.py:52-54 | `scalar_one_or_none` gives None exactly when no row has the key. It raises exactly when two different rows have the key. A single row it gives is a stored row with that key. |
| Reconcile.Step | main.py:48-60 | An item is inserted exactly when its price converts and no row holds its (name, cost). The new row has the next id. An existing single match changes nothing. A price that does not convert, or several matches, raises. |
| Reconcile.StepFollowsLookup | main.py:48-60 | The iteration with the lookup awaited follows the lookup rule for every table and every item, with keys read by `convert_price_to_int`. |
| Reconcile.StepAsWritten | main.py:48-54 | With the execute not awaited, every item raises. Items whose price converts raise at the lookup; the others raise in `convert_price_to_int` with their price. |
| Reconcile.Run | main.py:47-60 | A pass never shrinks the table, and a stop is at one of the items. |
| Reconcile.RunAppendsOnly | main.py:47-60 | The table before a pass is a prefix of the table after it: rows are only appended, never changed or removed. |
| Reconcile.RunStopSticks | main.py:47-49 | Once an item has raised, the items after it change nothing. |
| Reconcile.RunStopped | main.py:47-60 | A stopped pass keeps exactly the rows committed by the items before the failing one, and that item's iteration is the one that raised. |
| Reconcile.RunAsWrittenStoresNothing | main.py:47-54 | As written, a pass never changes the table, and a pass over at least one item stops at the first item. |
| Reconcile.LookupNotAwaitedLosesFirstInsert | main.py:52-60 | One priced bath on an empty table: as written the pass raises and stores nothing. As intended it stores the bath with id 1. |
| Reconcile.PriceNotNumericStopsThePass | main.py:47-60 | Items "Bath A" (1 000 р), "Bath B" (N/A) and "Bath C" (2 500 р) on an empty table: the pass stores only "Bath A" and stops at the second item. |
| Reconcile.NoDuplicatesLookup | main.py:54 | In a table without duplicate keys the lookup never raises. |
| Reconcile.InsertIsFresh | main.py:54-59 | An iteration following the lookup rule inserts only the item's key, only when no row holds it, and with the next id. |
| Reconcile.PassKeepsNoDuplicates | main.py:52-60 | For any iteration following the lookup rule: a table without duplicate (name, cost) pairs has none after a pass, even when an item repeats. |
| Reconcile.StepFailsOnlyWithoutKey | main.py:49-54 | On a table without duplicates, an iteration following the lookup rule raises exactly for a price that does not convert, with that price as the error. |
| Reconcile.PassStopsAtFirstBadPrice | main.py:47-49 | For any iteration following the lookup rule, on a table without duplicates: a pass runs to the end exactly when every price converts. Otherwise it stops at the first price that does not. |
| Reconcile.CompletedPassStoresEachItemOnce | main.py:52-60 | For any iteration following the lookup rule: after a pass that runs to the end, each item's (name, cost) is held by exactly one row. |
| Reconcile.SecondPassInsertsNothing | main.py:47-60 | For any iteration following the lookup rule: a second pass over the same items, on the table the first pass left, returns exactly the first pass's result. It inserts nothing and ends as the first pass ended, at the same item if that one stopped. |
| Reconcile.ProcessedItemIsStored | main.py:54-60 | For any iteration following the lookup rule: every item the pass got past is in the table afterwards. |
| Reconcile.PricedKeys | main.py:48-49 | A key is listed exactly when some item has that name and a price that converts to that cost. |
| Reconcile.NewKeys | main.py:56 | A key is new exactly when it is scraped and the table did not hold it. |
| Reconcile.NewKeyStep | main.py:54-59 | One more item that does not raise appends its key exactly when it is new, so the appended keys stay the new keys in order. |
| Reconcile.PassAppendsNewKeysInOrder | main.py:56-59 | For any iteration following the lookup rule: a completed pass appends one row per new key, at the key's first appearance, in item order. |
| Reconcile.AppendedIdsAreConsecutive | main.py:57-60 | For any iteration following the lookup rule: appended rows get consecutive ids starting at the table's next id, and the next id moves up by the number appended. |
| Reconcile.NextIdAfterInsert | main.py:57-60 | Inserting a row with the next id moves the next id up by one. |
| Reconcile.ItemKey | main.py:48-49 | An item has no key exactly when its price has no digit or more than 4300 digits. Otherwise the key is the item's name and the value of the price's digits. |
| Reconcile.Pass | main.py:47-60 | The pass with the lookup awaited only appends rows. When it runs to the end, every item's price converts and its (name, cost) is held by exactly one row. |
| Reconcile.PassAsWritten | main.py:47-54 | The pass as written leaves the table as it was, and over at least one item it stops at the first item. |
| Reconcile.Round | main.py:46-60 | A round only appends. A scrape that raises (`Aborted`), or is still running when the page budget runs out (`OutOfPages`), never reaches the pass, and the table stays as it was. A scrape that finishes is followed by the pass over its products, and the round ends with that pass's table and outcome. |
| Reconcile.PriceTable.Add | main.py:57-60 | Adding and committing appends one row with the next id. |
| Reconcile.PriceTable.ReconcilePass | main.py:47-60 | The loop leaves the table and outcome that `Pass` specifies. |
| Reconcile.PriceTable.RunRound | main.py:46-60 | One round scrapes and then reconciles, as `Round` specifies. |

## Left out

- Fetching pages over HTTP (`requests.get`, Parser.py:7). Pages are given as a map from URLs to pages. A request that raises is a URL missing from the map. `requests.get` does not raise on an error status, so such a page is just another entry.
- HTML parsing (BeautifulSoup, Parser.py:9-11, 15-16, 24). A page is already a list of containers and anchors in document order. `find` is taken to return the first match.
- Catalog.Walk: the source has no bound on the number of pages. The page budget is only a device of the model. `OutOfPages` means the real loop would still be running.
- The database engine, session and table creation (main.py:17-37), and the internals of commit and refresh. The table is a sequence of rows. A commit appends a row with SQLite's next rowid.
- Reconcile.NextId: does not model SQLite's random id choice once the largest id is 2^63 - 1.
- Reconcile.Step: does not model the driver's overflow error for a cost above 2^63 - 1. Costs are unbounded integers, as Python's `int` is.
- The CRUD routes and the `/start_parser` wiring (main.py:63-108). They are thin pass-throughs to the database and web framework. Rows they create can break the no-duplicates property, which is why the lemmas that need it take it as a precondition.
- The `while True` loop, `asyncio.sleep`, `run_in_threadpool` and the prints (main.py:44-46, 50, 61). One round is modelled (`Reconcile.Round`).
- Concurrency: the CRUD routes could interleave with a pass on the same table. The model runs a pass alone.
- Notification of live subscribers: the source has no code for it.
- Unicode: only the ASCII digits '0'..'9' count as digits. Only ASCII whitespace (space, tab through carriage return, and 0x1C-0x1F) is stripped.

## Findings

| source | as written | input that shows it | evidently intended | confidence | as-written member | corrected member |
|---|---|---|---|---|---|---|
| main.py:53-54 | `session.execute(statement)` is not awaited on an async session, so `.scalar_one_or_none()` is called on a coroutine and raises `AttributeError` | one item ("Bath A", "1 000 р.") on an empty table: the pass raises before any insert, and the table stays empty | await the query, then insert when no row matches | high; from reading the code, not executed | Reconcile.LookupNotAwaitedLosesFirstInsert | Reconcile.Step |
