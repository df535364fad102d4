# Price catalog scraper: a verified model

The system scrapes one catalog page of an online shop and pairs each product
name with its price text. It turns each price text into an integer and stores
each product it has not seen before in a table of `(id, name, cost)` rows. A
small HTTP API lists, reads, creates, updates and deletes rows of that table.

This project models the parts of that system that have behaviour of their own.
Each is written in Dafny and its properties are proved:

- **Digits** (`digits.dfy`) — the ASCII digit filter. The scraper applies it
  to price texts (`str.isdigit`) and the normaliser applies it again
  (`re.sub(r"\D", "", …)`). The module also holds the base-10 value of a digit
  string and the decimal rendering of a number, which that value inverts.
- **Normalize** (`normalize.dfy`) — `clean_price`. It returns the value of the
  digits, or `ValueError` when there are none, because `int("")` raises.
- **Store** (`store.dfy`) — the `prices` table. The rows are kept in ascending
  id order, the order in which SQLite scans a table keyed by an integer primary
  key. `Catalog` is a class whose `records` field the write handlers and
  `add_item` reassign:
  - new ids follow SQLite's rule: one more than the largest id, or 1 in an
    empty table;
  - the read handlers are pure functions over the rows;
  - a 404 is the `NotFound` error;
  - a commit that the database rejects because the primary key is taken is the
    `DuplicateId` error.
- **Parser** (`parser.dfy`) — `process_page` and `get_page`:
  - a fetched page is reduced to the texts of its name elements and of its
    price elements, in document order;
  - fetching a URL is a function parameter;
  - `get_page` passes the same URL on every round, whatever the page number.
- **Ingest** (`ingest.dfy`) — one pass of the background task:
  - it scrapes the page, normalises each price, skips an item whose price
    raises `ValueError`, and passes every other item to `add_item`;
  - the pass is a loop method over the `Catalog`, proved against the pure
    function `Ingested`.

Behaviour that follows from details of the code:

- Fewer price elements than name elements does not truncate the pairing.
  `process_page` yields one item per price element and then raises
  `IndexError`. The generator is lazy, so the background loop has already
  stored the yielded items when the error arrives. The loop catches only
  `ValueError`, so the `IndexError` ends the pass and with it the background
  task. `IngestPass` reports this as `aborted`.
- Surplus price elements are never read.
- A row sent to `create_item` or `update_item` may carry an `id`. An update
  may therefore move a row to a new id. If that id, or a created row's id, is
  already taken, the write fails with `DuplicateId`.
- `read_prices` follows SQLite's `LIMIT`/`OFFSET` rules. A negative offset
  counts as 0, and a negative limit means no limit.

## Model

| member | source | states |
|---|---|---|
| `Digits.Filter` | parser.py:24 | the result holds only decimal digits and is no longer than the input |
| `Digits.FilterEmpty` | main.py:58-59 | filtering leaves nothing exactly when the text holds no digit, which is when `int` is handed `""` |
| `Digits.FilterAppend` | parser.py:24 | filtering a concatenation is concatenating the filtered parts, so digits keep their original order |
| `Digits.FilterIdempotent` | parser.py:24 | filtering already-filtered text returns it unchanged |
| `Digits.ValueAppend` | main.py:58-59 | the value of digits `a + b` is the value of `a` shifted left by `|b|` decimal places plus the value of `b` |
| `Digits.ValueOfDecimal` | main.py:59 | reading a number's decimal rendering gives the number back |
| `Digits.DecimalOfValue` | main.py:59 | rendering the value of a digit string without a superfluous leading zero gives the string back |
| `Normalize.CleanPrice` | main.py:57-59 | succeeds exactly when the text holds a decimal digit; otherwise fails with `ValueError`; a result is never negative |
| `Normalize.CleanPriceRendersDigits` | main.py:57-59 | a normalised price printed in decimal is the text's digits in order, less leading zeros |
| `Normalize.CleanPriceOfDecimal` | main.py:57-59 | a number printed between two digit-free texts normalises back to that number |
| `Normalize.DigitConcatenation` | main.py:58-59 | digits separated by any characters are concatenated, not read as a decimal fraction or as separate numbers |
| `Normalize.CleanPriceOfFiltered` | main.py:58 | normalising a digit-filtered text gives the same result as normalising the original |
| `Normalize.CleanPriceSeparated` | main.py:57-59 | `"1 234 ₽"` normalises to 1234 |
| `Normalize.CleanPriceFraction` | main.py:57-59 | `"12.50"` normalises to 1250 |
| `Normalize.CleanPriceNoDigits` | main.py:57-59 | `""` and `"abc"` fail with `ValueError` |
| `Store.NextId` | main.py:24 | a row inserted without an id gets an id larger than every id in the table; that id is 1 in an empty table and otherwise one more than an existing id |
| `Store.AscendingDeterminedByRows` | main.py:83 | two id-ordered tables that hold the same rows are equal, so the row order is fixed by the contents |
| `Store.FindByName` | main.py:46 | returns nothing exactly when no row has the name; otherwise the first row in table order with that name |
| `Store.IndexOf` | main.py:88 | finds a position exactly when some row has the id, and the row there has that id |
| `Store.Page` | main.py:81-83 | the rows from position `offset` (0 when negative), at most `limit` of them (all when negative), in table order |
| `Store.DefaultPage` | main.py:81-83 | without query parameters the handler returns the first 100 rows in table order, or all rows when there are fewer |
| `Store.PagesJoin` | main.py:81-83 | the page at `(offset, k)` followed by the page at `(offset + k, m)` is the page at `(offset, k + m)`, so consecutive pages miss no row |
| `Store.PagesDisjoint` | main.py:83 | pages whose position ranges do not overlap share no id, so `(0, k)` and `(k, k)` never repeat a row |
| `Store.Get` | main.py:86-91 | returns a row with the requested id exactly when one exists; otherwise `NotFound` |
| `Store.AddIfAbsent` | main.py:45-54 | an existing name leaves the table unchanged. A new name appends exactly one row with that name, that cost and an unused id, and keeps every earlier row as it was. The name is present afterwards |
| `Store.AddIfAbsentKeepsNamesUnique` | main.py:46-51 | if no two rows shared a name before, none do afterwards |
| `Store.AddIfAbsentIdempotent` | main.py:45-54 | adding a title twice, whatever the second price, gives the table that adding it once gives |
| `Store.InsertSorted` | main.py:109-111 | the table gains exactly the new row and stays in id order |
| `Store.RemoveAt` | main.py:120-121 | exactly the row with the removed id is gone; the table stays in id order |
| `Store.Apply` | main.py:99-100 | each field present in the patch overwrites the stored field; each absent field keeps its value |
| `Store.ApplyUnchanged` | main.py:99-100 | a patch leaves a row unchanged exactly when every field it carries already has that value |
| `Store.ApplyIdempotent` | main.py:99-100 | applying a patch twice is applying it once |
| `Store.UpdateInPlace` | main.py:100-103 | an update that keeps the id leaves the row at its position and every other row untouched |
| `Store.GetReturnsStoredRow` | main.py:86-91 | after a create or an update, reading the row's id returns that row with the same fields |
| `Store.GetAfterDelete` | main.py:115-122 | after a delete, reading the deleted id answers `NotFound` |
| `Store.CreateAllowsDuplicateName` | main.py:107-112 | creating a row under a name that is already stored, with any free id (the request's own or the next one), leaves two rows with that name |
| `Store.Catalog.constructor` | main.py:41-42 | the table opens holding its existing rows, in id order |
| `Store.Catalog.AddItem` | main.py:45-54 | the new table is `AddIfAbsent` of the old one, and stays in id order |
| `Store.Catalog.Create` | main.py:107-112 | a taken id fails with `DuplicateId` and leaves the table unchanged. Otherwise the table gains exactly the request's row, under its own id or the next free one, with no name check |
| `Store.Catalog.Update` | main.py:94-104 | an absent id answers `NotFound` with the table unchanged. Otherwise the patched row replaces the old one and every other row is kept. Moving onto a taken id fails with `DuplicateId` and changes nothing |
| `Store.Catalog.Delete` | main.py:115-122 | an absent id answers `NotFound` with the table unchanged. Otherwise exactly that row is removed, every other row is kept, and the answer is `ok: true` |
| `Parser.ProcessPage` | parser.py:13-29 | yields `min(|names|, |prices|)` items, and item `i` is name `i` with the digits of price text `i`. It raises `IndexError` exactly when there are fewer price texts than names. Surplus price texts are ignored |
| `Parser.ScrapedPricesAreDigits` | parser.py:24 | every yielded price consists of decimal digits only |
| `Parser.RepeatIndex` | parser.py:6-10 | position `r` of the `q`-th copy of a page's items is item `r` of that page |
| `Parser.RepeatFirst` | parser.py:6-10 | with at least one round, the rounds' items are the first round's items followed by items of that same page |
| `Parser.RepeatMembers` | parser.py:6-10 | every item of `n` copies of a page's items is an item of that page |
| `Parser.RepeatLength` | parser.py:6-10 | `n` copies of a page's items hold `n` times as many items |
| `Parser.PagesFrom` | parser.py:6-10 | each round from `pageNum` to `pages` fetches the same base URL. The result is that page's items once per round, or the first round's items followed by its `IndexError` |
| `Parser.GetPage` | parser.py:5-10 | yields `pages` copies of the one page's items, nothing when `pages` is not positive, and the first copy followed by `IndexError` when that page has too few prices |
| `Parser.DefaultGetPageScrapesOnce` | parser.py:5 | the default call scrapes the catalog page exactly once |
| `Ingest.Step` | main.py:68-72 | an item whose price has no digit leaves the table unchanged. Otherwise the item's title is a stored name afterwards. Earlier rows are kept and the id order holds |
| `Ingest.Ingested` | main.py:67-72 | the pass keeps every existing row unchanged and in place; it only appends, and the id order holds |
| `Ingest.IngestedAppend` | main.py:67 | handling `a` and then `b` is handling `a + b` |
| `Ingest.IngestedSnoc` | main.py:67-72 | handling one more item is one more `Step` on the table the earlier items left |
| `Ingest.IngestedNames` | main.py:67-72 | the names afterwards are the names before plus the titles of the items whose price has a digit |
| `Ingest.IngestedKeepsNamesUnique` | main.py:67-72 | a pass never introduces a duplicate name |
| `Ingest.IngestedKnownTitles` | main.py:67-72 | a pass over items whose titles are all stored changes nothing |
| `Ingest.IngestedIdempotent` | main.py:66-72 | a second pass over the same items leaves the table exactly as the first did, so no count or cost changes |
| `Ingest.IngestedSkipsDigitFree` | main.py:68-72 | an item without a digit in its price is skipped, and the items after it are handled as if it were absent |
| `Ingest.IngestedCosts` | main.py:67-72 | every added row has a name that was not stored before, and the cost of the first item with that name whose price normalises |
| `Ingest.ScrapedPriceNormalizes` | main.py:69 | a scraped price normalises exactly as its original price text would, and fails only when it is empty |
| `Ingest.IngestedRepeatedItems` | main.py:67-72 | items that all occurred earlier in the pass change nothing more |
| `Ingest.IngestedRepeat` | main.py:65-72 | a pass over `n >= 1` copies of the same items stores exactly what a pass over one copy stores |
| `Ingest.IngestedGetPage` | main.py:65-72 | for any `pages >= 1`, a pass over `get_page` output stores what a pass over one scrape of the page stores |
| `Ingest.HandleItems` | main.py:66-72 | after the loop the table is `Ingested` of the table before, in id order |
| `Ingest.IngestPass` | main.py:62-73 | one pass leaves the table as `Ingested` of the old table and the scraped items. It reports an abort exactly when the page has fewer price texts than names |

## Left out

- HTTP routing, request parsing and response serialisation, the dependency-injected session and the `lifespan` hook are not modelled. A 404 is the `NotFound` error and nothing more.
- Request-body validation is not modelled, so which fields the web framework demands in a `Prices` body is not captured. `Catalog.Create` takes an optional id, and `Catalog.Update` accepts any subset of the three fields.
- The SQLite engine, sessions, commits, refreshes and table creation are not modelled. The table is an in-memory sequence, and storage failures other than a taken primary key are not modelled.
- Store.NextId: does not model SQLite's fallback to a random unused id once the largest id reaches 2^63 - 1, because ids are unbounded here.
- Ids and costs are unbounded integers. A cost or id that does not fit SQLite's 64-bit `INTEGER` would make the write fail, and that failure is not modelled.
- Normalize.CleanPrice: treats only ASCII `0`–`9` as digits. Python's `\d` also accepts other Unicode digits, and those are not modelled.
- Digits.Filter: keeps only ASCII `0`–`9`. The scraper's `str.isdigit` also accepts other Unicode digits and superscripts, so `Parser.ProcessPage` does not model those either.
- Normalize.CleanPrice: does not model the limit on the number of digits that recent Python versions impose in `int()`, which raises `ValueError` for very long digit strings.
- The asyncio task, the thread-pool hand-off, the endless `while True` and the 12-hour sleep are not modelled. Only one pass is modelled.
- An aborted pass ends the background task for good, so no later pass runs; the model records the abort only as `aborted` and does not model the task's end.
- Interleaving of API writes with an ingestion pass is not modelled: the model is sequential.
- The uniqueness of names is proved only for sequential calls through `add_item`.
- The network fetch and the HTML parsing are not modelled. A page is given as its name texts and price texts. The name text is the text of the `span[itemprop=name]` inside each name element, and a missing span (an `AttributeError`) is not modelled. A fetch failure is not modelled either.
- Parser.GetPage: `fetch` is a function, so every round of one call sees the same page content. Real repeated requests to one URL could return different pages.
- `print` logging, the unused `PRICES_DB` list and the module-level `get_page(url)` call in parser.py are not modelled.
