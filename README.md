# Product search scraper: a Dafny model of its pipeline

This project models the product-search scraper in `deps32.py`. The model
covers how the scraper collects product links from the paginated result
listing of each query. It covers how each product page becomes a flat record
of specification fields, and how the records are merged, in the order the
extraction tasks complete, into one map `specs` from product title to record.

The browser is treated as data rather than as calls:

- a listing page is a `Listing.PageVisit`: navigating to it fails, listing
  its result containers fails, or it yields the containers. Each
  `Listing.Container` has an anchor lookup that fails or finds an anchor
  whose href may be absent;
- a product page is a `Product.ProductPage`: an optional title (`None` when
  any step of deps32.py:34-40 raises: navigating to the link, the 10-second
  wait for the title element, or reading its text; each reaches the handler
  at deps32.py:79 and gives `(None, None)`), two optional specification tables (rows whose
  `th`/`td` cells may be missing) and an optional currency symbol and whole
  price part;
- a query is an `Aggregate.Query`: its listing pages, what the task for the
  i-th collected link meets (`Crashed` when its driver cannot start, or the
  page it loads), and the completion order, a permutation of the submission
  indices. `Aggregate.WellFormed` requires one task per collected link and
  such a permutation. This is what the thread pool guarantees; it is not a
  demand on callers of the source.

Modules: `Wrappers` (Option), `Listing` (link collection, deps32.py:101-137),
`Product` (record assembly, deps32.py:28-83), `Aggregate` (completion-order
merge and the loop over queries, deps32.py:86-168). Each loop of the source
is a method proved against a specification function: `Listing.CollectLinks`
against `Listing.Collected`, `Listing.ScanPage` against `Listing.PageHrefs`,
`Product.ReadTable` against `Product.Apply` of `Product.Entries`,
`Product.ScrapeSingleProduct` against `Product.Scrape` (which uses
`Product.Assemble`), `Aggregate.MergeBatch` against `Aggregate.MergeAll` of
`Aggregate.BatchOutcomes`, and `Aggregate.AmazonSearcher` against
`Aggregate.Search`. The lemmas state what the
source promises about those functions.

Four behaviours of the code are easy to miss:

- The first navigation of each query (deps32.py:106) is outside any
  `except` handler: the `try` of deps32.py:100 has only a `finally`. A fault
  there escapes `amazon_searcher` and discards every result, so
  `CollectLinks` returns `None` and `Search` returns `None`.
- A fault on a later page, or on scanning any page, stops collection and
  keeps the links gathered so far (deps32.py:132-134). Running out of the
  finite page sequence counts as such a fault. The code has no stall counter,
  and the model adds none.
- The price is `symbol + " " + whole`, with a space (deps32.py:73), or
  `"N/A"`.
- The merge (deps32.py:154) skips a result whose title text is the empty
  string, even though the extraction succeeded.

## Model

| member | source | states |
|---|---|---|
| `Listing.CollectLinks` | deps32.py:101-137 | Returns None exactly when the first navigation raises. Otherwise returns the first 50 non-empty hrefs of the pages before the first failing page, in page and container order. |
| `Listing.ScanPage` | deps32.py:113-120 | Scanning a page appends exactly that page's non-empty hrefs, in container order, to the links so far. |
| `Listing.Take` | deps32.py:137 | The truncation has at most n elements and is a prefix of its input. It is the whole input when the input is short and exactly n elements otherwise. |
| `Listing.CollectedShape` | deps32.py:109-137 | The collected links number at most 50 and are a prefix of the in-order hrefs of the visited pages. None is empty. There are exactly 50 when the visited pages hold at least 50. |
| `Listing.PageHrefsMembers` | deps32.py:113-118 | A link is collected from a page iff it is non-empty and some container on the page has it as its href. |
| `Listing.PageHrefsAppend` | deps32.py:113-118 | The links of a concatenation of containers are the concatenation of their links. |
| `Listing.SkippedContainer` | deps32.py:113-120 | A container whose anchor lookup fails or whose href is absent or empty contributes nothing, and the scan continues past it. |
| `Listing.PageHrefsNonEmpty` | deps32.py:116-118 | No link collected from a page is the empty string. |
| `Listing.HarvestableNonEmpty` | deps32.py:109-131 | No link collected from the pages before the first fault is the empty string. |
| `Listing.StopsAtFault` | deps32.py:132-134 | Pages after the first failing page are never read. |
| `Listing.FaultKeepsGathered` | deps32.py:124-134 | When a page fails and fewer than 50 links came before it, every one of those links is returned. |
| `Product.TableEntriesShape` | deps32.py:48-53 | A table's entries are the header and data cells of its leading complete rows, in order. The row after them, if any, is the one missing a cell. |
| `Product.AbandonedTable` | deps32.py:48-53 | A row missing its th or td ends that table. All rows before it are written and none after it. |
| `Product.ReadTable` | deps32.py:45-64 | Reading a table writes its entries into the record in row order. A missing table changes nothing. |
| `Product.Assemble` | deps32.py:42-75 | The record maps product_link to the input link. It has a price: symbol, a space and the whole part when both are found, "N/A" otherwise. Both hold whatever the tables contain. |
| `Product.ScrapeSingleProduct` | deps32.py:28-83 | A failed title wait yields (None, None). Otherwise the result is the title and the assembled record, which carries the input link and a price. |
| `Product.ApplyAppend` | deps32.py:44-64 | Writing table 1 and then table 2 is writing their concatenated entries. |
| `Product.ApplyLastWins` | deps32.py:48-62 | The value kept under a header is that of the last entry written with it. |
| `Product.ApplyUntouched` | deps32.py:48-62 | A header no entry writes keeps its earlier value or stays absent. |
| `Product.ApplyKeys` | deps32.py:48-62 | The record's keys are the earlier keys and every written header. |
| `Product.RecordSpecField` | deps32.py:44-67 | A specification field other than product_link and price holds the value of its last row, counting table 1 before table 2. |
| `Product.RecordKeys` | deps32.py:42-75 | The record's keys are exactly product_link, price and the headers of the written rows. |
| `Product.NoTables` | deps32.py:42-75 | With both tables missing, the record holds exactly product_link and price. |
| `Aggregate.BatchOutcomesAt` | deps32.py:143-153 | A batch has one outcome per completed task: the j-th outcome is that of the task for the link submitted at position order[j]. |
| `Aggregate.MergeBatch` | deps32.py:149-160 | The completion loop counts every task and merges the outcomes in completion order, as MergeAll does. |
| `Aggregate.AmazonSearcher` | deps32.py:94-168 | The search over all queries returns Search of the queries: None when some first navigation raises, otherwise the specs built query by query. |
| `Aggregate.AcceptedTask` | deps32.py:153-155 | A task's result is written iff the task ran and its title was found with non-empty text. |
| `Aggregate.MergeAllKeys` | deps32.py:150-155 | After a merge the keys are the earlier keys plus the accepted titles, so no key is ever removed. |
| `Aggregate.MergeAllLastWins` | deps32.py:150-155 | Under each title the record kept is that of the last accepted task to complete with that title. |
| `Aggregate.MergeAllUntouched` | deps32.py:150-155 | A title that no accepted result carries keeps its earlier record or stays absent. |
| `Aggregate.MergeAllSize` | deps32.py:150-155 | A merge adds at most one title per completed task. |
| `Aggregate.MergeAllLinked` | deps32.py:150-155 | Merging records that carry a link from a set and a price keeps every record in specs that way. |
| `Aggregate.BatchOutcomesLinked` | deps32.py:143-155 | Every record a batch returns carries the link of its own task and a price. |
| `Aggregate.SearchPrefix` | deps32.py:94-163 | specs grows monotonically across queries: any prefix of the queries succeeds, and its titles remain at the end. |
| `Aggregate.SearchAborts` | deps32.py:101-106 | A query whose first navigation raises ends the whole search with no result. |
| `Aggregate.SearchSize` | deps32.py:101-160 | The result holds at most 50 records per query. |
| `Aggregate.SearchLinked` | deps32.py:94-168 | Every record in the result has a price and a non-empty product_link that one of the queries collected. |

## Left out

- `get_chrome_options` (deps32.py:10-26): a fixed list of browser flags, with no logic.
- Driver creation, `driver.get`, `driver.quit`, `WebDriverWait` and the CSS/ID selectors are browser I/O. Each lookup is a value in the page data. A failing `driver.quit()` in a task's `finally` block and a failing task driver both show as `Crashed`.
- The searcher's own driver creation (deps32.py:98) and its `driver.quit()` (deps32.py:166) can raise. This is not modelled; the search is assumed to start.
- `ThreadPoolExecutor`, `as_completed` and `max_workers`: concurrency only changes the completion order, which is an input. The cap on parallel sessions is not modelled.
- Unbounded pagination: the source loops for ever while pages keep loading without reaching 50 links. The model's pages are a finite sequence, and running out counts as the caught fault.
- `print` logging, the f-string search URLs and the title slicing in log messages carry no logic.
- The FastAPI endpoint and the `time.time()` timing with `round` (deps32.py:177-197): a web framework and floating-point wall-clock values.
- Element text is taken as given: no whitespace trimming or encoding is modelled.
