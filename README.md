# Indexed pages checker: a verified model of its core

The script compares the pages a site lists in its sitemaps with the pages that
the Google Search Console search-analytics API reports for it. This model covers
the three pieces of logic inside that script:

- **The sitemap collector** `get_sitemap_links`, in `sitemap.dfy` (module
  `Sitemap`). The collector fetches a sitemap URL. On status 200, with a body
  that parses, it keeps the `<loc>` texts that do not contain `wp-content`. It
  recurses into every kept loc whose last three characters are `xml`, and
  appends every other kept loc to one list. That list is the function's mutable
  default argument, so all nested calls and all later top-level calls share it.
  The class `Collector` holds that list as its field `links`. The method
  `GetSitemapLinks` updates the field in a loop, as the source does. Its
  contract ties the new list to the specification function `Visit`, and the
  lemmas prove the collector's properties about `Visit`. HTTP and XML parsing
  together are an oracle `Web` from a URL to a status and a parsed document.
- **The row mapping in `query`**, in `search_analytics.dfy` (module
  `SearchAnalytics`). Each row of the API response becomes a record (a `map`,
  as the Python dict is). The record maps every requested dimension name to
  the row's key at the same position, then adds `clicks`, `impressions`, `ctr`
  (as a percentage) and `position`, the last two rounded to two decimals. The
  method `Query` keeps the source's two nested loops. Its two error paths are
  modelled:
  - a response without `rows` raises `KeyError`;
  - a row with fewer keys than dimensions raises `IndexError`.
- **The reconciliation in the main block**, in `reconcile.dfy` (module
  `Reconcile`). This part is pure, so it is functions and lemmas:
  - the pandas right join of the analytics table onto the sitemap pages;
  - the zero-click rows, sorted by impressions in descending order;
  - the union, intersection and the two differences of the page sets.

`wrappers.dfy` holds the `Option` and `Result` datatypes.

The source has no depth or cycle guard in the collector. The model gives every
call a `fuel` bound, the number of sitemap levels it may still fetch. A call
with no fuel left abandons its node, as a failed fetch does. `FuelAdequate`
proves that once the fuel covers the depth of the sitemap tree, more fuel
changes nothing.

Three details of the code decide what the model states:

- **Sitemap test.** The code compares `link[-3:]` with the bare suffix `xml`
  (main.py:33), not `.xml`, so `https://x/feedxml` is also crawled.
- **Sort.** `sort_values` uses pandas' default sort (main.py:103), which is not
  stable. The model claims only a permutation in non-increasing order of
  impressions, with missing values last.
- **Not-indexed pages and index bloat.** Both are taken from `all_links`
  (main.py:114, main.py:122). `Reconcile.MainBlock` proves that they equal the
  plain differences of the sitemap pages and the reported pages.

## Model

| member | source | states |
|---|---|---|
| Sitemap.Contains | main.py:25 | Python's substring test `sub in s`: some prefix of a suffix of `s` equals `sub`. |
| Sitemap.ContainsSlice | main.py:25 | `sub in s` holds exactly when `sub` occurs in `s` at some position. |
| Sitemap.LastThree | main.py:33 | Python's `s[-3:]`: the last three characters, or all of `s` when it is shorter; the result is a suffix of `s` of length min(3, len(s)). |
| Sitemap.KeptLocs | main.py:25 | The comprehension: the parsed locs without `wp-content`, in document order, never more than were parsed. |
| Sitemap.Visit | main.py:21-38 | What one call appends: nothing when it has no fuel, the status is not 200 or the body does not parse; otherwise what the loop over the kept locs appends. |
| Sitemap.Step | main.py:33-36 | What one loop iteration appends: the nested call's pages for a loc ending in `xml`, otherwise the loc itself. |
| Sitemap.Walk | main.py:32-36 | What the loop over a list of links appends: each link's contribution, in order. |
| Sitemap.SitemapLinkIsSuffix | main.py:33 | A loc is crawled as a sitemap exactly when Python's `link[-3:]` equals `xml`, that is, exactly when it has at least three characters and ends in `xml`; a shorter loc is always appended. |
| Sitemap.KeptLocsMembers | main.py:25 | The locs that survive the comprehension are exactly the parsed locs that do not contain `wp-content`. |
| Sitemap.Collector.constructor | main.py:19 | The default list starts empty. |
| Sitemap.Collector.GetSitemapLinks | main.py:19-41 | The shared list becomes its old contents followed by what `Visit` collects, so earlier contents stay a prefix. The call returns nothing exactly when it has no fuel, the status is not 200 or the body does not parse, and then the list is unchanged. Otherwise it returns the whole shared list. |
| Sitemap.CollectTwice | main.py:19 | Two top-level calls share the default list: the second result is the first call's pages followed by the second call's. |
| Sitemap.WalkSnoc | main.py:32-36 | One more loop iteration appends what that link yields after what the earlier links yielded. |
| Sitemap.WalkExtends | main.py:32-36 | Appending what the `i`-th link yields keeps the list equal to its start plus the walk over the first `i + 1` links. |
| Sitemap.VisitPages | main.py:25-36 | Nothing a call appends contains `wp-content` or ends in `xml`. |
| Sitemap.WalkPages | main.py:32-36 | Over kept locs, the loop appends nothing that contains `wp-content` or ends in `xml`. |
| Sitemap.VisitReaches | main.py:21-36 | A page is collected exactly when it is reachable: it is a kept non-sitemap loc of a fetched document, reached through kept sitemap locs from the start URL. |
| Sitemap.WalkReaches | main.py:32-36 | The loop collects a page exactly when one of its links reaches it. |
| Sitemap.WalkConcat | main.py:32-36 | The loop over two runs of links appends what the first run yields, then what the second run yields. |
| Sitemap.WalkSplitsAt | main.py:32-36 | Document order: the loop appends what the links before `i` yield, then what link `i` yields, then what the rest yield. |
| Sitemap.VisitSplitsAt | main.py:25-36 | The same document-order split for the kept locs of a fetched sitemap. |
| Sitemap.FailedChildSkipped | main.py:27-28 | A nested sitemap that fails (bad status, parse error, no fuel) adds nothing, and its siblings before and after it still contribute, in order. This also covers lines 34 and 39-41. |
| Sitemap.WalkOfPages | main.py:35-36 | A loop over locs none of which is a sitemap appends exactly those locs, in order. |
| Sitemap.FlatSitemap | main.py:25-36 | A sitemap whose kept locs are all pages contributes exactly its kept locs, in document order. |
| Sitemap.FuelAdequate | main.py:34 | Once the fuel covers the depth of the sitemap tree, more fuel collects the same pages. |
| Sitemap.WalkFuelAdequate | main.py:32-36 | The same fuel adequacy for the loop over a node's links. |
| SearchAnalytics.DimensionCells | main.py:62-63 | The dict after the first `n` iterations of the inner loop: each dimension name written, in order, with the row's key at its position, a later write of a name replacing an earlier one. |
| SearchAnalytics.RowRecord | main.py:60-68 | The dict built for one complete row: the dimension entries, then `clicks` and `impressions` copied and `ctr` and `position` rounded, each metric write replacing a dimension of the same name. |
| SearchAnalytics.Percent | main.py:67 | `row['ctr'] * 100`. |
| SearchAnalytics.Round2 | main.py:67-68 | `round(x, 2)`: the nearest multiple of 0.01 to the exact value, a tie going to the even multiple. |
| SearchAnalytics.DimensionCellsDomain | main.py:62-63 | After `n` iterations of the inner loop, the dict's keys are exactly the first `n` dimension names. |
| SearchAnalytics.DimensionCellsValue | main.py:62-63 | A dimension name that no later dimension overwrites maps to the row's key at the same position. |
| SearchAnalytics.RowRecordContents | main.py:60-68 | A record's keys are the dimension names and `clicks`, `impressions`, `ctr`, `position`. Clicks and impressions are the row's, unchanged. `ctr` is the rounded percentage and `position` is rounded. A dimension not overwritten by a later dimension or a metric maps to its key. |
| SearchAnalytics.Round2Nearest | main.py:67-68 | `round(x, 2)` gives a whole number of hundredths within half a hundredth of `x`. |
| SearchAnalytics.Records | main.py:57-70 | A pass that raises nothing yields one record per row. |
| SearchAnalytics.RecordsAt | main.py:59-70 | The `k`-th record is the record of the `k`-th row, so the records are in row order. |
| SearchAnalytics.RecordsSnoc | main.py:70 | Appending one more row's record extends the result by exactly that record. |
| SearchAnalytics.Query | main.py:54-72 | A response without `rows` fails with the `KeyError`. If every row has a key per dimension, the result is one record per row, in order. Otherwise it fails with the `IndexError` at the first row whose keys are too short, all earlier rows being complete. |
| SearchAnalytics.PageRecord | main.py:63 | With the script's single dimension `page`, each record's `page` is the row's first key. |
| Reconcile.Pages | main.py:106 | `tolist()` keeps one page per analytics row, in table order. |
| Reconcile.Matches | main.py:97 | The matches of a page are joined rows of analytics rows about that page, and there are none exactly when no row reports the page. |
| Reconcile.JoinEntry | main.py:97 | The rows the right join produces for one sitemap entry: every matching analytics row joined, in table order, or one row without metrics exactly when no analytics row reports the page; never none. |
| Reconcile.NoClicks | main.py:102 | `clicks < 1` on a joined row: true when the clicks are present and below one, false when they are missing (NaN). |
| Reconcile.AtLeast | main.py:103 | The order of `sort_values(by='impressions', ascending=False)`: more impressions first, rows with missing impressions after every row that has them. |
| Reconcile.RightJoin | main.py:97 | Every joined row is about a sitemap page. A row without metrics is about a page that no analytics row reports. A row with metrics is the join of an analytics row. |
| Reconcile.RightJoinKeepsSitemap | main.py:97 | The right join keeps every sitemap entry, reported or not. |
| Reconcile.Lookup | main.py:97 | The metrics found for a page are absent exactly when no analytics row reports it, and otherwise come from a row about that page. |
| Reconcile.MatchesOfDistinct | main.py:97 | With distinct analytics pages, a page matches its one row or nothing. |
| Reconcile.RightJoinOnePerEntry | main.py:97 | With distinct analytics pages, the join has one row per sitemap entry, in sitemap order, carrying that page's metrics or none. |
| Reconcile.FilterNoClicks | main.py:102 | The filter keeps, with their multiplicity, exactly the rows whose clicks are present and below one; a missing value compares false. |
| Reconcile.DescendingAllPairs | main.py:103 | In the sorted rows, every row has at least the impressions of every later row. |
| Reconcile.Insert | main.py:103 | Inserting a row into sorted rows keeps them sorted and adds exactly that row. |
| Reconcile.SortByImpressions | main.py:103 | The sort is a permutation of its input, non-increasing in impressions, with missing values last. |
| Reconcile.ZeroClickRows | main.py:102-103 | The zero-click view holds exactly the selected rows, with multiplicity, sorted by impressions. |
| Reconcile.MainBlock | main.py:97-122 | `all_links` is the union and `shared_links` the intersection of the two page sets. `not_indexed` is the sitemap pages minus the reported pages, and `index_bloat` the reported pages minus the sitemap pages. The zero-click view holds exactly the selected rows of the join, sorted. |
| Reconcile.SetOfConcat | main.py:107 | The set of the concatenated lists is the union of their sets. |
| Reconcile.ReconcilePartitions | main.py:106-122 | The not-indexed and shared pages partition the sitemap pages. The index bloat and shared pages partition the reported pages. `len(all_links)` counts the shared pages once. |
| Reconcile.SetAlgebra | main.py:107-122 | Differences taken from the union are the plain differences, each side splits into its difference and the intersection, and the union's size is the sum less the intersection's. |
| Reconcile.ScenarioSets | main.py:106-122 | Sitemap pages a, b, c and reported pages b, c, d give not-indexed {a}, index bloat {d}, shared {b, c} and four links in all. |
| Reconcile.ZeroClickSelection | main.py:97-103 | With distinct analytics pages, a sitemap entry's row is in the zero-click view exactly when the entry is reported with fewer than one click. |

## Left out

- The HTTP request and the XML parser (main.py:20, main.py:24) form the oracle `Web`. Exceptions that `requests.get` raises, such as a connection error, are not modelled. The bare `except` is modelled only as a parse failure.
- The printed messages and tables, `DataFrame` construction, `to_csv` and `date.today()` are I/O and are left out. The status printed at line 40 is left out with them.
- `auth_service`, the API call in `query` and `service.sites().list()` are left out. `Query` takes the API response as a parameter.
- Sitemap.Collector.GetSitemapLinks: the source recurses without a bound, so a cycle of sitemaps, or a very deep tree, ends at CPython's recursion limit with a `RecursionError`. Raised inside `requests.get` (main.py:20), which is outside the `try`, the error escapes through the loop at main.py:32-36: that loop is in the `try`'s `else` block, which the `except` at main.py:27 does not cover, so the whole crawl aborts. Raised inside the BeautifulSoup call at main.py:24, the bare `except` swallows it, that node is abandoned, and the crawl ends with the cycle's pages collected once per level. The model does not model the recursion limit: it stops at `fuel` levels, and `FuelAdequate` covers only sitemap trees within that depth.
- Sitemap.Collector.GetSitemapLinks: the source returns the shared list itself, so later calls also change a list returned earlier. The model returns a copy of the list's value at return time.
- The failed root call returns `None`, and `len(None)` at line 81 then raises. The main block's use of the collector's result is not modelled; `MainBlock` takes the collected page list as a parameter.
- SearchAnalytics.Round2Nearest: floats are modelled as exact reals. `round(x, 2)` rounds the exact value half to even, not the binary double.
- The `ctr` and `position` columns are not carried into the join and zero-click rows, because neither the filter nor the sort uses them.
- Reconcile.SortByImpressions: only a permutation in non-increasing order is claimed. pandas' default sort is not stable, so the order of equal rows is not modelled.
- The order of the lists built with `list(set(...))` is unspecified in Python, so those lists are sets here.
- `FilterNoClicks` keeps a row when its clicks are below one. A missing value (NaN) compares false, so rows without metrics are never selected.
