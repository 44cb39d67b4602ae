# Pagination over a dataset of rows

This project models the pagination core of a small server. The server pages through a
dataset of opaque rows in three ways:

- **Offset pagination** (`0x00-pagination/1-simple_pagination.py`, module `SimplePagination`).
  - `index_range` turns a 1-indexed page number and a page size into a half-open window.
  - `Server.get_page` checks both arguments and returns the rows of that window, or no rows
    when the window starts at or past the end.
- **Hypermedia pagination, first version** (`0x00-pagination/2-hypermedia_pagination.py`,
  module `HypermediaPagination`).
  - `indexed_dataset` keys every row by its position.
  - `get_hyper_index` asserts `0 <= index <= max key`. It then walks the dict in iteration
    order and keeps up to `page_size` rows whose key is at least `index`.
  - It sets `next_index` only when the page fills.
- **Deletion-resilient hypermedia pagination** (`0x00-pagination/3-hypermedia_del_pagination.py`,
  module `HypermediaDelPagination`).
  - `get_hyper_index` checks its arguments and sorts the keys.
  - It answers an empty page when `index` is not a key.
  - Otherwise it keeps up to `page_size` rows from `index` on, in ascending key order, and
    moves `next_index` past every key it keeps.

Shared modules:

- `Wrappers`: `Option`, `Result`, and the Python exceptions involved.
  - `AssertionError(message)` for a failed `assert`.
  - `ValueError` for `max()` of an empty sequence.
  - `KeyError` for a client's `del` of a missing key.
- `Keys`: the key-sequence operations the paginators use.
  - `range`, `sorted` and `max`.
  - The filter "keys at least `index`" and prefixes.
  - Facts about ascending sequences.
- `PositionIndex`: the dict both hypermedia paginators read.
  - A Python dict is `Dict(order, rows)`: the keys in insertion order, which is the order
    iteration visits them, and the map from keys to rows. `Valid()` says every key is listed
    exactly once.
  - `Remove(d, k)` is Python's `del d[k]`. `Deleted(dataset, k)` is the index after a client
    runs `del index[k]`.
  - `HyperPage` is the dict a hypermedia request returns.

Each hypermedia `get_hyper_index` is modelled three ways:

- a specification function `HyperIndexOf`;
- a method `HyperIndex` over any well-formed dict, with the source's checks and its scanning
  loop (`Scan`), proved equal to `HyperIndexOf`;
- `Server.GetHyperIndex`, which adds the `indexed_dataset` cache. The cache holds the dict
  by reference, so deletions that clients make through it reach later requests.

Python's `int` is unbounded, like Dafny's, so no wrap-around is modelled. Python's `/` never
occurs in the source. `WindowMembership` uses Dafny's `/` only on non-negative operands, where
it agrees with Python's `//`.

## Model

| member | source | states |
|---|---|---|
| SimplePagination.IndexRange | 0x00-pagination/1-simple_pagination.py:8-20 | the window is exactly `page_size` wide, and it starts at or after 0 when `page >= 1` and `page_size >= 0` |
| SimplePagination.IndexRangeTiles | 0x00-pagination/1-simple_pagination.py:18-19 | the window of page `p` ends where the window of page `p + 1` starts |
| SimplePagination.WindowMembership | 0x00-pagination/1-simple_pagination.py:18-19 | a position lies in page `p`'s window exactly when it falls on page `p` after cutting the rows into blocks of `page_size` |
| SimplePagination.GetPage | 0x00-pagination/1-simple_pagination.py:47-70 | `page <= 0` fails with "Page must be a positive integer"; then `page_size <= 0` fails with "Page size must be a positive integer"; otherwise the result has `min(page_size, len - start)` rows (none when `start >= len`), namely `data[start + j]` |
| SimplePagination.FirstPagesPrefix | 0x00-pagination/1-simple_pagination.py:47-70 | pages 1 to n, concatenated, are exactly the first `min(n * page_size, len)` rows in order |
| SimplePagination.PagesCoverData | 0x00-pagination/1-simple_pagination.py:47-70 | for every page size, the pages up to the last non-empty one reproduce the dataset with no row repeated, that last page is non-empty, and the page after it is empty |
| Keys.Range | 0x00-pagination/2-hypermedia_pagination.py:41-43 | `range(lo, hi)`: `hi - lo` elements, the i-th being `lo + i`, exactly the integers in `[lo, hi)` |
| Keys.Max | 0x00-pagination/2-hypermedia_pagination.py:61 | `max` of a non-empty key sequence is one of the keys and no key exceeds it |
| Keys.Sorted | 0x00-pagination/3-hypermedia_del_pagination.py:51 | `sorted` keeps exactly the same keys |
| Keys.SortedIncreasing | 0x00-pagination/3-hypermedia_del_pagination.py:51 | `sorted` of distinct keys is strictly ascending |
| Keys.SortedUnique | 0x00-pagination/3-hypermedia_del_pagination.py:51 | any ascending listing of the same distinct keys is the result of `sorted` |
| Keys.AtLeastIncreasing | 0x00-pagination/3-hypermedia_del_pagination.py:67-68 | keeping the keys at least `index` from an ascending sequence leaves it ascending |
| Keys.PrefixUpTo | 0x00-pagination/3-hypermedia_del_pagination.py:67-73 | the first n keys of an ascending sequence are exactly its keys up to the last of them |
| PositionIndex.Indexed | 0x00-pagination/2-hypermedia_pagination.py:39-43 | the index is a well-formed dict with key set exactly `{0, ..., len - 1}`, maps each `i` to `dataset[i]`, and iterates its keys in ascending order |
| PositionIndex.IndexedValues | 0x00-pagination/2-hypermedia_pagination.py:39-43 | reading the index back in iteration order gives the dataset |
| PositionIndex.RowsAtIndexed | 0x00-pagination/2-hypermedia_pagination.py:39-43 | looking up a run of consecutive positions in the index gives that slice of the dataset |
| PositionIndex.Remove | 0x00-pagination/3-hypermedia_del_pagination.py:31-39 | `del d[k]` on the dict `indexed_dataset` hands out leaves a well-formed dict whose key set has lost exactly k; every other key keeps its row, and ascending iteration order stays ascending |
| PositionIndex.Deleted | 0x00-pagination/3-hypermedia_del_pagination.py:31-39 | the index with one key deleted is still a well-formed dict with ascending iteration order, and its key set has lost exactly that key |
| PositionIndex.DeletedOrder | 0x00-pagination/3-hypermedia_del_pagination.py:31-39 | after `del index[k]`, iteration visits the positions below k, then those above it |
| HypermediaPagination.HyperIndexOf | 0x00-pagination/2-hypermedia_pagination.py:46-80 | the specification of `get_hyper_index`, with the checks in source order: `index < 0`, then `ValueError` from `max` on an empty dict, then `max < index`; otherwise the rows of the first `page_size` keys at least `index` in iteration order. A success echoes a non-negative `index`, its size is its row count, at most `page_size`, and it has no rows when `page_size <= 0` |
| HypermediaPagination.NextIndexOf | 0x00-pagination/2-hypermedia_pagination.py:65-73 | `next_index` is set, to the last page key plus one, only when the page holds `page_size` keys; when set it is past `index` and `page_size` is positive |
| HypermediaPagination.PageKeys | 0x00-pagination/2-hypermedia_pagination.py:67-70 | every key of the page is present and at least `index` |
| HypermediaPagination.HyperIndex | 0x00-pagination/2-hypermedia_pagination.py:61-80 | the bounds check followed by the scan returns exactly `HyperIndexOf` |
| HypermediaPagination.Scan | 0x00-pagination/2-hypermedia_pagination.py:63-73 | the loop collects the rows of the first `page_size` keys at least `index`, in iteration order, and sets `next_index` exactly as `NextIndexOf` |
| HypermediaPagination.Server.constructor | 0x00-pagination/2-hypermedia_pagination.py:13-17 | a new server has nothing cached |
| HypermediaPagination.Server.IndexedDataset | 0x00-pagination/2-hypermedia_pagination.py:33-44 | answers the cached dict, or builds the index of the dataset on first use; either way the answer is left cached |
| HypermediaPagination.Server.DeleteIndexed | 0x00-pagination/2-hypermedia_pagination.py:39-44 | a client's `del server.indexed_dataset()[k]` changes the cached dict itself, since it is handed out by reference; a missing key raises `KeyError` and leaves the dict as it was |
| HypermediaPagination.Server.GetHyperIndex | 0x00-pagination/2-hypermedia_pagination.py:46-80 | answers `HyperIndexOf` of the dict `indexed_dataset` answers, including any deletions clients made through it; that dict is cached even when the request fails |
| HypermediaPagination.DeletionSeen | 0x00-pagination/2-hypermedia_pagination.py:39-73 | after a client deletes key 5 through the server's dict, the server answers `index=5, page_size=3` with the rows at 6, 7 and 8 and `next_index` 9 |
| HypermediaPagination.HyperIndexFails | 0x00-pagination/2-hypermedia_pagination.py:60-61 | `index < 0` fails with "Index out of bounds"; an empty dict raises `ValueError` from `max`; otherwise the request fails exactly when every key is below `index` |
| HypermediaPagination.HyperIndexOk | 0x00-pagination/2-hypermedia_pagination.py:61-80 | when `index >= 0` and some key is at least `index`, the request succeeds with the page's keys |
| HypermediaPagination.HyperIndexPage | 0x00-pagination/2-hypermedia_pagination.py:63-80 | a page echoes `index`; its size is its row count and at most `page_size`; its rows are those of keys at least `index`, in iteration order; `next_index` is set, to the last key plus one, exactly when the page is full |
| HypermediaPagination.UngappedHyperIndex | 0x00-pagination/2-hypermedia_pagination.py:67-80 | on an index built by `indexed_dataset`, the page is `dataset[index:index + page_size]`, and `next_index` is `index + page_size` if that page is full, else None |
| HypermediaPagination.UngappedNext | 0x00-pagination/2-hypermedia_pagination.py:71-73 | on an index with no gaps, `next_index` is the position after a full page and None otherwise |
| HypermediaPagination.UngappedKeys | 0x00-pagination/2-hypermedia_pagination.py:67-70 | on an index with no gaps, the page's keys are the run of positions from `index` |
| HypermediaPagination.GapIsSkipped | 0x00-pagination/2-hypermedia_pagination.py:67-73 | with key 5 deleted, `index=5, page_size=3` is not rejected and answers the rows at 6, 7 and 8 with `next_index` 9 |
| HypermediaDelPagination.SortedKeys | 0x00-pagination/3-hypermedia_del_pagination.py:51 | `sorted(data.keys())` is ascending and holds exactly the dict's keys |
| HypermediaDelPagination.HyperIndexOf | 0x00-pagination/3-hypermedia_del_pagination.py:41-80 | the specification of `get_hyper_index`, with the checks in source order: `index < 0`, then `page_size <= 0`; a missing `index` gives the empty page; otherwise the rows of the first `page_size` keys at least `index` in ascending order, and `next_index` after the last of them. A success echoes `index`, its size is its row count, at most `page_size`, and it has a `next_index` exactly when it has rows |
| HypermediaDelPagination.PageKeys | 0x00-pagination/3-hypermedia_del_pagination.py:67-73 | the page's keys are ascending, present and at least `index` |
| HypermediaDelPagination.NextAfter | 0x00-pagination/3-hypermedia_del_pagination.py:64-71 | `next_index` is set exactly when some key was kept |
| HypermediaDelPagination.HyperIndex | 0x00-pagination/3-hypermedia_del_pagination.py:45-80 | the argument checks followed by the paging return exactly `HyperIndexOf` |
| HypermediaDelPagination.PageFrom | 0x00-pagination/3-hypermedia_del_pagination.py:51-80 | sorting, the not-found answer and the scan return exactly `HyperIndexOf` for checked arguments |
| HypermediaDelPagination.Scan | 0x00-pagination/3-hypermedia_del_pagination.py:62-73 | the loop, with its late `break`, collects the rows of the first `page_size` sorted keys at least `index`, and leaves `next_index` one past the last key kept |
| HypermediaDelPagination.Server.constructor | 0x00-pagination/3-hypermedia_del_pagination.py:14-18 | a new server has nothing cached |
| HypermediaDelPagination.Server.IndexedDataset | 0x00-pagination/3-hypermedia_del_pagination.py:31-39 | answers the cached dict, or builds the index of the dataset on first use; either way the answer is left cached |
| HypermediaDelPagination.Server.DeleteIndexed | 0x00-pagination/3-hypermedia_del_pagination.py:34-39 | a client's `del server.indexed_dataset()[k]` changes the cached dict itself, since it is handed out by reference; a missing key raises `KeyError` and leaves the dict as it was |
| HypermediaDelPagination.Server.GetHyperIndex | 0x00-pagination/3-hypermedia_del_pagination.py:41-80 | answers `HyperIndexOf` of the dict `indexed_dataset` answers, including any deletions clients made through it; a request rejected by the argument checks leaves the cache as it was |
| HypermediaDelPagination.DeletionSeen | 0x00-pagination/3-hypermedia_del_pagination.py:34-73 | after a client deletes key 5 through the server's dict, the server answers `index=4, page_size=3` with the rows at 4, 6 and 7 and `next_index` 8, and then `index=5` with the empty page |
| HypermediaDelPagination.HyperIndexFails | 0x00-pagination/3-hypermedia_del_pagination.py:45-48 | `index < 0` fails with "Index must be a non-negative integer"; then `page_size <= 0` fails with "Page size must be a positive integer"; no other request fails |
| HypermediaDelPagination.HyperIndexMissing | 0x00-pagination/3-hypermedia_del_pagination.py:54-60 | a request for a key that is not present answers `{index, next_index: None, page_size: 0, data: []}` |
| HypermediaDelPagination.HyperIndexPresent | 0x00-pagination/3-hypermedia_del_pagination.py:62-80 | a request for a present key echoes `index` and answers 1 to `page_size` rows; the first row is the one at `index`; row t is the row of the t-th page key; fewer than `page_size` rows only when every key from `index` on was kept; `next_index` is always the last key plus one |
| HypermediaDelPagination.NoSkipping | 0x00-pagination/3-hypermedia_del_pagination.py:67-73 | a present key is on the page exactly when it lies in `[index, next_index)`, so no present key is skipped between consecutive requests |
| HypermediaDelPagination.UngappedHyperIndex | 0x00-pagination/3-hypermedia_del_pagination.py:67-80 | on an index built by `indexed_dataset`, the page is `dataset[index:index + page_size]`, and `next_index` is the position after it, even at the end of the data |
| HypermediaDelPagination.UngappedKeys | 0x00-pagination/3-hypermedia_del_pagination.py:67-73 | on an index with no gaps, the page's keys are the run of positions from `index` |
| HypermediaDelPagination.DeletedKeyExample | 0x00-pagination/3-hypermedia_del_pagination.py:54-73 | with key 5 deleted, `index=4, page_size=3` answers the rows at 4, 6 and 7 with `next_index` 8, and `index=5` answers the empty page |

## Left out

- Loading the CSV file and dropping its header row (`Server.dataset`) are file I/O. The
  dataset is a parameter of `GetPage` and of the `Server` constructors.
- `dataset()` caches the rows it loaded. That cache only avoids repeated I/O, so it is not
  modelled. The `indexed_dataset` cache is modelled.
- Offset pagination has no class. Its `Server` holds only the cached dataset, and that is
  I/O.
- The `isinstance(..., int)` checks and the first version's `index is not None` check are not
  modelled. Arguments are typed `int`, so these checks always pass.
- Default argument values (`page=1`, `page_size=10`, `index=0`) are not modelled.
- `ValueError` carries no message. Python's own message for `max()` of an empty sequence is
  not modelled.
- The hypermedia operations require `Dict.Valid()`. This is the representation invariant of
  a Python dict (each key listed once, in iteration order), not a demand the source makes of
  its callers.
- `sorted` and `max` are modelled over the dict's key sequence, not over a set. Both results
  depend only on the keys (`SortedUnique`).
- The code never deletes keys itself. Clients delete through the dict `indexed_dataset`
  hands out (`Server.DeleteIndexed`). Other changes made through that reference, such as
  inserting or overwriting keys, are not modelled.
- Concurrent first use of the caches is not modelled, because the source is single-threaded.
- The errors are `AssertionError`s with the messages of the source's `assert` statements. A
  generic "invalid argument" error is not used.
- `index_range` checks nothing. `IndexRange` is total, and only `get_page` checks its
  arguments.
