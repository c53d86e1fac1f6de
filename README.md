# OSDR page and space-data service, modelled in Dafny

This project models the core of a two-service space-data dashboard.

**PHP side.** The Laravel `OsdrController` builds the OSDR (NASA Open Science Data Repository) page:
- it reads the query parameters `limit`, `sort`, `dir`, `filter_col` and `filter_val`;
- it fetches `/osdr/list` from the Rust service;
- it flattens the upstream items with `flattenOsdr`, which uses `looksOsdrDict` to recognise dataset dictionaries;
- it filters the rows by a column and sorts them with a `usort` callback.

**Rust side.** Three parts of the service are modelled:
- `fetch_and_store_osdr` picks the dataset list out of the upstream JSON, reads each item's id, title and status with `s_pick`, upserts every item and counts them;
- `space_refresh` parses the comma-separated `src` list and starts one fetch per recognised source;
- `iss_trend` compares the two latest ISS positions.

Modules:

| file | module | models |
|---|---|---|
| `wrappers.dfy` | `Wrappers` | `Option`, `Result` |
| `seqs.dfy` | `Seqs` | order-preserving filtering and subsequences |
| `text.dfy` | `Text` | ASCII case folding, substring search, integer text, `split`, `trim`, `rtrim`, `basename`, byte-wise string order |
| `json.dfy` | `Json` | `serde_json::Value` without floats; `get` with last-wins duplicate keys |
| `php.dfy` | `Php` | PHP values and ordered arrays, `isset`, `??`, assignment, truthiness, the `(string)` cast, the array-key cast, `json_decode($s, true)` |
| `osdr_flatten.dfy` | `OsdrFlatten` | `looksOsdrDict` and `flattenOsdr` (imperative loops proved against a recursive specification) |
| `usort.dfy` | `Usort` | PHP 8's stable `usort`: an in-place insertion sort on an `array`, proved equal to a functional insertion sort |
| `osdr_query.dfy` | `OsdrQuery` | the `array_filter` callback and the `usort` comparison callback |
| `osdr_page.dfy` | `OsdrPage` | `OsdrController::index` |
| `iss_service.dfy` | `IssService` | `s_pick`, item selection and the `written` loop of `fetch_and_store_osdr` |
| `iss_handlers.dfy` | `IssHandlers` | `space_refresh` and `iss_trend` |

Some behaviour is outside the model and enters as parameters:
- **Network.** `Index` takes `fetch: string -> Upstream`, the reply for a URL. `FetchAndStoreOsdr` takes the HTTP reply.
- **Database.** `FetchAndStoreOsdr` takes `accepts: OsdrRecord -> bool`, which says whether an upsert succeeds. `IssTrend` takes the rows the query returned.
- **Environment.** `Index` takes the value of `RUST_BASE`.
- **Floating point.** `IssTrend` takes the `num` and `haversine_km` computations.

Three behaviours of the code worth knowing:
- **Descending order.** `dir=desc` negates the comparison callback. Rows with equal keys therefore keep their input order in both directions. The descending page is *not* the ascending page reversed (`OsdrQuery.SortStep`).
- **Bad upstream data.** Not every bad upstream degrades to an empty page. A non-array `items` value makes `flattenOsdr(array $items)` raise a `TypeError` (`Fault.ItemsNotArray`). An item that is `true`, a number or a string raises an `Error` at `$row['rest_url'] = ...` (`Fault.ScalarRow`). Apart from these two faults, every bad upstream yields the empty list: an unreachable service, an empty or `"0"` body, a body that is not JSON, a JSON scalar or list, and a document without `items` (`OsdrPage.UpstreamFallback`). `items: null` gives `[]` too, because `??` treats null as missing (`OsdrPage.ItemsOf`).
- **Plain-row URL.** `rest_url` on a plain row reads only `REST_URL` and `rest_url`. Inside a dictionary the URL also falls back to `rest`.

## Model

| member | source | states |
|---|---|---|
| Php.Lookup | services/php-web/laravel-patches/app/Http/Controllers/OsdrController.php:68-70 | `$a[k] ?? null` is non-null exactly when `isset($a[k])` |
| Php.FindSpec | services/php-web/laravel-patches/app/Http/Controllers/OsdrController.php:54 | reading a key finds nothing exactly when no entry has that key; a found value is stored under that key |
| Php.Coalesce | services/php-web/laravel-patches/app/Http/Controllers/OsdrController.php:58-59 | a `??` chain is null exactly when no key is set; otherwise it gives the value of the first set key, and every earlier key is unset |
| Php.CoalesceTwo | services/php-web/laravel-patches/app/Http/Controllers/OsdrController.php:77 | `$a[x] ?? $a[y] ?? null` is `$a[x]` when that is set, else `$a[y] ?? null` |
| Php.Set | services/php-web/laravel-patches/app/Http/Controllers/OsdrController.php:77 | after `$a[k] = v` the key holds `v`; every other key is unchanged; an existing key keeps its position; a new key is appended |
| Php.ArrayKey | services/php-web/laravel-patches/app/Http/Controllers/OsdrController.php:28 | a column name is an integer key exactly when it is a canonical decimal integer; otherwise it is used as given |
| Php.ArrayKeyOfIntText | services/php-web/laravel-patches/app/Http/Controllers/OsdrController.php:28 | the decimal text of an integer addresses that integer's key |
| OsdrFlatten.LooksOsdrDictIff | services/php-web/laravel-patches/app/Http/Controllers/OsdrController.php:84-92 | a payload is a dictionary exactly when some entry has an `OSD-` string key, or an array value with `REST_URL` or `rest_url` set; an empty payload is not one |
| OsdrFlatten.LooksOsdrDictOrderFree | services/php-web/laravel-patches/app/Http/Controllers/OsdrController.php:84-92 | the verdict does not depend on the order of the entries |
| OsdrFlatten.ExpandedTitleChain | services/php-web/laravel-patches/app/Http/Controllers/OsdrController.php:58-63 | a truthy `title` wins; a missing `title` defers to `name`; a falsy choice with a string URL becomes the URL's last path segment; with no string URL the falsy choice stays |
| OsdrFlatten.RowLiteral | services/php-web/laravel-patches/app/Http/Controllers/OsdrController.php:64-73 | each of the eight fields of the row literal reads back as the value written |
| OsdrFlatten.ExpandEntry | services/php-web/laravel-patches/app/Http/Controllers/OsdrController.php:58-73 | an expanded row has: the parent's id, status and timestamps; the entry key as `dataset_id`; the `REST_URL`/`rest_url`/`rest` chain as `rest_url`; the title chain; the entry itself as `raw` |
| OsdrFlatten.ExpandDictEntries | services/php-web/laravel-patches/app/Http/Controllers/OsdrController.php:56-57 | a dictionary yields exactly one row per array-valued entry, in entry order; non-array entries are skipped |
| OsdrFlatten.DictWithoutArraysVanishes | services/php-web/laravel-patches/app/Http/Controllers/OsdrController.php:55-57 | a dictionary item without array values contributes no rows |
| OsdrFlatten.PlainRowKeepsFields | services/php-web/laravel-patches/app/Http/Controllers/OsdrController.php:75-78 | a non-dictionary item yields one row: itself, with only `rest_url` added or replaced and its keys in their order |
| OsdrFlatten.PlainRestUrlChain | services/php-web/laravel-patches/app/Http/Controllers/OsdrController.php:77 | a plain row's URL is `raw.REST_URL` if set, else `raw.rest_url`, else null; a non-array `raw` gives null |
| OsdrFlatten.ItemRowsOkIff | services/php-web/laravel-patches/app/Http/Controllers/OsdrController.php:53-79 | an item yields rows exactly when it is an array, null or false; any other scalar aborts |
| OsdrFlatten.FlattenSucceedsIff | services/php-web/laravel-patches/app/Http/Controllers/OsdrController.php:50-82 | flattening succeeds exactly when every item is flattenable |
| OsdrFlatten.FlattenConcat | services/php-web/laravel-patches/app/Http/Controllers/OsdrController.php:52-81 | rows come out in item order: the rows of `a + b` are the rows of `a` followed by those of `b` |
| OsdrFlatten.FlattenCount | services/php-web/laravel-patches/app/Http/Controllers/OsdrController.php:50-82 | the row count is one per plain item plus one per array-valued entry of each dictionary item |
| OsdrFlatten.GatherFailureSticks | services/php-web/laravel-patches/app/Http/Controllers/OsdrController.php:53 | once an item fails, the whole flattening fails with that item's fault |
| OsdrFlatten.AppendDictRows | services/php-web/laravel-patches/app/Http/Controllers/OsdrController.php:56-74 | the inner loop appends exactly the dictionary's expansion to `$out` |
| OsdrFlatten.FlattenOsdr | services/php-web/laravel-patches/app/Http/Controllers/OsdrController.php:50-82 | the nested loops compute the flattening specification, including which fault aborts |
| OsdrQuery.FilterStep | services/php-web/laravel-patches/app/Http/Controllers/OsdrController.php:26-30 | with a truthy column and value, every kept row matches and every matching row is kept as often as it occurs, in order; otherwise the rows are unchanged |
| OsdrQuery.MatchesIgnoresCase | services/php-web/laravel-patches/app/Http/Controllers/OsdrController.php:28 | the case of the filter value does not matter |
| OsdrQuery.Compare | services/php-web/laravel-patches/app/Http/Controllers/OsdrController.php:33-39 | the callback returns 0 exactly for equal keys; it is negative exactly when `a`'s key is smaller, or larger when `dir === 'desc'` |
| OsdrQuery.ComparatorValid | services/php-web/laravel-patches/app/Http/Controllers/OsdrController.php:33-39 | the callback is antisymmetric in sign, and "not greater" is transitive |
| OsdrQuery.SortStep | services/php-web/laravel-patches/app/Http/Controllers/OsdrController.php:33-39 | after `usort` the rows are a permutation of the input; keys ascend, or descend for `desc`; rows with equal keys keep their input order |
| OsdrQuery.SortKeepsTies | services/php-web/laravel-patches/app/Http/Controllers/OsdrController.php:33-39 | for every key, the rows with that key appear in the same order as in the input |
| Usort.InsertionSortPermutes | services/php-web/laravel-patches/app/Http/Controllers/OsdrController.php:33 | `usort` only reorders |
| Usort.InsertionSortSorted | services/php-web/laravel-patches/app/Http/Controllers/OsdrController.php:33 | with a consistent callback, no element compares greater than a later one |
| Usort.InsertionSortStable | services/php-web/laravel-patches/app/Http/Controllers/OsdrController.php:33 | elements comparing equal keep their input order (`usort` is stable since PHP 8.0) |
| Usort.InsertAt | services/php-web/laravel-patches/app/Http/Controllers/OsdrController.php:33 | one insertion pass leaves the prefix equal to the insertion of `a[i]` into the sorted prefix; the rest of the array is unchanged |
| Usort.Sort | services/php-web/laravel-patches/app/Http/Controllers/OsdrController.php:33 | the in-place sort leaves the array equal to the insertion sort of its old contents |
| OsdrPage.BaseUrl | services/php-web/laravel-patches/app/Http/Controllers/OsdrController.php:17 | `getenv(...) ?:` keeps a set, non-empty, non-"0" variable and otherwise uses `http://rust_iss:3000` |
| OsdrPage.Index | services/php-web/laravel-patches/app/Http/Controllers/OsdrController.php:9-47 | a non-array `items` aborts; a flattening fault aborts; otherwise the page shows the source URL and sort settings, with the flattened, filtered rows sorted by the callback; whenever `$items` falls back to `[]` the page is empty |
| OsdrPage.PageRows | services/php-web/laravel-patches/app/Http/Controllers/OsdrController.php:23-39 | the page holds the filtered rows, reordered: with a filter, exactly the matching rows, each as often as it was flattened; without one, every flattened row; the rows are in key order for the direction, and rows sharing a key keep their input order |
| Json.Field | services/rust-iss/src/services/mod.rs:106 | a field is absent exactly when no field has the key; a found value is paired with that key |
| Json.FieldLast | services/rust-iss/src/services/mod.rs:106 | of repeated keys, the last occurrence is the value |
| IssService.UsableText | services/rust-iss/src/services/mod.rs:107-108 | a picked text is never empty |
| IssService.SPick | services/rust-iss/src/services/mod.rs:104-112 | the result is None exactly when no key holds a non-empty string or a number; any result is non-empty; a non-object gives None |
| IssService.SPickFirst | services/rust-iss/src/services/mod.rs:104-112 | the result is the text of the first usable key in list order |
| IssService.SPickPrefix | services/rust-iss/src/services/mod.rs:105 | appending keys never changes a result already found |
| IssService.SelectItemsShape | services/rust-iss/src/services/mod.rs:24-27 | an array document is the list; with no `items` or `results` array the document is the single item; the selection is empty only when the chosen array is empty |
| IssService.SelectItemsPrefersItems | services/rust-iss/src/services/mod.rs:25 | an `items` array is taken before `results` |
| IssService.Records | services/rust-iss/src/services/mod.rs:30-33 | one record per item, in order, with the picked id, title and status |
| IssService.UpsertAll | services/rust-iss/src/services/mod.rs:29-39 | succeeds with the item count exactly when every upsert succeeds; otherwise it fails at the first refused record, after sending exactly the records up to it |
| IssService.FetchAndStoreOsdr | services/rust-iss/src/services/mod.rs:17-40 | a missing response, a non-2xx status and a non-JSON body each fail before any upsert; otherwise the result is that of the upsert loop over the selected items |
| IssHandlers.Tokens | services/rust-iss/src/handlers/mod.rs:105 | one token per comma-separated piece, each trimmed and lower-cased |
| IssHandlers.KnownTokens | services/rust-iss/src/handlers/mod.rs:106-113 | only recognised names are collected |
| IssHandlers.KnownTokensFilter | services/rust-iss/src/handlers/mod.rs:105-114 | collecting names in the loop is filtering the tokens by "is a known source" |
| IssHandlers.RefreshEach | services/rust-iss/src/handlers/mod.rs:105-114 | the reply lists the recognised tokens in order (the tokens filtered by "is a known source"); each starts its own fetch, and `flr` and `cme` both start the DONKI fetch |
| IssHandlers.SpaceRefresh | services/rust-iss/src/handlers/mod.rs:102-116 | with no `src` the default list is used; the reply and the fetches are those of the loop |
| IssHandlers.RefreshedTokens | services/rust-iss/src/handlers/mod.rs:104-115 | the reply is a subsequence of the tokens; it holds only the five known names, each as often as it was given |
| IssHandlers.DefaultSplit | services/rust-iss/src/handlers/mod.rs:103 | the default list splits into the five source names, in order |
| IssHandlers.DefaultRefreshesAll | services/rust-iss/src/handlers/mod.rs:103-114 | with no `src`, all five sources are refreshed once each, in list order |
| IssHandlers.DefaultFetchers | services/rust-iss/src/handlers/mod.rs:107-111 | the default list starts APOD, NEO, DONKI twice, then SpaceX |
| IssHandlers.Member | services/rust-iss/src/handlers/mod.rs:51-55 | `v[key]` is null for a missing field or a non-object |
| IssHandlers.MillisToward0 | services/rust-iss/src/handlers/mod.rs:63 | whole milliseconds rounded toward zero, for negative differences too |
| IssHandlers.IssTrend | services/rust-iss/src/handlers/mod.rs:36-74 | a query error passes through; fewer than two rows give the all-empty trend; otherwise the times are those of rows 1 and 0, `dt_sec` is their difference, the four coordinates are `num` of the payload fields of rows 1 and 0 and the speed that of row 0; with all four coordinates the distance is the haversine of them and movement holds exactly when it exceeds 0.1 km; a missing coordinate means no movement and distance 0 |
| Php.Decode | services/php-web/laravel-patches/app/Http/Controllers/OsdrController.php:20 | `json_decode($json, true)` on a decoded document; its shape is stated by `Php.DecodeShape` |
| Php.DecodeShape | services/php-web/laravel-patches/app/Http/Controllers/OsdrController.php:20 | JSON null, and only null, decodes to null; a list or object decodes to an array with unique keys; a list keeps its length with keys 0, 1, ...; an object lacks a key exactly when no field name casts to it |
| Php.UniqueKeys | services/php-web/laravel-patches/app/Http/Controllers/OsdrController.php:20 | a real PHP array never holds a key twice; this predicate documents that invariant, and `Php.SetKeepsUnique`, `Php.AssignAllUnique` and `Php.DecodeShape` show that assignment and decoding keep it. No other contract requires it |
| Php.SetKeepsUnique | services/php-web/laravel-patches/app/Http/Controllers/OsdrController.php:77 | assignment keeps the keys of an array unique |
| Php.AssignAllUnique | services/php-web/laravel-patches/app/Http/Controllers/OsdrController.php:20 | assigning the decoded fields in turn keeps the keys unique |
| Php.AssignAllFind | services/php-web/laravel-patches/app/Http/Controllers/OsdrController.php:20 | after the decoder's assignments a key is missing exactly when it was missing before and no assigned pair has it |
| Php.Truthy | services/php-web/laravel-patches/app/Http/Controllers/OsdrController.php:26 | PHP's conversion to bool; `Php.TruthyText` relates it to the string cast |
| Php.ToText | services/php-web/laravel-patches/app/Http/Controllers/OsdrController.php:28 | PHP's `(string)` cast; `Php.TruthyText` relates it to truthiness |
| Php.TruthyText | services/php-web/laravel-patches/app/Http/Controllers/OsdrController.php:60 | a scalar is truthy exactly when its string form is neither "" nor "0" |
| OsdrFlatten.LooksOsdrDict | services/php-web/laravel-patches/app/Http/Controllers/OsdrController.php:84-92 | the early-return scan of `looksOsdrDict`; `OsdrFlatten.LooksOsdrDictIff` states what it decides |
| OsdrFlatten.RawOf | services/php-web/laravel-patches/app/Http/Controllers/OsdrController.php:54 | `$row['raw'] ?? []` is never null, and is `[]` for an item that is not an array |
| OsdrFlatten.PlainRow | services/php-web/laravel-patches/app/Http/Controllers/OsdrController.php:75-78 | a plain item yields its row exactly when it is an array, null or false, and the row's `rest_url` is the plain URL chain; any other item is the scalar-row fault |
| OsdrFlatten.ItemRows | services/php-web/laravel-patches/app/Http/Controllers/OsdrController.php:53-79 | a dictionary item yields one row per array-valued entry; any other item yields one row or a fault |
| OsdrPage.Document | services/php-web/laravel-patches/app/Http/Controllers/OsdrController.php:19-20 | the decoded body, or `['items' => []]` for an unreachable service or an empty or "0" body; what follows for `$items` is `OsdrPage.UpstreamFallback` |
| OsdrPage.ItemsOf | services/php-web/laravel-patches/app/Http/Controllers/OsdrController.php:21 | `$data['items'] ?? []`; `OsdrPage.UpstreamFallback` states when it is empty |
| OsdrPage.UpstreamFallback | services/php-web/laravel-patches/app/Http/Controllers/OsdrController.php:19-21 | an unreachable service, an empty or "0" body, a non-JSON body, a JSON scalar or list, and an object without `items` all give an empty `$items` |
| OsdrQuery.Matches | services/php-web/laravel-patches/app/Http/Controllers/OsdrController.php:27-29 | the filter callback: the column is set and its string form contains the value, ignoring ASCII case; `OsdrQuery.FilterStep` and `OsdrQuery.MatchesIgnoresCase` state its properties |
| OsdrQuery.SortKey | services/php-web/laravel-patches/app/Http/Controllers/OsdrController.php:34-35 | `$row[$sort] ?? ''` as a string; `OsdrQuery.Compare` orders rows by it |
| IssService.SelectItems | services/rust-iss/src/services/mod.rs:24-27 | the item list of an OSDR reply; `IssService.SelectItemsShape` and `IssService.SelectItemsPrefersItems` state its choices |
| IssHandlers.Normalize | services/rust-iss/src/handlers/mod.rs:105 | a normalised token is the lower-cased slice of the token between its leading and its trailing whitespace; it has no capital letter and no whitespace at either end |
| Text.Split | services/rust-iss/src/handlers/mod.rs:105 | `split(',')` gives at least one piece and no piece contains the separator; `Text.SplitJoin` shows nothing is lost |
| Text.Trim | services/rust-iss/src/handlers/mod.rs:105 | the result is the slice of the input that starts after its leading whitespace and ends before its trailing whitespace; no whitespace is left at either end, and every non-whitespace character of the input is kept |
| Text.RTrimSlashes | services/php-web/laravel-patches/app/Http/Controllers/OsdrController.php:62 | `rtrim($path, '/')` is the prefix of the path that drops exactly its trailing slashes: everything after it is `/`, and it does not end in `/` |
| Text.Basename | services/php-web/laravel-patches/app/Http/Controllers/OsdrController.php:62 | the result is the suffix of the slash-trimmed path after its last `/`, so it holds no `/`; it is empty exactly when the path is all slashes |
| Text.AfterLastSlash | services/php-web/laravel-patches/app/Http/Controllers/OsdrController.php:62 | the result has no `/`; it is a suffix of the path, and a `/` precedes it when it is shorter than the path |
| Text.SplitJoin | services/rust-iss/src/handlers/mod.rs:105 | the pieces of a split joined with the separator give back the text |
| Text.JoinSplit | services/rust-iss/src/handlers/mod.rs:103-105 | separator-free pieces, joined and split again, come back unchanged |

## Left out

- **Network, database, clock and environment.**
  - The network, the database, the clock and the environment are parameters (see above). Timeouts are not modelled, and neither are `reqwest::Client` build failures.
  - The `updated` timestamp that `t_pick` passes to `upsert_osdr_item` is not modelled, because it parses dates and reads the clock.
  - The SQL of `upsert_osdr_item` and of `get_iss_trend_data` is not part of this model.
- **JSON text.** The text is not parsed. The decoded document is an input: `Upstream.Body` carries both the text and what `json_decode` makes of it, and `HttpReply.Response` carries the parsed body.
- **Floating-point numbers.**
  - They are absent from both JSON models.
  - `num`, `haversine_km` and the `f64` division of `dt_sec` enter `IssTrend` as parameters or as real arithmetic.
  - The 0.1 km threshold is a real number.
- OsdrQuery.Compare: keys are compared as their `(string)` casts, byte by byte. PHP 8's `==` and `<` compare numeric strings and integers numerically, and bools by truthiness. The model agrees with PHP when both keys are non-numeric strings, which covers the timestamp, title and status columns. It disagrees for integer ids: PHP puts 9 before 10, the model 10 before 9. PHP's mixed comparisons are not transitive, so `usort` has no sortedness guarantee for them anyway.
- OsdrQuery.Matches: `stripos` is modelled with ASCII case folding only. Non-ASCII letters are compared as they are.
- IssHandlers.Normalize: `to_lowercase` is modelled on ASCII only. This is exact for recognising the five source names: no non-ASCII character lowercases to one of their letters.
- OsdrFlatten.ExpandEntry: PHP warnings are modelled with plain PHP's non-fatal semantics. On a dictionary item without an `id` key, `OsdrController.php` line 65 reads `$row['id']` with no `??`. PHP warns "Undefined array key", and Laravel's error handler turns that warning into an `ErrorException`, which aborts the request. The model gives the row a null `id` instead. The Rust upstream always sends `id` (`osdr_list` selects it for every row), so the case does not arise with that upstream. For the same reason `OsdrFlatten.FlattenSucceedsIff` says more than the application does when `id` is missing.
- OsdrQuery.Matches: `(string)` of an array value (for example `filter_col=raw`) also warns, with "Array to string conversion", which aborts the request under Laravel. The model matches the value against the text `"Array"`, as plain PHP does after the warning.
- OsdrQuery.SortKey: an array value in the sort column is compared as the text `"Array"`. PHP compares arrays with arrays by size and contents, and an array with a scalar as greater.
- IssService.SPick: JSON integers are unbounded in the model. serde_json keeps an integer outside the `i64`/`u64` range as an `f64`, and `s_pick` then gives that float's text instead of the exact digits.
- Php.Decode: JSON integers beyond `PHP_INT_MAX` stay exact integers. PHP's `json_decode` turns them into floats, which changes their `(string)` cast, their filter match and their sort key.
- Php.ArrayKey: the integer range of array keys is not modelled. A decimal string outside the 64-bit range stays a string key in PHP, and the model gives it an integer key.
- **Laravel's `view()` and request plumbing.** The model returns the data handed to the view. Query parameters given as arrays are not modelled.
- **The other handlers and services.** `last_iss`, `trigger_iss`, `osdr_list`, `space_latest` and `space_summary` are not part of this model, nor are the individual fetch functions. `space_refresh` records which fetch it starts and ignores each fetch's outcome, as the source does.
