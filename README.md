# DSQ4D crawler, modelled in Dafny

This project models the core of the DSQ4D film-site crawler. It covers the
`OptimizedDSQ4DCrawler` class in `dsq4d_crawler_optimized.py`: its batch buffers,
its database writes, its progress records, the text extraction it does with
regular expressions, the resolution of an episode's play page to an m3u8 address,
and the page loop of `crawl_category_optimized`. It also covers two helpers of
`query_data.py`: the query that `search_movies` builds and the playlist that
`export_m3u8_playlist` writes.

The modules:

- **Util.** Strings, digits, Python truthiness and placeholder counting.
- **Records.** The rows of the `dy`, `m3u8` and `crawl_progress` tables, the
  progress status, and the site. The site's HTTP fetch and HTML parser are
  parameters: `Site.get` is `_get_with_retry` and returns `None` where it returns
  `None`, and the parser functions give what BeautifulSoup would select.
- **Base64 and Utf8.** Decoding with `base64.b64decode(...).decode('utf-8')`,
  each with an encoder as its inverse.
- **Extract.** The dyid regular expression `/mp4/(\d+)\.html`, the last-page
  expression `/list/\d+-(\d+)\.html`, the page total, the episode count, and the
  link batches de-duplicated in first-seen order as `dict.fromkeys` does.
- **Resolver.** The play-page URL, the `player_aaaa` configuration, its `url`
  value, the `get_dplayer` API, the Base64 branch, the direct address, the
  `.m3u8` scan of the page, and `fetch_m3u8` over a list of episodes.
- **Store.** The upsert of works, the save of episode entries, the missing
  episodes, and the progress rows.
- **CrawlSpec.** One function per crawler operation, mapping a state of the
  tables, buffers and transaction counter to the next state.
- **Crawler.** The class `DSQ4DCrawler`. It has one field per table and buffer.
  Its methods update those fields, and each method is proved to reach the state
  that its CrawlSpec function prescribes.
- **CrawlProps.** What the crawl promises: checkpoints, resumption, the final
  record of a run, and that progress rows stay unique per category.
- **Query.** `search_movies` and `export_m3u8_playlist`.

Some behaviours of the code are kept as written, including where they look
accidental:

- `flush_batch` empties the buffers before `batch_save_to_db` runs, so a save
  that raises loses the buffered rows.
- Only a stored status of `running` resumes a run.
- An interrupted or failed run records the page the run started at, not the
  last page crawled.
- A chunk of pages that yields no links skips both the flush and the checkpoint.
- A 尾页 link naming page 0 gives a total of 0, so the run does not start.
- A `current_page` beyond `total_pages` fails inside the page loop, so the run
  records `error`.
- `get_missing_episodes` counts a row as present when its `m3u8_url IS NOT NULL`.
  `batch_save_to_db` instead tests the address's truthiness.
- A work that is still buffered counts as not yet stored.
- `export_m3u8_playlist` writes a NULL column as `None`.

The database is modelled as values:

- `dy` is a map from dyid to work.
- `m3u8` is a map from (dyid, episode) to row.
- `crawl_progress` is a sequence of rows.

A write transaction can fail. `Env.storeFails(n)` says whether the n-th write
transaction raises, and the counter `transactions` numbers those transactions.
A failing transaction is rolled back and leaves the tables as they were.

## Model

| member | source | states |
|---|---|---|
| Crawler.DSQ4DCrawler.constructor | dsq4d_crawler_optimized.py:55-73 | a new crawler holds the given tables, empty work and episode buffers, and no transactions yet |
| Crawler.DSQ4DCrawler.CheckMovieExists | dsq4d_crawler_optimized.py:131-140 | true exactly when the dyid has a row in `dy` |
| Crawler.DSQ4DCrawler.BatchSaveToDb | dsq4d_crawler_optimized.py:471-559 | on commit, the tables become the works upserted and the entries stored, in batch order; on rollback both tables are unchanged; either way the transaction counter advances |
| Crawler.DSQ4DCrawler.FlushBatch | dsq4d_crawler_optimized.py:574-586 | both buffers end empty; the state and result are those of `Flush`, which saves the buffers only when one of them is non-empty |
| Crawler.DSQ4DCrawler.AddToBatch | dsq4d_crawler_optimized.py:561-572 | appends the work and entries to the buffers, then flushes when a buffer reaches its threshold |
| Crawler.DSQ4DCrawler.SaveProgress | dsq4d_crawler_optimized.py:664-690 | a committed save makes `get_progress` of the category return exactly the saved progress; a failed save leaves the rows unchanged |
| Crawler.DSQ4DCrawler.GetTotalPages | dsq4d_crawler_optimized.py:170-198 | the total that the site's first list page gives, as `TotalPagesOf` defines it |
| Crawler.DSQ4DCrawler.CrawlMovie | dsq4d_crawler_optimized.py:588-662 | the crawl of one work reaches the state `CrawlSpec.CrawlMovie` prescribes: nothing for a link without a dyid or an unreachable page, and otherwise the new work plus its missing episodes buffered |
| Crawler.DSQ4DCrawler.CrawlLinks | dsq4d_crawler_optimized.py:754-772 | the works of a chunk are crawled one after another, in link order |
| Crawler.DSQ4DCrawler.CrawlChunk | dsq4d_crawler_optimized.py:739-781 | one pass of the page loop: fetch the chunk's links; if there are any, crawl them, flush, and checkpoint the chunk's last page |
| Crawler.DSQ4DCrawler.FinishRun | dsq4d_crawler_optimized.py:783-797 | the closing flush and progress record of a run; the buffers end empty |
| Crawler.DSQ4DCrawler.StartRun | dsq4d_crawler_optimized.py:711-732 | the start page and total: a stored `running` record without an explicit start page resumes it; otherwise the site's total is used, with no run when it is 0; the test-mode cap is applied |
| Crawler.DSQ4DCrawler.CrawlChunks | dsq4d_crawler_optimized.py:737-781 | the chunks are run in order |
| Crawler.DSQ4DCrawler.RunPages | dsq4d_crawler_optimized.py:737-797 | the page loop with its completed, interrupted and error endings, as `CrawlSpec.RunPages` defines them |
| Crawler.DSQ4DCrawler.CrawlCategory | dsq4d_crawler_optimized.py:707-797 | a whole run of a category: the start, the `running` record, and the page loop |
| Crawler.DSQ4DCrawler.Close | dsq4d_crawler_optimized.py:809-815 | close flushes the buffers one last time |
| Store.UpsertWorksLastWins | dsq4d_crawler_optimized.py:481-509 | after saving a batch, a dyid in the batch holds the batch's last work with that dyid |
| Store.UpsertWorksOthers | dsq4d_crawler_optimized.py:481-509 | a dyid not in the batch keeps its row, or stays absent |
| Store.UpsertWorksIdempotent | dsq4d_crawler_optimized.py:481-509 | saving the same works twice equals saving them once |
| Store.AddressedRowKept | dsq4d_crawler_optimized.py:516-530 | an episode row that already has a non-empty address is never overwritten |
| Store.UntouchedRowKept | dsq4d_crawler_optimized.py:514 | a key with no addressed entry in the batch keeps its row, or stays absent |
| Store.FirstAddressStored | dsq4d_crawler_optimized.py:514-537 | the first addressed entry for an unresolved key is the one that is stored |
| Store.EntryAddressSaved | dsq4d_crawler_optimized.py:511-539 | every key with an addressed entry in the batch has an address after the save |
| Store.NothingNewNoChange | dsq4d_crawler_optimized.py:514 | a batch without addressed entries leaves `m3u8` unchanged |
| Store.StoreEpisodesIdempotent | dsq4d_crawler_optimized.py:511-539 | storing the same entries twice equals storing them once |
| Store.MissingEpisodes | dsq4d_crawler_optimized.py:153-168 | exactly the episodes 1..n that have no row with a non-NULL address, in ascending order |
| Store.StoreKeepsResolved | dsq4d_crawler_optimized.py:153-168 | saving never turns a resolved episode back into a missing one |
| Store.SavedEpisodeNotMissing | dsq4d_crawler_optimized.py:153-168 | after a save, an addressed entry's episode is not missing, and the missing episodes can only shrink |
| Store.StillMissingUnaddressed | dsq4d_crawler_optimized.py:153-168 | an episode still missing after a save was missing before it, and no entry of that save for it carried an address |
| Store.FindProgress | dsq4d_crawler_optimized.py:692-705 | finds a record exactly when a row of the category exists, and returns that row's progress |
| Store.SaveThenFind | dsq4d_crawler_optimized.py:664-705 | reading back a category just saved gives the saved progress |
| Store.SaveProgressKeepsUnique | dsq4d_crawler_optimized.py:671-681 | the insert-or-update keeps at most one row per category |
| Store.SaveKeepsOthers | dsq4d_crawler_optimized.py:664-690 | saving one category's progress leaves every other category's record as it was |
| Extract.IdMatchFrom | dsq4d_crawler_optimized.py:248 | the leftmost match of `/mp4/(\d+)\.html` at or after a position, or none at any later position |
| Extract.DyidOfDetailUrl | dsq4d_crawler_optimized.py:248-251 | the detail URL of dyid n yields n back |
| Extract.NoMp4NoDyid | dsq4d_crawler_optimized.py:592-595 | a URL without `/mp4/` yields no dyid |
| Extract.EpisodeCount | dsq4d_crawler_optimized.py:314-326 | the episode links minus the app-only entries, and at least 1 |
| Extract.EpisodeLinksCount | dsq4d_crawler_optimized.py:320-324 | the counted links are all entries except those reading 'APP播放' |
| Extract.PageMatchFrom | dsq4d_crawler_optimized.py:184 | the leftmost match of `/list/\d+-(\d+)\.html`, or none at any later position |
| Extract.LastPageOfListHref | dsq4d_crawler_optimized.py:183-186 | the href of list page p of any category yields p |
| Extract.NoListNoPage | dsq4d_crawler_optimized.py:184-186 | an href without `/list/` yields no page number |
| Extract.MaxNumeralIsMax | dsq4d_crawler_optimized.py:188-196 | the fallback is the largest numeral among the pager's link texts, or 0 when there is none |
| Extract.TotalPages | dsq4d_crawler_optimized.py:170-198 | 0 exactly when the page is unreachable or the 尾页 link names page 0; the numeral fallback is used when there is no usable 尾页 link |
| Extract.Dedup | dsq4d_crawler_optimized.py:224 | no duplicates, and the same elements as the input |
| Extract.DedupOrder | dsq4d_crawler_optimized.py:239 | elements keep the order of their first occurrence |
| Extract.DedupAppendDedup | dsq4d_crawler_optimized.py:224-239 | de-duplicating each page first does not change the final list |
| Extract.PageLinksConcatDedup | dsq4d_crawler_optimized.py:224-239 | the batch equals the de-duplicated concatenation of the raw links of all pages |
| Extract.MovieHrefs | dsq4d_crawler_optimized.py:215-222 | only hrefs starting with `/mp4/` are kept, as full URLs |
| Extract.BatchLinksSpec | dsq4d_crawler_optimized.py:200-239 | the batch has no duplicates, holds exactly the movie links of the pages, and keeps first-seen order |
| Extract.RawLinksAreMovieLinks | dsq4d_crawler_optimized.py:215-222 | every collected link is a detail URL of the site |
| Resolver.PlayUrlInjective | dsq4d_crawler_optimized.py:333 | distinct (dyid, episode index) pairs get distinct play URLs |
| Resolver.ConfigAt | dsq4d_crawler_optimized.py:342 | a match of `var player_aaaa\s*=\s*({.*?})` is a braced block after the variable |
| Resolver.PlayerConfig | dsq4d_crawler_optimized.py:342 | the configuration block is the match at the leftmost position where the pattern matches; none exactly when it matches at no position |
| Resolver.UrlValueAt | dsq4d_crawler_optimized.py:345 | a match of `url\s*:\s*'([^']*)'` gives a value without quotes |
| Resolver.UrlValue | dsq4d_crawler_optimized.py:345 | the `url` value is the match at the leftmost position where the pattern matches in the block; none exactly when it matches at no position |
| Resolver.ApiUrl | dsq4d_crawler_optimized.py:347-357 | the `get_dplayer` API's URL field, when it is non-empty and the reply has code 200 |
| Resolver.DecodedUrl | dsq4d_crawler_optimized.py:359-364 | a Base64 value decodes to a UTF-8 string starting with `http`, or gives nothing |
| Resolver.ConfiguredUrl | dsq4d_crawler_optimized.py:346-368 | the address the `url` value leads to is non-empty |
| Resolver.ScanAt | dsq4d_crawler_optimized.py:370 | a match of ``(https?://[^\s'"`,]+\.m3u8)`` at a position is an m3u8 address occurring there |
| Resolver.AfterSchemeIsScheme | dsq4d_crawler_optimized.py:370 | what `https?://` matches is exactly `http://` or `https://` |
| Resolver.LastExtensionIsLast | dsq4d_crawler_optimized.py:370 | the greedy class of URL characters backtracks to the last `.m3u8` within reach, and finds none only when there is none |
| Resolver.UrlRunStops | dsq4d_crawler_optimized.py:370 | the run of URL characters ends at a non-URL character or at the end of the page |
| Resolver.ScanM3u8 | dsq4d_crawler_optimized.py:370-372 | the scan result is an m3u8 address, the match at the leftmost position where the pattern matches; none exactly when it matches at no position |
| Resolver.FirstScanMatch | dsq4d_crawler_optimized.py:370-372 | a match with no match at any earlier position is what the scan returns |
| Resolver.ResolvePage | dsq4d_crawler_optimized.py:340-374 | the address found on a play page is truthy, and a page on which the scan finds an address always resolves |
| Resolver.SortByEpisode | dsq4d_crawler_optimized.py:469 | the sorted list is in episode order and a permutation of its input |
| Resolver.SortedUnchanged | dsq4d_crawler_optimized.py:469 | sorting a list already in episode order leaves it as it is |
| Resolver.FetchSelective | dsq4d_crawler_optimized.py:399-469 | a result exactly when episodes are requested; then one entry per requested episode, sorted by episode and a permutation of the fetches in request order; each entry the fetch of a requested episode, with its play page and the address `ResolvePlayUrl` gives for that page |
| Resolver.FetchSelectiveCovers | dsq4d_crawler_optimized.py:399-469 | every requested episode's fetch is in the result |
| Resolver.FetchSelectiveInRequestOrder | dsq4d_crawler_optimized.py:469 | episodes requested in ascending order, as the missing episodes are at line 646, come back in request order |
| Resolver.FetchAllIsSelectiveOfRange | dsq4d_crawler_optimized.py:328-397 | fetching all n episodes equals the selective fetch of episodes 1..n |
| Resolver.EncodingLooksBase64 | dsq4d_crawler_optimized.py:359 | any Base64 encoding passes the Base64 test and does not name `get_dplayer` |
| Resolver.Base64ValueYieldsAddress | dsq4d_crawler_optimized.py:359-364 | a `url` value that is the Base64 of a UTF-8 `http` address resolves to that address |
| Resolver.ApiOnlyForDplayer | dsq4d_crawler_optimized.py:347-368 | the API is consulted only for values naming `get_dplayer` |
| Resolver.DplayerOnlyThroughApi | dsq4d_crawler_optimized.py:347-358 | a `get_dplayer` value resolves through the API only, and fails when the API does |
| Resolver.DirectAddressUsed | dsq4d_crawler_optimized.py:347-367 | an `http` value that names no `get_dplayer` and does not look like Base64 is used directly |
| Resolver.SchemeValueNotBase64 | dsq4d_crawler_optimized.py:359 | a value containing `:` never looks like Base64, so an `http://` or `https://` value reaches the direct branch |
| Resolver.ConfiguredWins | dsq4d_crawler_optimized.py:342-372 | when the configuration yields an address, that address is returned and the scan is not consulted |
| Resolver.NoConfigurationScans | dsq4d_crawler_optimized.py:342-372 | a page without a player configuration falls back to the scan |
| Resolver.FailedConfigurationScans | dsq4d_crawler_optimized.py:342-372 | a configuration that yields no address also falls back to the scan |
| Resolver.ScanAtWrittenAddress | dsq4d_crawler_optimized.py:370 | an `http://` or `https://` address ending in `.m3u8` and followed by a non-URL character or the end of the page is what the pattern matches where it starts |
| Resolver.ScanFindsWrittenAddress | dsq4d_crawler_optimized.py:370-372 | the scan finds an `http://` or `https://` address written in the page when the pattern matches at no earlier position |
| Resolver.BareAddressPageResolves | dsq4d_crawler_optimized.py:340-374 | a page that is only an `http://` or `https://` address resolves to that address |
| Base64.DecodeEncode | dsq4d_crawler_optimized.py:361 | decoding the Base64 encoding of any bytes gives them back |
| Base64.DecodeEncodeFrom | dsq4d_crawler_optimized.py:361 | the same, after any bytes already decoded |
| Utf8.DecodeEncode | dsq4d_crawler_optimized.py:361 | decoding the UTF-8 encoding of any string gives it back |
| CrawlSpec.ParseDetail | dsq4d_crawler_optimized.py:241-312 | a parsed work carries the link it came from and the dyid of that link |
| CrawlSpec.ChunksPlanned | dsq4d_crawler_optimized.py:737-741 | the chunks of `range(current, total + 1, size)` start at the current page, end at the total, and are adjacent |
| CrawlSpec.ChunksFromShape | dsq4d_crawler_optimized.py:739-741 | each chunk is one step of pages, the last cut at the total |
| CrawlSpec.PageInOneChunk | dsq4d_crawler_optimized.py:737-741 | every page from current to total falls in exactly one chunk |
| CrawlProps.FlushOutcome | dsq4d_crawler_optimized.py:574-586 | a flush empties both buffers; an empty flush writes nothing; otherwise one transaction runs, and it either saves the buffers or leaves the tables as they were |
| CrawlProps.AddToBatchThreshold | dsq4d_crawler_optimized.py:561-586 | reaching either threshold empties the buffers and saves the grown buffers in one transaction, which either upserts the works and stores the entries or leaves the tables as they were (nothing is written when both are empty); otherwise the rows wait in the buffers and nothing is written |
| CrawlProps.NoIdNoTask | dsq4d_crawler_optimized.py:592-595 | a link without a dyid changes nothing and fails |
| CrawlProps.CompleteWorkUntouched | dsq4d_crawler_optimized.py:638-652 | a stored work with no missing episodes adds nothing to the buffers |
| CrawlProps.NewWorksOnly | dsq4d_crawler_optimized.py:618-652 | only works without a row are parsed and buffered, under the link's dyid |
| CrawlProps.RecrawlAddsNoEpisode | dsq4d_crawler_optimized.py:638-652 | a work crawled again on an unchanged site, after its first crawl was flushed and committed, leaves the `m3u8` table as it was, whether the second run's writes commit or fail |
| CrawlProps.RefetchUnaddressed | dsq4d_crawler_optimized.py:638-646 | every episode fetched again after the first fetch was saved has a falsy address, because a truthy one was saved the first time |
| CrawlProps.MissingFetched | dsq4d_crawler_optimized.py:640-646 | every missing episode is fetched, with the address resolved from its play page |
| CrawlProps.FirstCrawlSaved | dsq4d_crawler_optimized.py:561-586 | a first crawl from empty buffers, flushed with its one write committed, leaves empty buffers and the task's entries saved |
| CrawlProps.UnaddressedCrawlKeepsEpisodes | dsq4d_crawler_optimized.py:511-539 | a crawl whose entries carry no address leaves the `m3u8` table as it was after its flush |
| CrawlProps.CrawlMoviesKeepProgress | dsq4d_crawler_optimized.py:754-772 | crawling works never touches the progress rows |
| CrawlProps.SaveProgressOutcome | dsq4d_crawler_optimized.py:664-690 | a save succeeds exactly when its transaction commits, and then it records the progress; a failed save records nothing |
| CrawlProps.ChunkCheckpoint | dsq4d_crawler_optimized.py:775-778 | after a chunk with links, a committed checkpoint records the chunk's last page as `running` |
| CrawlProps.EmptyChunkSkipped | dsq4d_crawler_optimized.py:749-750 | a chunk without links changes nothing |
| CrawlProps.FinishRecords | dsq4d_crawler_optimized.py:783-797 | a run's closing record is saved when its transaction commits |
| CrawlProps.RunCompletes | dsq4d_crawler_optimized.py:783-786 | an uninterrupted run succeeds, empties the buffers, and records `completed` at the total page |
| CrawlProps.RunInterrupted | dsq4d_crawler_optimized.py:788-792 | an interrupted run fails and records `interrupted` at the page where the run started |
| CrawlProps.RunPastEnd | dsq4d_crawler_optimized.py:737-797 | a start page beyond the total fails and records `error` |
| CrawlProps.ResumeRunning | dsq4d_crawler_optimized.py:717-732 | a stored `running` record, without an explicit start page, resumes at its page and total |
| CrawlProps.FreshStartAtOne | dsq4d_crawler_optimized.py:723-732 | without a resumable record the run starts at page 1, and there is no run exactly when the total is 0 |
| CrawlProps.StartPageUsed | dsq4d_crawler_optimized.py:723-727 | an explicit start page is used as given |
| CrawlProps.CheckpointResumes | dsq4d_crawler_optimized.py:717-778 | the next run of a category resumes at the checkpointed chunk's last page, so that page is crawled again |
| CrawlProps.InterruptedRunRestarts | dsq4d_crawler_optimized.py:717-728 | after an interrupted run, the next run starts again at page 1 |
| CrawlProps.RunChunksKeepRowsUnique | dsq4d_crawler_optimized.py:737-781 | the page loop keeps the progress rows unique per category |
| CrawlProps.CrawlCategoryKeepsRowsUnique | dsq4d_crawler_optimized.py:707-797 | a whole run keeps the progress rows unique per category |
| CrawlProps.CrawlCategoryEmptiesBuffers | dsq4d_crawler_optimized.py:707-797 | a run that starts ends with both buffers empty; a run that cannot start changes nothing |
| Query.SearchMovies | query_data.py:69-100 | builds the query and parameter list that `Filtered` prescribes for the given filters, then adds the order and limit |
| Query.AndWhere | query_data.py:77-91 | a filter that is given appends its condition and parameters; a missing one changes nothing |
| Query.SearchPlaceholdersBound | query_data.py:74-97 | the query has exactly one `?` per parameter, starts with the base select, ends with the limit clause, and binds the limit last |
| Query.FilteredBalanced | query_data.py:74-91 | every filter step keeps the placeholders and parameters in balance |
| Query.KeywordWellBound | query_data.py:77-79 | the keyword condition has two placeholders and two parameters |
| Query.EqualsWellBound | query_data.py:81-91 | a column-equals condition has one placeholder and one parameter |
| Query.KeywordBoundTwice | query_data.py:77-79 | a keyword is bound as `%keyword%` to both the name and the description placeholders, first in the list |
| Query.ExportPlaylist | query_data.py:162-180 | an empty list or a file that cannot be opened fails and writes nothing; otherwise the text written is the playlist |
| Query.PlaylistLines | query_data.py:170-174 | the file's lines are the header followed by two lines per link |
| Query.PlaylistEntryAt | query_data.py:170-174 | the file has 1 + 2n lines, and link k has its `#EXTINF` line at line 2k+1 and its address at line 2k+2 |
| Query.EntriesLines | query_data.py:172-174 | the entries split into exactly two lines per link |

## Left out

- HTTP requests, the retrying session and its timeouts (`_create_optimized_session`, `_get_with_retry`) are the parameter `Site.get`, which is deterministic. Fetching the same URL twice gives the same answer.
- HTML parsing by BeautifulSoup is the parameter functions of `Site`: the pager, the listing anchors, the playlist and the detail fields. Only the regular expressions the code applies to text are modelled.
- The thread pools are left out. The model crawls in sequence, and takes page and episode results in request order where `as_completed` yields them in completion order. The sort by episode, which restores a fixed order of a work's episodes, is modelled. The final `dict.fromkeys` is modelled too, but it fixes only the set of a chunk's links, not their order: the source extends the list in completion order. The model's order (page by page, first occurrence first, `Extract.BatchLinks`) is one of the orders the source can produce.
- `_smart_delay`, `time.sleep`, printing, `argparse` and `main` have no effect on the data and are not modelled.
- `crawl_all_optimized` only loops over fixed category ids and is not modelled.
- `get_existing_m3u8_play_urls` is not called by the crawl and is not modelled.
- Timestamps (`update_time`) are not modelled.
- `_ensure_tables` and the schemas of `init_db.py` are not modelled; the tables are a map and sequences.
- A failing database read is not modelled. Only write transactions fail, through `storeFails`.
- A keyboard interrupt is modelled only before a chunk starts, not in the middle of one.
- An exception raised inside a work's crawl is not modelled. Such exceptions are caught and logged in the source.
- Util.IsNumeral, Extract.IdMatchFrom, Extract.PageMatchFrom, Extract.MaxNumeral, Extract.TotalPages: only ASCII digits are modelled. Python's `\d` and `str.isdigit()` also accept other Unicode digits. A 尾页 href with full-width digits such as `/list/1-２３.html` gives page 23 in the source, but the model falls back to the numeral texts. A pager text such as `②` passes `isdigit()` and then makes `int()` raise, which ends the run on its error path: a flush, then an `error` record at page 1 with total 0, because `get_total_pages` raises before `current_page` and `total_pages` leave their initial values. The model skips such a text. A detail URL with non-ASCII digits likewise gives a dyid in the source and none in the model.
- Query.SearchMovies: SQLite's execution of the query is not modelled, including the case-insensitive `LIKE`. Only the query text and its parameters are.
- Query.ExportPlaylist: a write error after the file is opened is not modelled. The file either opens and receives the whole text, or does not open.
- The CSV and JSON exports, the statistics and `get_m3u8_links` of `query_data.py` are not modelled.
