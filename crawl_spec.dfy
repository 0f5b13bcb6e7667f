/** What the crawler's stateful operations do, as functions of the state before
    them: the batch buffers and their flush, the all-or-nothing save, the per-work
    task of crawl_movie_fast and the chunked page loop of crawl_category_optimized.
    The crawler class is proved to follow these functions step by step. */
module CrawlSpec {
  import opened Util
  import opened Records
  import opened Store
  import opened Extract
  import opened Resolver

  /** What a crawler is given: the site, the test-mode flag, the batch size, and
      which of its database write transactions raise (numbered from 0). */
  datatype Env = Env(site: Site, testMode: bool, batchSize: int, storeFails: nat -> bool)

  /** The database tables, the two batch buffers, and the number of write
      transactions attempted so far. */
  datatype State = State(
    works: Works,
    episodes: Episodes,
    progress: seq<ProgressRow>,
    movieBatch: seq<Work>,
    m3u8Batch: seq<EpisodeEntry>,
    transactions: nat)

  // ---------------------------------------------------------------------------
  // Saving and buffering
  // ---------------------------------------------------------------------------

  /** batch_save_to_db: one transaction that applies the works and the episode
      entries and commits, or raises and is rolled back to the state before it. */
  function SaveBatch(env: Env, st: State, movies: seq<Work>, m3u8s: seq<EpisodeEntry>): (State, bool) {
    var next := st.(transactions := st.transactions + 1);
    if env.storeFails(st.transactions) then (next, false)
    else (next.(works := UpsertWorks(st.works, movies), episodes := StoreEpisodes(st.episodes, m3u8s)), true)
  }

  /** flush_batch: both buffers are emptied before the save is attempted, so a
      failed save loses their contents; with nothing buffered it succeeds at once. */
  function Flush(env: Env, st: State): (State, bool) {
    if st.movieBatch == [] && st.m3u8Batch == [] then (st, true)
    else SaveBatch(env, st.(movieBatch := [], m3u8Batch := []), st.movieBatch, st.m3u8Batch)
  }

  /** add_to_batch: append, then flush once either buffer reaches its threshold. */
  function AddToBatch(env: Env, st: State, info: Option<Work>, data: seq<EpisodeEntry>): State {
    var next := st.(
      movieBatch := st.movieBatch + (if info.Some? then [info.value] else []),
      m3u8Batch := st.m3u8Batch + data);
    if |next.movieBatch| >= env.batchSize || |next.m3u8Batch| >= env.batchSize * 5 then Flush(env, next).0
    else next
  }

  /** save_progress: one transaction that upserts the category's row. */
  function SaveProgress(env: Env, st: State, category: int, p: Progress): (State, bool) {
    var next := st.(transactions := st.transactions + 1);
    if env.storeFails(st.transactions) then (next, false)
    else (next.(progress := SaveProgressRows(st.progress, category, p)), true)
  }

  // ---------------------------------------------------------------------------
  // One work: crawl_movie_fast
  // ---------------------------------------------------------------------------

  /** parse_movie_detail_fast: the work described by the detail page at url. */
  function ParseDetail(site: Site, url: string): (r: Option<Work>)
    ensures r.Some? ==> r.value.url == url && DyidFromUrl(url) == Some(r.value.dyid)
  {
    match site.get(url)
    case None => None
    case Some(body) =>
      match DyidFromUrl(url)
      case None => None
      case Some(dyid) => Some(WorkOf(dyid, site.detail(body), url))
  }

  /** What crawl_movie_fast reads and decides for one link, before it touches the
      buffers: None when it returns False; otherwise the work to add (a work the
      table does not hold yet) and the entries of the episodes still missing. */
  function MovieTask(env: Env, works: Works, episodes: Episodes, url: string): Option<(Option<Work>, seq<EpisodeEntry>)> {
    match DyidFromUrl(url)
    case None => None
    case Some(dyid) =>
      match env.site.get(url)
      case None => None
      case Some(body) =>
        var count := EpisodeTotal(env.site.playlist(body));
        var info := if dyid in works then None else ParseDetail(env.site, url);
        if dyid !in works && info.None? then None
        else
          var name := if info.Some? then info.value.name else works[dyid].name;
          Some((info, MissingEntries(env.site, dyid, name, episodes, count)))
  }

  /** get_missing_episodes, then get_m3u8_urls_selective when any episode is missing. */
  function MissingEntries(site: Site, dyid: nat, name: string, episodes: Episodes, count: int): seq<EpisodeEntry> {
    var missing := MissingEpisodes(episodes, dyid, count);
    if missing == [] then [] else FetchSelective(site, dyid, name, missing).value
  }

  /** crawl_movie_fast: each worker's result goes to the buffers when there is any. */
  function CrawlMovie(env: Env, st: State, url: string): (State, bool) {
    match MovieTask(env, st.works, st.episodes, url)
    case None => (st, false)
    case Some((info, data)) =>
      if info.Some? || data != [] then (AddToBatch(env, st, info, data), true) else (st, true)
  }

  /** The works of a chunk, crawled one after another in link order. */
  function CrawlMovies(env: Env, st: State, urls: seq<string>): State {
    if urls == [] then st
    else CrawlMovie(env, CrawlMovies(env, st, urls[..|urls| - 1]), urls[|urls| - 1]).0
  }

  // ---------------------------------------------------------------------------
  // One category: crawl_category_optimized
  // ---------------------------------------------------------------------------

  /** get_total_pages, fetch included. */
  function TotalPagesOf(site: Site, category: int): int {
    PageTotal(
      match site.get(ListUrl(category, 1))
      case None => None
      case Some(body) => Some(site.pager(body)))
  }

  datatype Start = Start(current: int, total: int)

  /** Where a run starts: the stored page and total when the stored status is
      running and no start page is given, otherwise the given page (or 1) and a
      freshly read total, None when that total is 0; in test mode the total is
      capped at 2. */
  function StartOf(env: Env, rows: seq<ProgressRow>, category: int, startPage: Option<int>): Option<Start> {
    var stored := FindProgress(rows, category);
    var start :=
      if stored.Some? && stored.value.status == Running && startPage.None? then
        Some(Start(stored.value.currentPage, stored.value.totalPages))
      else
        var total := TotalPagesOf(env.site, category);
        if total == 0 then None
        else Some(Start(if startPage.None? then 1 else startPage.value, total));
    match start
    case None => None
    case Some(s) => Some(s.(total := if env.testMode && s.total > 2 then 2 else s.total))
  }

  /** The chunks `range(start, total + 1, size)`, each ending `size - 1` pages later
      or at the last page. */
  function ChunksFrom(start: int, total: int, size: int): seq<(int, int)>
    requires size >= 1
    decreases total - start + 1
  {
    if start > total then []
    else [(start, Min(start + size - 1, total))] + ChunksFrom(start + size, total, size)
  }

  /** The chunk plan of a run over current..total: chunks of min(3, pages) pages. */
  function Chunks(current: int, total: int): seq<(int, int)>
    requires current <= total
  {
    ChunksFrom(current, total, Min(3, total - current + 1))
  }

  /** The listing of one page as the page parser sees it: nothing when the fetch fails. */
  function PageListing(site: Site, category: int, page: int): Option<seq<Option<string>>> {
    match site.get(ListUrl(category, page))
    case None => None
    case Some(body) => site.listing(body)
  }

  /** get_movie_links_batch over the pages first..last. */
  function ChunkLinks(site: Site, category: int, first: int, last: int): seq<string>
    requires first <= last
  {
    BatchLinks(seq(last - first + 1, k requires 0 <= k <= last - first => PageListing(site, category, first + k)))
  }

  /** One chunk: a chunk without links is skipped; otherwise its works are crawled,
      the buffers flushed and the chunk's last page recorded. */
  function RunChunk(env: Env, st: State, category: int, total: int, chunk: (int, int)): State
    requires chunk.0 <= chunk.1
  {
    var links := ChunkLinks(env.site, category, chunk.0, chunk.1);
    if links == [] then st
    else
      var crawled := CrawlMovies(env, st, links);
      SaveProgress(env, Flush(env, crawled).0, category, Progress(chunk.1, total, 0, Running)).0
  }

  predicate ChunksOrdered(chunks: seq<(int, int)>) {
    forall i | 0 <= i < |chunks| :: chunks[i].0 <= chunks[i].1
  }

  function RunChunks(env: Env, st: State, category: int, total: int, chunks: seq<(int, int)>): State
    requires ChunksOrdered(chunks)
  {
    if chunks == [] then st
    else RunChunk(env, RunChunks(env, st, category, total, chunks[..|chunks| - 1]), category, total, chunks[|chunks| - 1])
  }

  /** The last flush and progress record of a run. */
  function Finish(env: Env, st: State, category: int, p: Progress): State {
    SaveProgress(env, Flush(env, st).0, category, p).0
  }

  /** The page loop of a run over current..total and its closing record. A start
      past the last page raises ValueError (a range() step of 0, or a thread pool
      with no workers), recorded as an error; an interrupt before a chunk is
      recorded with the run's starting page. */
  function RunPages(env: Env, st: State, category: int, current: int, total: int, interruptAt: Option<nat>): (State, bool) {
    if current > total then
      (Finish(env, st, category, Progress(current, total, 0, Error)), false)
    else
      ChunksPlanned(current, total);
      var chunks := Chunks(current, total);
      if interruptAt.Some? && interruptAt.value < |chunks| then
        var done := RunChunks(env, st, category, total, chunks[..interruptAt.value]);
        (Finish(env, done, category, Progress(current, total, 0, Interrupted)), false)
      else
        var done := RunChunks(env, st, category, total, chunks);
        (Finish(env, done, category, Progress(total, total, 0, Completed)), true)
  }

  /** crawl_category_optimized. `interruptAt` is the chunk before which the user
      interrupts the run, if any. */
  function CrawlCategory(env: Env, st: State, category: int, startPage: Option<int>, interruptAt: Option<nat>): (State, bool) {
    match StartOf(env, st.progress, category, startPage)
    case None => (st, false)
    case Some(Start(current, total)) =>
      var started := SaveProgress(env, st, category, Progress(current, total, 0, Running)).0;
      RunPages(env, started, category, current, total, interruptAt)
  }

  // ---------------------------------------------------------------------------
  // The chunk plan
  // ---------------------------------------------------------------------------

  lemma {:induction false} ChunksFromShape(start: int, total: int, size: int)
    requires size >= 1
    ensures var c := ChunksFrom(start, total, size);
      && (start <= total ==> |c| >= 1 && c[0].0 == start && c[|c| - 1].1 == total)
      && (forall i | 0 <= i < |c| :: start <= c[i].0 <= c[i].1 <= total && c[i].1 - c[i].0 < size)
      && (forall i | 0 <= i < |c| - 1 :: c[i + 1].0 == c[i].1 + 1 && c[i].1 - c[i].0 == size - 1)
    decreases total - start + 1
  {
    if start <= total {
      ChunksFromShape(start + size, total, size);
    }
  }

  /** The chunks run from the first page to the last, each starting right after the
      one before, each of 1 to 3 pages, and all but the last of the same size. */
  lemma ChunksPlanned(current: int, total: int)
    requires current <= total
    ensures var c := Chunks(current, total);
      && |c| >= 1 && c[0].0 == current && c[|c| - 1].1 == total
      && ChunksOrdered(c)
      && (forall i | 0 <= i < |c| :: 1 <= c[i].1 - c[i].0 + 1 <= 3)
      && (forall i | 0 <= i < |c| - 1 :: c[i + 1].0 == c[i].1 + 1)
      && (forall i | 0 <= i < |c| - 1 :: c[i].1 - c[i].0 + 1 == Min(3, total - current + 1))
  {
    ChunksFromShape(current, total, Min(3, total - current + 1));
  }

  /** Every page of the run lies in exactly one chunk. */
  lemma PageInOneChunk(current: int, total: int, page: int)
    requires current <= page <= total
    ensures var c := Chunks(current, total);
      exists i | 0 <= i < |c| :: (c[i].0 <= page <= c[i].1
        && forall j | 0 <= j < |c| && j != i :: !(c[j].0 <= page <= c[j].1))
  {
    ChunksPlanned(current, total);
    var c := Chunks(current, total);
    ChunksIncrease(c);
    var i := ChunkOf(c, page, |c| - 1);
    forall j | 0 <= j < |c| && j != i ensures !(c[j].0 <= page <= c[j].1) {
      if j < i {
        assert c[j].1 < c[i].0;
      } else {
        assert c[i].1 < c[j].0;
      }
    }
  }

  lemma {:induction false} ChunksIncrease(c: seq<(int, int)>)
    requires ChunksOrdered(c) && forall i | 0 <= i < |c| - 1 :: c[i + 1].0 == c[i].1 + 1
    ensures forall i, j | 0 <= i < j < |c| :: c[i].1 < c[j].0
    decreases |c|
  {
    if |c| > 1 {
      ChunksIncrease(c[..|c| - 1]);
      forall i | 0 <= i < |c| - 1 ensures c[i].1 < c[|c| - 1].0 {
        if i < |c| - 2 {
          assert c[..|c| - 1][i].1 < c[..|c| - 1][|c| - 2].0;
        }
      }
    }
  }

  /** The last chunk up to index k that starts at or before the page. */
  lemma {:induction false} ChunkOf(c: seq<(int, int)>, page: int, k: nat) returns (i: nat)
    requires k < |c| && ChunksOrdered(c) && forall i | 0 <= i < |c| - 1 :: c[i + 1].0 == c[i].1 + 1
    requires c[0].0 <= page && (k == |c| - 1 ==> page <= c[k].1) && (k < |c| - 1 ==> page < c[k + 1].0)
    ensures i <= k && c[i].0 <= page <= c[i].1
    decreases k
  {
    if c[k].0 <= page {
      i := k;
    } else {
      i := ChunkOf(c, page, k - 1);
    }
  }
}
