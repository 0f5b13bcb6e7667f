/** What the crawler's buffers, per-work task and page loop guarantee: the flush
    rules, the checkpoints a run leaves behind, where the next run starts, and
    that the progress table keeps one row per category. */
module CrawlProps {
  import opened Util
  import opened Records
  import opened Store
  import opened Extract
  import opened Resolver
  import opened CrawlSpec

  /** The write transaction that produced st committed. */
  predicate LastWriteOk(env: Env, st: State)
    requires st.transactions >= 1
  {
    !env.storeFails(st.transactions - 1)
  }

  // ---------------------------------------------------------------------------
  // The buffers
  // ---------------------------------------------------------------------------

  /** flush_batch: an empty flush succeeds and changes nothing; any other flush
      empties both buffers, and then either saves them or, when its transaction
      raises, drops them and leaves the tables as they were. */
  lemma FlushOutcome(env: Env, st: State)
    ensures var (r, ok) := Flush(env, st);
      && r.movieBatch == [] && r.m3u8Batch == [] && r.progress == st.progress
      && (st.movieBatch == [] && st.m3u8Batch == [] ==> r == st && ok)
      && (st.movieBatch != [] || st.m3u8Batch != [] ==>
            r.transactions == st.transactions + 1
            && (ok <==> !env.storeFails(st.transactions))
            && (ok ==> r.works == UpsertWorks(st.works, st.movieBatch)
                        && r.episodes == StoreEpisodes(st.episodes, st.m3u8Batch))
            && (!ok ==> r.works == st.works && r.episodes == st.episodes))
  {
  }

  /** add_to_batch flushes exactly when a buffer reaches its threshold: then both
      buffers end empty, and the grown buffers are saved in one transaction, which
      either commits them or leaves the tables as they were; otherwise the buffers
      hold what they held plus the new data and nothing is written. */
  lemma AddToBatchThreshold(env: Env, st: State, info: Option<Work>, data: seq<EpisodeEntry>)
    ensures var movies := st.movieBatch + (if info.Some? then [info.value] else []);
      var m3u8s := st.m3u8Batch + data;
      var r := CrawlSpec.AddToBatch(env, st, info, data);
      && r.progress == st.progress
      && (|movies| >= env.batchSize || |m3u8s| >= env.batchSize * 5 ==>
            && r.movieBatch == [] && r.m3u8Batch == []
            && (movies == [] && m3u8s == [] ==> r == st)
            && (movies != [] || m3u8s != [] ==>
                  && r.transactions == st.transactions + 1
                  && (!env.storeFails(st.transactions) ==>
                        r.works == UpsertWorks(st.works, movies) && r.episodes == StoreEpisodes(st.episodes, m3u8s))
                  && (env.storeFails(st.transactions) ==> r.works == st.works && r.episodes == st.episodes)))
      && (|movies| < env.batchSize && |m3u8s| < env.batchSize * 5 ==>
            r.movieBatch == movies && r.m3u8Batch == m3u8s
            && r.works == st.works && r.episodes == st.episodes && r.transactions == st.transactions)
  {
    var movies := st.movieBatch + (if info.Some? then [info.value] else []);
    var m3u8s := st.m3u8Batch + data;
    FlushOutcome(env, st.(movieBatch := movies, m3u8Batch := m3u8s));
  }

  // ---------------------------------------------------------------------------
  // One work
  // ---------------------------------------------------------------------------

  /** A link without a `/mp4/<digits>.html` part fails and adds nothing. */
  lemma NoIdNoTask(env: Env, st: State, url: string)
    requires DyidFromUrl(url).None?
    ensures CrawlSpec.CrawlMovie(env, st, url) == (st, false)
  {
  }

  /** A stored work none of whose episodes is missing succeeds and adds nothing. */
  lemma CompleteWorkUntouched(env: Env, st: State, url: string, body: string)
    requires DyidFromUrl(url).Some? && DyidFromUrl(url).value in st.works
    requires env.site.get(url) == Some(body)
    requires MissingEpisodes(st.episodes, DyidFromUrl(url).value, EpisodeTotal(env.site.playlist(body))) == []
    ensures CrawlSpec.CrawlMovie(env, st, url) == (st, true)
  {
  }

  /** A work is buffered only when the table does not hold its id yet, and then it
      is the work of the link's id. */
  lemma NewWorksOnly(env: Env, works: Works, episodes: Episodes, url: string)
    ensures var t := MovieTask(env, works, episodes, url);
      t.Some? && t.value.0.Some? ==>
        DyidFromUrl(url) == Some(t.value.0.value.dyid) && t.value.0.value.dyid !in works
  {
  }

  /** A work crawled again on an unchanged site, after its first crawl has been
      flushed and committed, writes no new episode: every episode still missing
      was fetched the first time, and its address was falsy then, since otherwise
      it would have been saved; the same fetch gives the same falsy address now,
      and the save skips entries without one. The second run's own transactions
      may commit or fail. */
  lemma RecrawlAddsNoEpisode(env: Env, st: State, url: string)
    requires st.movieBatch == [] && st.m3u8Batch == []
    requires !env.storeFails(st.transactions)
    ensures var s2 := Flush(env, CrawlSpec.CrawlMovie(env, st, url).0).0;
      Flush(env, CrawlSpec.CrawlMovie(env, s2, url).0).0.episodes == s2.episodes
  {
    var s2 := Flush(env, CrawlSpec.CrawlMovie(env, st, url).0).0;
    FirstCrawlSaved(env, st, url);
    var t := MovieTask(env, s2.works, s2.episodes, url);
    if t.Some? {
      var t1 := MovieTask(env, st.works, st.episodes, url);
      assert t1.Some?;
      var d := DyidFromUrl(url).value;
      var n := EpisodeTotal(env.site.playlist(env.site.get(url).value));
      var name1 := if t1.value.0.Some? then t1.value.0.value.name else st.works[d].name;
      var name2 := if t.value.0.Some? then t.value.0.value.name else s2.works[d].name;
      assert s2.episodes == StoreEpisodes(st.episodes, MissingEntries(env.site, d, name1, st.episodes, n));
      assert t.value.1 == MissingEntries(env.site, d, name2, s2.episodes, n);
      forall x | x in t.value.1
        ensures !Truthy(x.m3u8Url)
      {
        RefetchUnaddressed(env.site, st.episodes, d, n, name1, name2, x);
      }
    }
    UnaddressedCrawlKeepsEpisodes(env, s2, url);
  }

  /** A first crawl from empty buffers whose one write commits: the flushed state
      holds the task's entries saved and empty buffers, and a failed task leaves
      the state as it was. */
  lemma FirstCrawlSaved(env: Env, st: State, url: string)
    requires st.movieBatch == [] && st.m3u8Batch == []
    requires !env.storeFails(st.transactions)
    ensures var t := MovieTask(env, st.works, st.episodes, url);
      var s2 := Flush(env, CrawlSpec.CrawlMovie(env, st, url).0).0;
      && s2.movieBatch == [] && s2.m3u8Batch == []
      && (t.None? ==> s2 == st)
      && (t.Some? ==> s2.episodes == StoreEpisodes(st.episodes, t.value.1))
  {
    var t := MovieTask(env, st.works, st.episodes, url);
    var s1 := CrawlSpec.CrawlMovie(env, st, url).0;
    FlushOutcome(env, s1);
    if t.Some? {
      var (info, data) := t.value;
      if info.Some? || data != [] {
        AddToBatchThreshold(env, st, info, data);
        assert st.m3u8Batch + data == data;
      }
    }
  }

  /** An entry fetched for a work after the entries of its first fetch were saved
      has no address: its episode was missing before the save too, so the first
      fetch covered it, and a truthy address then would have been saved and made
      it no longer missing. */
  lemma RefetchUnaddressed(site: Site, eps: Episodes, d: nat, n: int, name1: string, name2: string, x: EpisodeEntry)
    requires x in MissingEntries(site, d, name2, StoreEpisodes(eps, MissingEntries(site, d, name1, eps, n)), n)
    ensures !Truthy(x.m3u8Url)
  {
    var data1 := MissingEntries(site, d, name1, eps, n);
    assert x.dyid == d && x.episode in MissingEpisodes(StoreEpisodes(eps, data1), d, n);
    StillMissingUnaddressed(eps, data1, d, n, x.episode);
    MissingFetched(site, d, name1, eps, n, x.episode);
    SavedAddressFalsy(eps, data1, d, n, x.episode, x.m3u8Url);
  }

  /** Some entry of data is episode ep of work d with address addr. */
  predicate Fetched(data: seq<EpisodeEntry>, d: int, ep: int, addr: Option<string>) {
    exists j | 0 <= j < |data| :: KeyOf(data[j]) == (d, ep) && data[j].m3u8Url == addr
  }

  /** An episode still missing after a save, whose entry in the save carried
      addr, had no address in that entry. */
  lemma SavedAddressFalsy(eps: Episodes, data: seq<EpisodeEntry>, d: int, n: int, ep: int, addr: Option<string>)
    requires ep in MissingEpisodes(StoreEpisodes(eps, data), d, n)
    requires Fetched(data, d, ep, addr)
    ensures !Truthy(addr)
  {
    StillMissingUnaddressed(eps, data, d, n, ep);
    var j :| 0 <= j < |data| && KeyOf(data[j]) == (d, ep) && data[j].m3u8Url == addr;
  }

  /** Every missing episode is fetched, with the address resolved from its play page. */
  lemma MissingFetched(site: Site, d: nat, name: string, eps: Episodes, n: int, ep: int)
    requires ep in MissingEpisodes(eps, d, n)
    ensures Fetched(MissingEntries(site, d, name, eps, n), d, ep, ResolvePlayUrl(site, PlayUrl(d, ep - 1)))
  {
    var missing := MissingEpisodes(eps, d, n);
    var data := MissingEntries(site, d, name, eps, n);
    var k :| 0 <= k < |missing| && missing[k] == ep;
    FetchSelectiveCovers(site, d, name, missing, k);
    var j :| 0 <= j < |data| && data[j] == FetchEpisode(site, d, name, ep);
    assert KeyOf(data[j]) == (d, ep);
  }

  /** A crawl whose task carries no addressed entry, from an empty episode
      buffer, leaves the episode table as it was once flushed. */
  lemma UnaddressedCrawlKeepsEpisodes(env: Env, s: State, url: string)
    requires s.m3u8Batch == []
    requires var t := MovieTask(env, s.works, s.episodes, url);
      t.Some? ==> forall x | x in t.value.1 :: !Truthy(x.m3u8Url)
    ensures Flush(env, CrawlSpec.CrawlMovie(env, s, url).0).0.episodes == s.episodes
  {
    var t := MovieTask(env, s.works, s.episodes, url);
    var s1 := CrawlSpec.CrawlMovie(env, s, url).0;
    FlushOutcome(env, s1);
    if t.Some? {
      var (info, data) := t.value;
      assert s.m3u8Batch + data == data;
      NothingNewNoChange(s.episodes, data);
      AddToBatchThreshold(env, s, info, data);
      NothingNewNoChange(s1.episodes, s1.m3u8Batch);
    }
  }

  /** Crawling works only buffers and flushes: the progress table is untouched. */
  lemma {:induction false} CrawlMoviesKeepProgress(env: Env, st: State, urls: seq<string>)
    ensures CrawlMovies(env, st, urls).progress == st.progress
    decreases |urls|
  {
    if urls != [] {
      var before := CrawlMovies(env, st, urls[..|urls| - 1]);
      CrawlMoviesKeepProgress(env, st, urls[..|urls| - 1]);
      var task := MovieTask(env, before.works, before.episodes, urls[|urls| - 1]);
      if task.Some? {
        AddToBatchThreshold(env, before, task.value.0, task.value.1);
      }
    }
  }

  // ---------------------------------------------------------------------------
  // Checkpoints
  // ---------------------------------------------------------------------------

  /** save_progress: a committed save makes the row of the category hold p; a
      failed one leaves the table as it was. */
  lemma SaveProgressOutcome(env: Env, st: State, category: int, p: Progress)
    ensures var (r, ok) := CrawlSpec.SaveProgress(env, st, category, p);
      && r.transactions == st.transactions + 1
      && r.movieBatch == st.movieBatch && r.m3u8Batch == st.m3u8Batch
      && (ok <==> LastWriteOk(env, r))
      && (ok ==> FindProgress(r.progress, category) == Some(p))
      && (!ok ==> r.progress == st.progress)
  {
    SaveThenFind(st.progress, category, p);
  }

  /** A chunk with links ends with its checkpoint: when that write commits, the row
      of the category records the chunk's last page as running. */
  lemma ChunkCheckpoint(env: Env, st: State, category: int, total: int, chunk: (int, int))
    requires chunk.0 <= chunk.1 && ChunkLinks(env.site, category, chunk.0, chunk.1) != []
    ensures var r := RunChunk(env, st, category, total, chunk);
      && r.transactions >= 1
      && (LastWriteOk(env, r) ==> FindProgress(r.progress, category) == Some(Progress(chunk.1, total, 0, Running)))
      && (!LastWriteOk(env, r) ==> r.progress == st.progress)
  {
    var crawled := CrawlMovies(env, st, ChunkLinks(env.site, category, chunk.0, chunk.1));
    CrawlMoviesKeepProgress(env, st, ChunkLinks(env.site, category, chunk.0, chunk.1));
    FlushOutcome(env, crawled);
    SaveProgressOutcome(env, Flush(env, crawled).0, category, Progress(chunk.1, total, 0, Running));
  }

  /** A chunk without links changes nothing: no flush and no checkpoint. */
  lemma EmptyChunkSkipped(env: Env, st: State, category: int, total: int, chunk: (int, int))
    requires chunk.0 <= chunk.1 && ChunkLinks(env.site, category, chunk.0, chunk.1) == []
    ensures RunChunk(env, st, category, total, chunk) == st
  {
  }

  /** The closing flush and record of a run: the buffers end empty, and a committed
      record makes the category's row hold p. */
  lemma FinishRecords(env: Env, st: State, category: int, p: Progress)
    ensures var r := Finish(env, st, category, p);
      && r.movieBatch == [] && r.m3u8Batch == [] && r.transactions >= 1
      && (LastWriteOk(env, r) ==> FindProgress(r.progress, category) == Some(p))
  {
    FlushOutcome(env, st);
    SaveProgressOutcome(env, Flush(env, st).0, category, p);
  }

  // ---------------------------------------------------------------------------
  // The end of a run
  // ---------------------------------------------------------------------------

  /** A run that reaches the end of its chunk plan returns True and records
      (total, total, completed). */
  lemma RunCompletes(env: Env, st: State, category: int, current: int, total: int, interruptAt: Option<nat>)
    requires current <= total
    requires interruptAt.None? || interruptAt.value >= |Chunks(current, total)|
    ensures var (r, ok) := CrawlSpec.RunPages(env, st, category, current, total, interruptAt);
      && ok && r.movieBatch == [] && r.m3u8Batch == [] && r.transactions >= 1
      && (LastWriteOk(env, r) ==> FindProgress(r.progress, category) == Some(Progress(total, total, 0, Completed)))
  {
    ChunksPlanned(current, total);
    var done := RunChunks(env, st, category, total, Chunks(current, total));
    FinishRecords(env, done, category, Progress(total, total, 0, Completed));
  }

  /** An interrupted run returns False and records its starting page as interrupted. */
  lemma RunInterrupted(env: Env, st: State, category: int, current: int, total: int, k: nat)
    requires current <= total && k < |Chunks(current, total)|
    ensures var (r, ok) := CrawlSpec.RunPages(env, st, category, current, total, Some(k));
      && !ok && r.movieBatch == [] && r.m3u8Batch == [] && r.transactions >= 1
      && (LastWriteOk(env, r) ==> FindProgress(r.progress, category) == Some(Progress(current, total, 0, Interrupted)))
  {
    ChunksPlanned(current, total);
    var done := RunChunks(env, st, category, total, Chunks(current, total)[..k]);
    FinishRecords(env, done, category, Progress(current, total, 0, Interrupted));
  }

  /** A start past the last page raises before any page is fetched: the run returns
      False and records an error at its starting page. */
  lemma RunPastEnd(env: Env, st: State, category: int, current: int, total: int, interruptAt: Option<nat>)
    requires current > total
    ensures var (r, ok) := CrawlSpec.RunPages(env, st, category, current, total, interruptAt);
      && !ok && r == Finish(env, st, category, Progress(current, total, 0, Error))
      && (LastWriteOk(env, r) ==> FindProgress(r.progress, category) == Some(Progress(current, total, 0, Error)))
  {
    FinishRecords(env, st, category, Progress(current, total, 0, Error));
  }

  // ---------------------------------------------------------------------------
  // Where a run starts
  // ---------------------------------------------------------------------------

  /** The total a run uses for a given total: at most 2 pages in test mode. */
  function Capped(env: Env, total: int): int {
    if env.testMode && total > 2 then 2 else total
  }

  /** A running row with no start page given resumes at its stored page. */
  lemma ResumeRunning(env: Env, rows: seq<ProgressRow>, category: int, p: Progress)
    requires FindProgress(rows, category) == Some(p) && p.status == Running
    ensures StartOf(env, rows, category, None) == Some(Start(p.currentPage, Capped(env, p.totalPages)))
  {
  }

  /** Without a running row, and without a start page, a run starts at page 1 over
      the site's page count, or does not start when that count is 0. */
  lemma FreshStartAtOne(env: Env, rows: seq<ProgressRow>, category: int)
    requires FindProgress(rows, category).None? || FindProgress(rows, category).value.status != Running
    ensures var s := StartOf(env, rows, category, None);
      && (s.None? <==> TotalPagesOf(env.site, category) == 0)
      && (s.Some? ==> s.value == Start(1, Capped(env, TotalPagesOf(env.site, category))))
  {
  }

  /** A given start page is always used, over the site's page count. */
  lemma StartPageUsed(env: Env, rows: seq<ProgressRow>, category: int, page: int)
    ensures var s := StartOf(env, rows, category, Some(page));
      && (s.None? <==> TotalPagesOf(env.site, category) == 0)
      && (s.Some? ==> s.value == Start(page, Capped(env, TotalPagesOf(env.site, category))))
  {
  }

  /** After a chunk's committed checkpoint, the next run (without a start page)
      resumes at the chunk's last page. */
  lemma CheckpointResumes(env: Env, st: State, category: int, total: int, chunk: (int, int))
    requires chunk.0 <= chunk.1 && ChunkLinks(env.site, category, chunk.0, chunk.1) != []
    requires RunChunk(env, st, category, total, chunk).transactions >= 1
    requires LastWriteOk(env, RunChunk(env, st, category, total, chunk))
    ensures StartOf(env, RunChunk(env, st, category, total, chunk).progress, category, None)
      == Some(Start(chunk.1, Capped(env, total)))
  {
    ChunkCheckpoint(env, st, category, total, chunk);
    ResumeRunning(env, RunChunk(env, st, category, total, chunk).progress, category, Progress(chunk.1, total, 0, Running));
  }

  /** An interrupted run whose record committed is not resumed: the next run
      without a start page begins again at page 1. */
  lemma InterruptedRunRestarts(env: Env, st: State, category: int, current: int, total: int, k: nat)
    requires current <= total && k < |Chunks(current, total)|
    requires CrawlSpec.RunPages(env, st, category, current, total, Some(k)).0.transactions >= 1
    requires LastWriteOk(env, CrawlSpec.RunPages(env, st, category, current, total, Some(k)).0)
    ensures var s := StartOf(env, CrawlSpec.RunPages(env, st, category, current, total, Some(k)).0.progress, category, None);
      s.Some? ==> s.value.current == 1
  {
    RunInterrupted(env, st, category, current, total, k);
    FreshStartAtOne(env, CrawlSpec.RunPages(env, st, category, current, total, Some(k)).0.progress, category);
  }

  // ---------------------------------------------------------------------------
  // One row per category
  // ---------------------------------------------------------------------------

  lemma SaveProgressKeepsRowsUnique(env: Env, st: State, category: int, p: Progress)
    requires UniqueCategories(st.progress)
    ensures UniqueCategories(CrawlSpec.SaveProgress(env, st, category, p).0.progress)
  {
    SaveProgressKeepsUnique(st.progress, category, p);
  }

  lemma RunChunkKeepsRowsUnique(env: Env, st: State, category: int, total: int, chunk: (int, int))
    requires chunk.0 <= chunk.1 && UniqueCategories(st.progress)
    ensures UniqueCategories(RunChunk(env, st, category, total, chunk).progress)
  {
    var links := ChunkLinks(env.site, category, chunk.0, chunk.1);
    if links != [] {
      var crawled := CrawlMovies(env, st, links);
      CrawlMoviesKeepProgress(env, st, links);
      FlushOutcome(env, crawled);
      SaveProgressKeepsRowsUnique(env, Flush(env, crawled).0, category, Progress(chunk.1, total, 0, Running));
    }
  }

  lemma {:induction false} RunChunksKeepRowsUnique(env: Env, st: State, category: int, total: int, chunks: seq<(int, int)>)
    requires ChunksOrdered(chunks) && UniqueCategories(st.progress)
    ensures UniqueCategories(RunChunks(env, st, category, total, chunks).progress)
    decreases |chunks|
  {
    if chunks != [] {
      RunChunksKeepRowsUnique(env, st, category, total, chunks[..|chunks| - 1]);
      RunChunkKeepsRowsUnique(env, RunChunks(env, st, category, total, chunks[..|chunks| - 1]), category, total, chunks[|chunks| - 1]);
    }
  }

  lemma FinishKeepsRowsUnique(env: Env, st: State, category: int, p: Progress)
    requires UniqueCategories(st.progress)
    ensures UniqueCategories(Finish(env, st, category, p).progress)
  {
    FlushOutcome(env, st);
    SaveProgressKeepsRowsUnique(env, Flush(env, st).0, category, p);
  }

  lemma RunPagesKeepsRowsUnique(env: Env, st: State, category: int, current: int, total: int, interruptAt: Option<nat>)
    requires UniqueCategories(st.progress)
    ensures UniqueCategories(CrawlSpec.RunPages(env, st, category, current, total, interruptAt).0.progress)
  {
    if current > total {
      FinishKeepsRowsUnique(env, st, category, Progress(current, total, 0, Error));
    } else {
      ChunksPlanned(current, total);
      var chunks := Chunks(current, total);
      if interruptAt.Some? && interruptAt.value < |chunks| {
        RunChunksKeepRowsUnique(env, st, category, total, chunks[..interruptAt.value]);
        var done := RunChunks(env, st, category, total, chunks[..interruptAt.value]);
        FinishKeepsRowsUnique(env, done, category, Progress(current, total, 0, Interrupted));
      } else {
        RunChunksKeepRowsUnique(env, st, category, total, chunks);
        var done := RunChunks(env, st, category, total, chunks);
        FinishKeepsRowsUnique(env, done, category, Progress(total, total, 0, Completed));
      }
    }
  }

  /** However a run of crawl_category_optimized ends, the progress table still
      holds at most one row per category. */
  lemma CrawlCategoryKeepsRowsUnique(env: Env, st: State, category: int, startPage: Option<int>, interruptAt: Option<nat>)
    requires UniqueCategories(st.progress)
    ensures UniqueCategories(CrawlSpec.CrawlCategory(env, st, category, startPage, interruptAt).0.progress)
  {
    var start := StartOf(env, st.progress, category, startPage);
    if start.Some? {
      var current, total := start.value.current, start.value.total;
      SaveProgressKeepsRowsUnique(env, st, category, Progress(current, total, 0, Running));
      var started := CrawlSpec.SaveProgress(env, st, category, Progress(current, total, 0, Running)).0;
      RunPagesKeepsRowsUnique(env, started, category, current, total, interruptAt);
    }
  }

  /** A run that starts ends with both buffers empty; one that does not start
      changes nothing. */
  lemma CrawlCategoryEmptiesBuffers(env: Env, st: State, category: int, startPage: Option<int>, interruptAt: Option<nat>)
    ensures var (r, ok) := CrawlSpec.CrawlCategory(env, st, category, startPage, interruptAt);
      && (StartOf(env, st.progress, category, startPage).None? ==> r == st && !ok)
      && (StartOf(env, st.progress, category, startPage).Some? ==> r.movieBatch == [] && r.m3u8Batch == [])
  {
    var start := StartOf(env, st.progress, category, startPage);
    if start.Some? {
      var current, total := start.value.current, start.value.total;
      var started := CrawlSpec.SaveProgress(env, st, category, Progress(current, total, 0, Running)).0;
      if current > total {
        RunPastEnd(env, started, category, current, total, interruptAt);
        FinishRecords(env, started, category, Progress(current, total, 0, Error));
      } else if interruptAt.Some? && interruptAt.value < |Chunks(current, total)| {
        RunInterrupted(env, started, category, current, total, interruptAt.value);
      } else {
        RunCompletes(env, started, category, current, total, interruptAt);
      }
    }
  }
}
