/** OptimizedDSQ4DCrawler: the batch buffers, the database writes and the crawl
    loops, each method proved to take the crawler from a state to the one the
    matching function of CrawlSpec prescribes. */
module Crawler {
  import opened Util
  import opened Records
  import opened Store
  import opened Extract
  import opened Resolver
  import opened CrawlSpec

  class DSQ4DCrawler {
    const env: Env
    var works: Works
    var episodes: Episodes
    var progress: seq<ProgressRow>
    var movieBatch: seq<Work>
    var m3u8Batch: seq<EpisodeEntry>
    var transactions: nat

    function Abs(): State
      reads this
    {
      State(works, episodes, progress, movieBatch, m3u8Batch, transactions)
    }

    /** A crawler over an existing database, with empty buffers. */
    constructor (env: Env, works: Works, episodes: Episodes, progress: seq<ProgressRow>)
      ensures this.env == env && Abs() == State(works, episodes, progress, [], [], 0)
    {
      this.env := env;
      this.works := works;
      this.episodes := episodes;
      this.progress := progress;
      movieBatch := [];
      m3u8Batch := [];
      transactions := 0;
    }

    /** check_movie_exists */
    method CheckMovieExists(dyid: int) returns (found: bool)
      ensures found <==> dyid in works
    {
      found := dyid in works;
    }

    /** batch_save_to_db: the works and then the episode entries are applied to a
        working copy of the tables, which the commit installs; a raising
        transaction is rolled back and leaves the tables as they were. */
    method BatchSaveToDb(movies: seq<Work>, m3u8s: seq<EpisodeEntry>) returns (ok: bool)
      modifies this
      ensures (Abs(), ok) == SaveBatch(env, old(Abs()), movies, m3u8s)
      ensures ok ==> works == UpsertWorks(old(works), movies) && episodes == StoreEpisodes(old(episodes), m3u8s)
      ensures !ok ==> works == old(works) && episodes == old(episodes)
    {
      var works0, episodes0 := works, episodes;
      var w := works0;
      for i := 0 to |movies|
        invariant w == UpsertWorks(works0, movies[..i])
      {
        assert movies[..i + 1][..i] == movies[..i];
        var m := movies[i];
        // the UPDATE of the stored row, or the INSERT of a new one: either way the
        // row of m.dyid holds m's fields afterwards
        w := w[m.dyid := m];
      }
      assert movies[..|movies|] == movies;
      var eps := episodes0;
      for i := 0 to |m3u8s|
        invariant eps == StoreEpisodes(episodes0, m3u8s[..i])
      {
        assert m3u8s[..i + 1][..i] == m3u8s[..i];
        var e := m3u8s[i];
        if Truthy(e.m3u8Url) {
          var key := (e.dyid, e.episode);
          if key in eps {
            if !Truthy(eps[key].m3u8Url) {
              eps := eps[key := EpisodeRow(e.name, e.playUrl, e.m3u8Url)];
            }
          } else {
            eps := eps[key := EpisodeRow(e.name, e.playUrl, e.m3u8Url)];
          }
        }
      }
      assert m3u8s[..|m3u8s|] == m3u8s;
      if env.storeFails(transactions) {
        ok := false;
      } else {
        works, episodes := w, eps;
        ok := true;
      }
      transactions := transactions + 1;
    }

    /** flush_batch */
    method FlushBatch() returns (ok: bool)
      modifies this
      ensures (Abs(), ok) == Flush(env, old(Abs()))
      ensures movieBatch == [] && m3u8Batch == []
    {
      if movieBatch != [] || m3u8Batch != [] {
        var movies, m3u8s := movieBatch, m3u8Batch;
        movieBatch, m3u8Batch := [], [];
        ok := BatchSaveToDb(movies, m3u8s);
      } else {
        ok := true;
      }
    }

    /** add_to_batch */
    method AddToBatch(info: Option<Work>, data: seq<EpisodeEntry>)
      modifies this
      ensures Abs() == CrawlSpec.AddToBatch(env, old(Abs()), info, data)
    {
      if info.Some? {
        movieBatch := movieBatch + [info.value];
      }
      if data != [] {
        m3u8Batch := m3u8Batch + data;
      }
      assert movieBatch == old(movieBatch) + (if info.Some? then [info.value] else []);
      assert m3u8Batch == old(m3u8Batch) + data;
      if |movieBatch| >= env.batchSize || |m3u8Batch| >= env.batchSize * 5 {
        var flushed := FlushBatch();
      }
    }

    /** save_progress */
    method SaveProgress(category: int, p: Progress) returns (ok: bool)
      modifies this
      ensures (Abs(), ok) == CrawlSpec.SaveProgress(env, old(Abs()), category, p)
      ensures ok ==> FindProgress(progress, category) == Some(p)
    {
      if env.storeFails(transactions) {
        ok := false;
      } else {
        if FindProgress(progress, category).Some? {
          progress := UpdateRows(progress, category, p);
        } else {
          progress := progress + [ProgressRow(category, p)];
        }
        ok := true;
        SaveThenFind(old(progress), category, p);
      }
      transactions := transactions + 1;
    }

    /** get_total_pages */
    method GetTotalPages(category: int) returns (n: int)
      ensures n == TotalPagesOf(env.site, category)
    {
      var body := env.site.get(ListUrl(category, 1));
      var view: Option<Pager> := None;
      if body.Some? {
        view := Some(env.site.pager(body.value));
      }
      n := TotalPages(view);
    }

    /** crawl_movie_fast */
    method CrawlMovie(url: string) returns (ok: bool)
      modifies this
      ensures (Abs(), ok) == CrawlSpec.CrawlMovie(env, old(Abs()), url)
    {
      var dyid := DyidFromUrl(url);
      if dyid.None? {
        return false;
      }
      var known := CheckMovieExists(dyid.value);
      var body := env.site.get(url);
      if body.None? {
        return false;
      }
      var count := EpisodeCount(env.site.playlist(body.value));
      var info: Option<Work> := None;
      var name := "影片" + NatToString(dyid.value);
      if !known {
        info := ParseDetail(env.site, url);
        if info.None? {
          return false;
        }
        name := info.value.name;
      } else {
        name := works[dyid.value].name;
      }
      var missing := MissingEpisodes(episodes, dyid.value, count);
      var data: seq<EpisodeEntry> := [];
      if missing != [] {
        data := FetchSelective(env.site, dyid.value, name, missing).value;
      }
      if info.Some? || data != [] {
        AddToBatch(info, data);
      }
      ok := true;
    }

    /** The works of one chunk, crawled in link order. */
    method CrawlLinks(links: seq<string>)
      modifies this
      ensures Abs() == CrawlMovies(env, old(Abs()), links)
    {
      for j := 0 to |links|
        invariant Abs() == CrawlMovies(env, old(Abs()), links[..j])
      {
        assert links[..j + 1][..j] == links[..j];
        var crawled := CrawlMovie(links[j]);
      }
      assert links[..|links|] == links;
    }

    /** One pass of the page loop over the pages first..last. */
    method CrawlChunk(category: int, total: int, first: int, last: int)
      requires first <= last
      modifies this
      ensures Abs() == RunChunk(env, old(Abs()), category, total, (first, last))
    {
      var links := ChunkLinks(env.site, category, first, last);
      if links != [] {
        CrawlLinks(links);
        var flushed := FlushBatch();
        var saved := SaveProgress(category, Progress(last, total, 0, Running));
      }
    }

    /** The closing flush and progress record of a run. */
    method FinishRun(category: int, p: Progress)
      modifies this
      ensures Abs() == Finish(env, old(Abs()), category, p)
      ensures movieBatch == [] && m3u8Batch == []
    {
      var flushed := FlushBatch();
      var saved := SaveProgress(category, p);
    }

    /** Where a run of the category starts: get_progress, then either the stored
        position or get_total_pages, and the test-mode cap. */
    method StartRun(category: int, startPage: Option<int>) returns (start: Option<Start>)
      ensures start == StartOf(env, progress, category, startPage)
    {
      var current := 1;
      var total := 0;
      var stored := FindProgress(progress, category);
      if stored.Some? && stored.value.status == Running && startPage.None? {
        current, total := stored.value.currentPage, stored.value.totalPages;
      } else {
        total := GetTotalPages(category);
        if total == 0 {
          return None;
        }
        current := if startPage.None? then 1 else startPage.value;
      }
      if env.testMode && total > 2 {
        total := 2;
      }
      start := Some(Start(current, total));
    }

    /** The chunks of a run, in order. */
    method CrawlChunks(category: int, total: int, chunks: seq<(int, int)>)
      requires ChunksOrdered(chunks)
      modifies this
      ensures Abs() == RunChunks(env, old(Abs()), category, total, chunks)
    {
      for k := 0 to |chunks|
        invariant Abs() == RunChunks(env, old(Abs()), category, total, chunks[..k])
      {
        CrawlChunk(category, total, chunks[k].0, chunks[k].1);
        assert chunks[..k + 1][..k] == chunks[..k];
      }
      assert chunks[..|chunks|] == chunks;
    }

    /** The page loop, over the chunks of `range(current, total + 1, size)`; an
        interrupt before chunk `interruptAt` ends the loop there. */
    method RunPages(category: int, current: int, total: int, interruptAt: Option<nat>) returns (ok: bool)
      modifies this
      ensures (Abs(), ok) == CrawlSpec.RunPages(env, old(Abs()), category, current, total, interruptAt)
    {
      if current > total {
        FinishRun(category, Progress(current, total, 0, Error));
        return false;
      }
      ChunksPlanned(current, total);
      var chunks := Chunks(current, total);
      if interruptAt.Some? && interruptAt.value < |chunks| {
        CrawlChunks(category, total, chunks[..interruptAt.value]);
        FinishRun(category, Progress(current, total, 0, Interrupted));
        ok := false;
      } else {
        CrawlChunks(category, total, chunks);
        FinishRun(category, Progress(total, total, 0, Completed));
        ok := true;
      }
    }

    /** crawl_category_optimized; `interruptAt` is the chunk before which the user
        interrupts the run, if any. */
    method CrawlCategory(category: int, startPage: Option<int>, interruptAt: Option<nat>) returns (ok: bool)
      modifies this
      ensures (Abs(), ok) == CrawlSpec.CrawlCategory(env, old(Abs()), category, startPage, interruptAt)
    {
      var start := StartRun(category, startPage);
      if start.None? {
        return false;
      }
      var current, total := start.value.current, start.value.total;
      var saved := SaveProgress(category, Progress(current, total, 0, Running));
      ok := RunPages(category, current, total, interruptAt);
    }

    /** close: the buffers are flushed one last time. */
    method Close()
      modifies this
      ensures Abs() == Flush(env, old(Abs())).0
    {
      var flushed := FlushBatch();
    }
  }
}
