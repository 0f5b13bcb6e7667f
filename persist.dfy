/** The crawler's tables and the rules by which it writes them: `dy` as a map from
    `dyid` (the one column the schema declares UNIQUE), `m3u8` as a map from
    (dyid, episode) (unique only because every insert is preceded by a lookup of
    that key), and `crawl_progress` as the list of its rows, since nothing but the
    crawler's own lookup keeps one row per category there. */
module Store {
  import opened Util
  import opened Records

  type Works = map<int, Work>
  type EpisodeKey = (int, int)
  type Episodes = map<EpisodeKey, EpisodeRow>

  // ---------------------------------------------------------------------------
  // Works: the movie half of batch_save_to_db
  // ---------------------------------------------------------------------------

  /** The position of the last work of the batch with the given dyid. */
  function LastWith(batch: seq<Work>, d: int): (r: Option<nat>)
    ensures r.Some? ==> (r.value < |batch| && batch[r.value].dyid == d
      && forall j | r.value < j < |batch| :: batch[j].dyid != d)
    ensures r.None? ==> forall j | 0 <= j < |batch| :: batch[j].dyid != d
  {
    if batch == [] then None
    else if batch[|batch| - 1].dyid == d then Some(|batch| - 1)
    else LastWith(batch[..|batch| - 1], d)
  }

  /** The works table after the batch's UPDATE-or-INSERT statements, in batch order:
      either statement leaves the one row of the work's dyid holding its fields. */
  function UpsertWorks(works: Works, batch: seq<Work>): Works {
    if batch == [] then works
    else
      var w := batch[|batch| - 1];
      UpsertWorks(works, batch[..|batch| - 1])[w.dyid := w]
  }

  /** Last wins: a dyid of the batch holds the fields of its last occurrence. */
  lemma {:induction false} UpsertWorksLastWins(works: Works, batch: seq<Work>, i: nat)
    requires i < |batch| && forall j | i < j < |batch| :: batch[j].dyid != batch[i].dyid
    ensures batch[i].dyid in UpsertWorks(works, batch)
    ensures UpsertWorks(works, batch)[batch[i].dyid] == batch[i]
    decreases |batch|
  {
    if i < |batch| - 1 {
      UpsertWorksLastWins(works, batch[..|batch| - 1], i);
    }
  }

  /** Rows of dyids outside the batch are neither added, removed nor changed. */
  lemma {:induction false} UpsertWorksOthers(works: Works, batch: seq<Work>, d: int)
    requires forall j | 0 <= j < |batch| :: batch[j].dyid != d
    ensures d in UpsertWorks(works, batch) <==> d in works
    ensures d in works ==> UpsertWorks(works, batch)[d] == works[d]
    decreases |batch|
  {
    if batch != [] {
      UpsertWorksOthers(works, batch[..|batch| - 1], d);
    }
  }

  /** Saving the same works twice leaves the table as saving them once. */
  lemma UpsertWorksIdempotent(works: Works, batch: seq<Work>)
    ensures UpsertWorks(UpsertWorks(works, batch), batch) == UpsertWorks(works, batch)
  {
    var once := UpsertWorks(works, batch);
    var twice := UpsertWorks(once, batch);
    forall d
      ensures (d in twice <==> d in once) && (d in once ==> twice[d] == once[d])
    {
      match LastWith(batch, d)
      case Some(i) =>
        UpsertWorksLastWins(works, batch, i);
        UpsertWorksLastWins(once, batch, i);
      case None =>
        UpsertWorksOthers(once, batch, d);
    }
  }

  // ---------------------------------------------------------------------------
  // Episodes: the m3u8 half of batch_save_to_db
  // ---------------------------------------------------------------------------

  function KeyOf(e: EpisodeEntry): EpisodeKey {
    (e.dyid, e.episode)
  }

  function RowOf(e: EpisodeEntry): EpisodeRow {
    EpisodeRow(e.name, e.playUrl, e.m3u8Url)
  }

  /** The row of k holds an address, in the sense of the save's `if not existing[1]`
      test: present, not NULL and not empty. */
  predicate HasAddress(eps: Episodes, k: EpisodeKey) {
    k in eps && Truthy(eps[k].m3u8Url)
  }

  /** One entry of the batch: skipped without an address; otherwise inserted when
      its key is absent, written over a stored row without an address, and skipped
      when the stored row has one. */
  function StoreEpisode(eps: Episodes, e: EpisodeEntry): Episodes {
    if !Truthy(e.m3u8Url) then eps
    else if KeyOf(e) in eps then
      if Truthy(eps[KeyOf(e)].m3u8Url) then eps else eps[KeyOf(e) := RowOf(e)]
    else eps[KeyOf(e) := RowOf(e)]
  }

  /** The episode table after the batch's entries, in batch order. */
  function StoreEpisodes(eps: Episodes, batch: seq<EpisodeEntry>): Episodes {
    if batch == [] then eps
    else StoreEpisode(StoreEpisodes(eps, batch[..|batch| - 1]), batch[|batch| - 1])
  }

  lemma {:induction false} StoreEpisodesAppend(eps: Episodes, a: seq<EpisodeEntry>, b: seq<EpisodeEntry>)
    ensures StoreEpisodes(eps, a + b) == StoreEpisodes(StoreEpisodes(eps, a), b)
    decreases |b|
  {
    if b == [] {
      assert a + b == a;
    } else {
      assert (a + b)[..|a + b| - 1] == a + b[..|b| - 1];
      StoreEpisodesAppend(eps, a, b[..|b| - 1]);
    }
  }

  /** A row that holds an address is never modified. */
  lemma {:induction false} AddressedRowKept(eps: Episodes, batch: seq<EpisodeEntry>, k: EpisodeKey)
    requires HasAddress(eps, k)
    ensures k in StoreEpisodes(eps, batch) && StoreEpisodes(eps, batch)[k] == eps[k]
    decreases |batch|
  {
    if batch != [] {
      AddressedRowKept(eps, batch[..|batch| - 1], k);
    }
  }

  /** Entries without an address write nothing: a key that no entry with an address
      names keeps its row, or stays absent. */
  lemma {:induction false} UntouchedRowKept(eps: Episodes, batch: seq<EpisodeEntry>, k: EpisodeKey)
    requires forall j | 0 <= j < |batch| && KeyOf(batch[j]) == k :: !Truthy(batch[j].m3u8Url)
    ensures k in StoreEpisodes(eps, batch) <==> k in eps
    ensures k in eps ==> StoreEpisodes(eps, batch)[k] == eps[k]
    decreases |batch|
  {
    if batch != [] {
      UntouchedRowKept(eps, batch[..|batch| - 1], k);
    }
  }

  /** An absent key, or a row without an address, receives the first entry of the
      batch that carries an address for that key. */
  lemma FirstAddressStored(eps: Episodes, batch: seq<EpisodeEntry>, i: nat)
    requires i < |batch| && Truthy(batch[i].m3u8Url) && !HasAddress(eps, KeyOf(batch[i]))
    requires forall j | 0 <= j < i && KeyOf(batch[j]) == KeyOf(batch[i]) :: !Truthy(batch[j].m3u8Url)
    ensures KeyOf(batch[i]) in StoreEpisodes(eps, batch)
    ensures StoreEpisodes(eps, batch)[KeyOf(batch[i])] == RowOf(batch[i])
  {
    var k := KeyOf(batch[i]);
    var pre, post := batch[..i], batch[i + 1..];
    assert batch == pre + [batch[i]] + post;
    assert forall j | 0 <= j < |pre| :: pre[j] == batch[j];
    UntouchedRowKept(eps, pre, k);
    var before := StoreEpisodes(eps, pre);
    assert !HasAddress(before, k);
    var one := [batch[i]];
    assert one[..|one| - 1] == [] && one[|one| - 1] == batch[i];
    var after := StoreEpisodes(before, one);
    assert after == StoreEpisode(StoreEpisodes(before, []), batch[i]);
    StoreEpisodesAppend(eps, pre, one);
    StoreEpisodesAppend(eps, pre + one, post);
    AddressedRowKept(after, post, k);
  }

  /** After the save, every entry that carried an address has an addressed row. */
  lemma {:induction false} EntryAddressSaved(eps: Episodes, batch: seq<EpisodeEntry>, j: nat)
    requires j < |batch| && Truthy(batch[j].m3u8Url)
    ensures HasAddress(StoreEpisodes(eps, batch), KeyOf(batch[j]))
    decreases |batch|
  {
    var init := batch[..|batch| - 1];
    if j < |batch| - 1 {
      EntryAddressSaved(eps, init, j);
      AddressedRowKept(StoreEpisodes(eps, init), [batch[|batch| - 1]], KeyOf(batch[j]));
      assert [batch[|batch| - 1]][..0] == [];
    }
  }

  /** A batch whose addressed entries all find addressed rows changes nothing. */
  lemma {:induction false} NothingNewNoChange(eps: Episodes, batch: seq<EpisodeEntry>)
    requires forall j | 0 <= j < |batch| && Truthy(batch[j].m3u8Url) :: HasAddress(eps, KeyOf(batch[j]))
    ensures StoreEpisodes(eps, batch) == eps
    decreases |batch|
  {
    if batch != [] {
      NothingNewNoChange(eps, batch[..|batch| - 1]);
    }
  }

  /** Saving the same entries twice leaves the table as saving them once. */
  lemma StoreEpisodesIdempotent(eps: Episodes, batch: seq<EpisodeEntry>)
    ensures StoreEpisodes(StoreEpisodes(eps, batch), batch) == StoreEpisodes(eps, batch)
  {
    forall j | 0 <= j < |batch| && Truthy(batch[j].m3u8Url)
      ensures HasAddress(StoreEpisodes(eps, batch), KeyOf(batch[j]))
    {
      EntryAddressSaved(eps, batch, j);
    }
    NothingNewNoChange(StoreEpisodes(eps, batch), batch);
  }

  // ---------------------------------------------------------------------------
  // get_missing_episodes
  // ---------------------------------------------------------------------------

  /** The row of k exists and its address is not NULL (`m3u8_url IS NOT NULL`). */
  predicate Resolved(eps: Episodes, k: EpisodeKey) {
    k in eps && eps[k].m3u8Url.Some?
  }

  /** The episodes lo..n of work d without a resolved row, in ascending order. */
  function MissingFrom(eps: Episodes, d: int, lo: int, n: int): (r: seq<int>)
    ensures forall a, b | 0 <= a < b < |r| :: r[a] < r[b]
    ensures forall e :: e in r <==> lo <= e <= n && !Resolved(eps, (d, e))
    decreases n - lo + 1
  {
    if lo > n then []
    else if Resolved(eps, (d, lo)) then MissingFrom(eps, d, lo + 1, n)
    else
      var rest := MissingFrom(eps, d, lo + 1, n);
      assert forall b | 0 <= b < |rest| :: rest[b] in rest;
      [lo] + rest
  }

  /** get_missing_episodes(d, n): the sorted set difference of 1..n and the stored
      episodes of d whose address is not NULL. */
  function MissingEpisodes(eps: Episodes, d: int, n: int): (r: seq<int>)
    ensures forall a, b | 0 <= a < b < |r| :: r[a] < r[b]
    ensures forall e :: e in r <==> 1 <= e <= n && !Resolved(eps, (d, e))
  {
    MissingFrom(eps, d, 1, n)
  }

  /** Saving never takes an address away, so nothing becomes missing. */
  lemma {:induction false} StoreKeepsResolved(eps: Episodes, batch: seq<EpisodeEntry>, k: EpisodeKey)
    requires Resolved(eps, k)
    ensures Resolved(StoreEpisodes(eps, batch), k)
    decreases |batch|
  {
    if batch != [] {
      StoreKeepsResolved(eps, batch[..|batch| - 1], k);
    }
  }

  /** A saved episode with an address is no longer reported missing, and the missing
      list only shrinks. */
  lemma SavedEpisodeNotMissing(eps: Episodes, batch: seq<EpisodeEntry>, n: int, j: nat)
    requires j < |batch| && Truthy(batch[j].m3u8Url)
    ensures batch[j].episode !in MissingEpisodes(StoreEpisodes(eps, batch), batch[j].dyid, n)
    ensures forall e | e in MissingEpisodes(StoreEpisodes(eps, batch), batch[j].dyid, n) ::
      e in MissingEpisodes(eps, batch[j].dyid, n)
  {
    EntryAddressSaved(eps, batch, j);
    var d := batch[j].dyid;
    forall e | e in MissingEpisodes(StoreEpisodes(eps, batch), d, n)
      ensures e in MissingEpisodes(eps, d, n)
    {
      if Resolved(eps, (d, e)) {
        StoreKeepsResolved(eps, batch, (d, e));
      }
    }
  }

  /** An episode still missing after a save was missing before it, and no entry
      of the save for it carried an address. */
  lemma StillMissingUnaddressed(eps: Episodes, batch: seq<EpisodeEntry>, d: int, n: int, ep: int)
    requires ep in MissingEpisodes(StoreEpisodes(eps, batch), d, n)
    ensures ep in MissingEpisodes(eps, d, n)
    ensures forall j | 0 <= j < |batch| && KeyOf(batch[j]) == (d, ep) :: !Truthy(batch[j].m3u8Url)
  {
    if Resolved(eps, (d, ep)) {
      StoreKeepsResolved(eps, batch, (d, ep));
    }
    forall j | 0 <= j < |batch| && KeyOf(batch[j]) == (d, ep)
      ensures !Truthy(batch[j].m3u8Url)
    {
      if Truthy(batch[j].m3u8Url) {
        EntryAddressSaved(eps, batch, j);
      }
    }
  }

  // ---------------------------------------------------------------------------
  // crawl_progress: save_progress and get_progress
  // ---------------------------------------------------------------------------

  datatype ProgressRow = ProgressRow(category: int, progress: Progress)

  /** At most one row per category. */
  predicate UniqueCategories(rows: seq<ProgressRow>) {
    forall i, j | 0 <= i < j < |rows| :: rows[i].category != rows[j].category
  }

  /** The first row of the category, as `fetchone` returns it. */
  function FindProgress(rows: seq<ProgressRow>, category: int): (r: Option<Progress>)
    ensures r.Some? <==> exists i | 0 <= i < |rows| :: rows[i].category == category
    ensures r.Some? ==> exists i | 0 <= i < |rows| :: rows[i] == ProgressRow(category, r.value)
  {
    if rows == [] then None
    else if rows[0].category == category then Some(rows[0].progress)
    else
      var r := FindProgress(rows[1..], category);
      assert forall i | 0 <= i < |rows| - 1 :: rows[1..][i] == rows[i + 1];
      r
  }

  /** The UPDATE of save_progress: every row of the category gets the new values. */
  function UpdateRows(rows: seq<ProgressRow>, category: int, p: Progress): (r: seq<ProgressRow>)
    ensures |r| == |rows|
  {
    seq(|rows|, i requires 0 <= i < |rows| =>
      if rows[i].category == category then ProgressRow(category, p) else rows[i])
  }

  /** save_progress on success: the UPDATE when the lookup finds a row of the
      category, the INSERT of a new row otherwise. */
  function SaveProgressRows(rows: seq<ProgressRow>, category: int, p: Progress): seq<ProgressRow> {
    if exists i | 0 <= i < |rows| :: rows[i].category == category then UpdateRows(rows, category, p)
    else rows + [ProgressRow(category, p)]
  }

  /** save_progress keeps at most one row per category. */
  lemma SaveProgressKeepsUnique(rows: seq<ProgressRow>, category: int, p: Progress)
    requires UniqueCategories(rows)
    ensures UniqueCategories(SaveProgressRows(rows, category, p))
  {
  }

  /** get_progress after save_progress returns what was saved. */
  lemma SaveThenFind(rows: seq<ProgressRow>, category: int, p: Progress)
    ensures FindProgress(SaveProgressRows(rows, category, p), category) == Some(p)
  {
    var r := SaveProgressRows(rows, category, p);
    assert exists i | 0 <= i < |r| :: r[i].category == category by {
      if exists i | 0 <= i < |rows| :: rows[i].category == category {
        var i :| 0 <= i < |rows| && rows[i].category == category;
        assert r[i].category == category;
      } else {
        assert r[|rows|].category == category;
      }
    }
  }

  lemma {:induction false} UpdateKeepsOthers(rows: seq<ProgressRow>, category: int, p: Progress, other: int)
    requires other != category
    ensures FindProgress(UpdateRows(rows, category, p), other) == FindProgress(rows, other)
    decreases |rows|
  {
    if rows != [] {
      assert UpdateRows(rows, category, p)[1..] == UpdateRows(rows[1..], category, p);
      UpdateKeepsOthers(rows[1..], category, p, other);
    }
  }

  lemma {:induction false} AppendKeepsOthers(rows: seq<ProgressRow>, row: ProgressRow, other: int)
    requires row.category != other
    ensures FindProgress(rows + [row], other) == FindProgress(rows, other)
    decreases |rows|
  {
    if rows != [] {
      assert (rows + [row])[1..] == rows[1..] + [row];
      AppendKeepsOthers(rows[1..], row, other);
    }
  }

  /** save_progress of one category leaves what get_progress returns for any other
      category as it was. */
  lemma SaveKeepsOthers(rows: seq<ProgressRow>, category: int, p: Progress, other: int)
    requires other != category
    ensures FindProgress(SaveProgressRows(rows, category, p), other) == FindProgress(rows, other)
  {
    UpdateKeepsOthers(rows, category, p, other);
    AppendKeepsOthers(rows, ProgressRow(category, p), other);
  }
}
