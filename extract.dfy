/** What the crawler extracts from URLs and listing pages: the work id of a detail
    URL, the number of episodes of a work, the number of listing pages of a
    category, and the de-duplicated detail links of a batch of listing pages. */
module Extract {
  import opened Util
  import opened Records

  // ---------------------------------------------------------------------------
  // Digit runs, the building block of the `\d+` patterns
  // ---------------------------------------------------------------------------

  /** Length of the run of digits in s starting at j. */
  function DigitRun(s: string, j: nat): (k: nat)
    requires j <= |s|
    ensures j + k <= |s|
    ensures forall m | j <= m < j + k :: IsDigit(s[m])
    ensures j + k == |s| || !IsDigit(s[j + k])
    decreases |s| - j
  {
    if j < |s| && IsDigit(s[j]) then 1 + DigitRun(s, j + 1) else 0
  }

  /** `\d+` matches the k characters at j, and `suffix` follows them. */
  predicate NumberThen(s: string, j: int, k: int, suffix: string) {
    0 <= j && 1 <= k && j + k <= |s| && AllDigits(s[j..j + k]) && OccursAt(s, suffix, j + k)
  }

  /** The length of the digit run at j when `\d+suffix` matches there. A suffix
      that starts with a non-digit leaves the greedy `\d+` no other choice. */
  function NumberThenLen(s: string, j: nat, suffix: string): (r: Option<nat>)
    requires j <= |s|
    requires suffix != [] && !IsDigit(suffix[0])
    ensures r.Some? ==> NumberThen(s, j, r.value, suffix)
    ensures r.None? ==> forall k :: !NumberThen(s, j, k, suffix)
    ensures r.Some? ==> forall k :: NumberThen(s, j, k, suffix) ==> k == r.value
  {
    var k := DigitRun(s, j);
    assert AllDigits(s[j..j + k]);
    forall k' | NumberThen(s, j, k', suffix) ensures k' == k {
      assert s[j + k'] == suffix[0];
      forall m | j <= m < j + k' ensures IsDigit(s[m]) {
        assert s[j..j + k'][m - j] == s[m];
      }
    }
    if k >= 1 && OccursAt(s, suffix, j + k) then Some(k) else None
  }

  // ---------------------------------------------------------------------------
  // The work id: re.search(r'/mp4/(\d+)\.html', url)
  // ---------------------------------------------------------------------------

  /** The work id pattern matches at i, its digit run having length k. */
  predicate IdMatchAt(s: string, i: int, k: int) {
    OccursAt(s, "/mp4/", i) && NumberThen(s, i + 5, k, ".html")
  }

  /** The match at j is the leftmost one at or after i. */
  ghost predicate FirstIdMatch(s: string, i: int, j: int, k: int) {
    i <= j && IdMatchAt(s, j, k) && forall j', k' :: i <= j' < j ==> !IdMatchAt(s, j', k')
  }

  /** re.search from position i: the position and digit-run length of the leftmost match. */
  function IdMatchFrom(s: string, i: nat): (r: Option<(nat, nat)>)
    requires i <= |s|
    ensures r.Some? ==> FirstIdMatch(s, i, r.value.0, r.value.1)
    ensures r.None? ==> forall j, k :: i <= j ==> !IdMatchAt(s, j, k)
    decreases |s| - i
  {
    var here := if OccursAt(s, "/mp4/", i) then NumberThenLen(s, i + 5, ".html") else None;
    if here.Some? then Some((i, here.value))
    else if i == |s| then None
    else
      assert forall k :: !IdMatchAt(s, i, k);
      IdMatchFrom(s, i + 1)
  }

  /** The work id in a detail URL: the digits between the first `/mp4/` that is
      followed by digits and `.html`; None when the URL has no such part. */
  function DyidFromUrl(url: string): Option<nat> {
    match IdMatchFrom(url, 0)
    case Some((j, k)) => Some(DigitsValue(url[j + 5..j + 5 + k]))
    case None => None
  }

  /** There is only one leftmost match. */
  lemma FirstIdMatchUnique(s: string, i: int, j: int, k: int, j': int, k': int)
    requires FirstIdMatch(s, i, j, k) && FirstIdMatch(s, i, j', k')
    ensures j == j' && k == k'
  {
    var r := NumberThenLen(s, j + 5, ".html");
  }

  /** In a detail URL the id pattern matches right after the site address. */
  lemma DetailUrlMatches(digits: string)
    requires IsNumeral(digits)
    ensures IdMatchAt(BASE_URL + "/mp4/" + digits + ".html", 19, |digits|)
  {
    var s := BASE_URL + "/mp4/" + digits + ".html";
    var k := |digits|;
    assert |BASE_URL| == 19;
    assert s[19..24] == "/mp4/";
    assert s[24..24 + k] == digits;
    assert s[24 + k..24 + k + 5] == ".html";
  }

  /** `/mp4/` does not start inside the site address. */
  lemma NoMp4InSite(digits: string, j: nat)
    requires j < 19
    ensures !OccursAt(BASE_URL + "/mp4/" + digits + ".html", "/mp4/", j)
  {
    var s := BASE_URL + "/mp4/" + digits + ".html";
    var c := if j == 6 then 1 else if j == 7 then 2 else 0;
    assert s[j + c] == BASE_URL[j + c];
    assert BASE_URL[j + c] != "/mp4/"[c];
    assert s[j..j + 5][c] == s[j + c];
  }

  /** The site address holds no match of the id pattern. */
  lemma NoIdMatchInSite(digits: string)
    ensures forall j, k | 0 <= j < 19 :: !IdMatchAt(BASE_URL + "/mp4/" + digits + ".html", j, k)
  {
    forall j: nat | j < 19 ensures !OccursAt(BASE_URL + "/mp4/" + digits + ".html", "/mp4/", j) {
      NoMp4InSite(digits, j);
    }
  }

  /** The canonical detail URL of work n yields n. */
  lemma DyidOfDetailUrl(n: nat)
    ensures DyidFromUrl(DetailUrl(n)) == Some(n)
  {
    var digits := NatToString(n);
    var s := DetailUrl(n);
    var k := |digits|;
    DetailUrlMatches(digits);
    NoIdMatchInSite(digits);
    assert FirstIdMatch(s, 0, 19, k);
    var m := IdMatchFrom(s, 0);
    FirstIdMatchUnique(s, 0, m.value.0, m.value.1, 19, k);
    assert s[24..24 + k] == digits;
  }

  /** A URL in which `/mp4/` does not occur has no work id. */
  lemma NoMp4NoDyid(url: string)
    requires forall i :: !OccursAt(url, "/mp4/", i)
    ensures DyidFromUrl(url) == None
  {
  }

  // ---------------------------------------------------------------------------
  // The episode count: get_episode_count_fast
  // ---------------------------------------------------------------------------

  const APP_PLAY: string := "APP播放"

  /** Number of play-list entries that are episodes (not the "APP播放" link). */
  function EpisodeLinks(items: seq<string>): nat {
    if items == [] then 0
    else EpisodeLinks(items[..|items| - 1]) + (if items[|items| - 1] != APP_PLAY then 1 else 0)
  }

  /** The count equals the number of items minus the "APP播放" items. */
  lemma {:induction false} EpisodeLinksCount(items: seq<string>)
    ensures EpisodeLinks(items) == |items| - multiset(items)[APP_PLAY]
    decreases |items|
  {
    if items != [] {
      var init := items[..|items| - 1];
      assert items == init + [items[|items| - 1]];
      assert multiset(items) == multiset(init) + multiset{items[|items| - 1]};
      EpisodeLinksCount(init);
    }
  }

  /** The episode count of a detail page: the episode links of its play list, at
      least one, and one when the page has no play list. */
  function EpisodeTotal(playlist: Option<seq<string>>): (n: int)
    ensures n >= 1
  {
    if playlist.None? then 1 else Max(EpisodeLinks(playlist.value), 1)
  }

  /** get_episode_count_fast over the play-list texts the parser found. */
  method EpisodeCount(playlist: Option<seq<string>>) returns (n: int)
    ensures n == EpisodeTotal(playlist)
    ensures playlist.Some? ==> n == Max(|playlist.value| - multiset(playlist.value)[APP_PLAY], 1)
  {
    if playlist.None? {
      return 1;
    }
    var items := playlist.value;
    var count := 0;
    for i := 0 to |items|
      invariant count == EpisodeLinks(items[..i])
    {
      assert items[..i + 1][..i] == items[..i];
      if items[i] != APP_PLAY {
        count := count + 1;
      }
    }
    assert items[..|items|] == items;
    EpisodeLinksCount(items);
    n := Max(count, 1);
  }

  // ---------------------------------------------------------------------------
  // The page count: get_total_pages
  // ---------------------------------------------------------------------------

  /** re.search(r'/list/\d+-(\d+)\.html', href) matches at i with digit runs k1 and k2. */
  predicate PageMatchAt(s: string, i: int, k1: int, k2: int) {
    OccursAt(s, "/list/", i) && NumberThen(s, i + 6, k1, "-") && NumberThen(s, i + 7 + k1, k2, ".html")
  }

  ghost predicate FirstPageMatch(s: string, i: int, j: int, k1: int, k2: int) {
    i <= j && PageMatchAt(s, j, k1, k2) && forall j', k1', k2' :: i <= j' < j ==> !PageMatchAt(s, j', k1', k2')
  }

  /** The two digit-run lengths of a match at i, if the pattern matches there. */
  function PageMatchHere(s: string, i: nat): Option<(nat, nat)>
    requires i <= |s|
  {
    if !OccursAt(s, "/list/", i) then None
    else
      match NumberThenLen(s, i + 6, "-")
      case None => None
      case Some(k1) =>
        match NumberThenLen(s, i + 7 + k1, ".html")
        case None => None
        case Some(k2) => Some((k1, k2))
  }

  /** Without `/list/` at i there is no match at i. */
  lemma HereNoList(s: string, i: nat)
    requires i <= |s| && !OccursAt(s, "/list/", i)
    ensures PageMatchHere(s, i) == None
    ensures forall k1, k2 :: !PageMatchAt(s, i, k1, k2)
  {
  }

  /** Without a first digit run followed by `-` there is no match at i. */
  lemma HereNoCategoryRun(s: string, i: nat)
    requires i + 6 <= |s| && OccursAt(s, "/list/", i)
    requires NumberThenLen(s, i + 6, "-").None?
    ensures PageMatchHere(s, i) == None
    ensures forall k1, k2 :: !PageMatchAt(s, i, k1, k2)
  {
  }

  /** Without a second digit run followed by `.html` there is no match at i. */
  lemma HereNoPageRun(s: string, i: nat, k1: nat)
    requires i + 7 + k1 <= |s| && OccursAt(s, "/list/", i)
    requires NumberThenLen(s, i + 6, "-") == Some(k1) && NumberThenLen(s, i + 7 + k1, ".html").None?
    ensures PageMatchHere(s, i) == None
    ensures forall k1', k2 :: !PageMatchAt(s, i, k1', k2)
  {
    NoPageRunNoMatch(s, i, k1);
  }

  lemma NoPageRunNoMatch(s: string, i: nat, k1: nat)
    requires i + 7 + k1 <= |s|
    requires NumberThenLen(s, i + 6, "-") == Some(k1) && NumberThenLen(s, i + 7 + k1, ".html").None?
    ensures forall k1', k2 :: !PageMatchAt(s, i, k1', k2)
  {
    forall k1', k2 ensures !PageMatchAt(s, i, k1', k2) {
      if NumberThen(s, i + 6, k1', "-") {
        assert k1' == k1;
      }
    }
  }

  /** Both digit runs found: the match at i. */
  lemma HereFound(s: string, i: nat, k1: nat, k2: nat)
    requires i + 7 + k1 <= |s| && OccursAt(s, "/list/", i)
    requires NumberThenLen(s, i + 6, "-") == Some(k1) && NumberThenLen(s, i + 7 + k1, ".html") == Some(k2)
    ensures PageMatchHere(s, i) == Some((k1, k2))
    ensures PageMatchAt(s, i, k1, k2)
  {
  }

  /** PageMatchHere finds the match at i exactly when there is one. */
  lemma PageMatchHereFinds(s: string, i: nat)
    requires i <= |s|
    ensures PageMatchHere(s, i).Some? ==> PageMatchAt(s, i, PageMatchHere(s, i).value.0, PageMatchHere(s, i).value.1)
    ensures PageMatchHere(s, i).None? ==> forall k1, k2 :: !PageMatchAt(s, i, k1, k2)
  {
    if !OccursAt(s, "/list/", i) {
      HereNoList(s, i);
    } else {
      var r1 := NumberThenLen(s, i + 6, "-");
      if r1.None? {
        HereNoCategoryRun(s, i);
      } else {
        var r2 := NumberThenLen(s, i + 7 + r1.value, ".html");
        if r2.None? {
          HereNoPageRun(s, i, r1.value);
        } else {
          HereFound(s, i, r1.value, r2.value);
        }
      }
    }
  }

  /** re.search from position i: the position and the two digit-run lengths of the leftmost match. */
  function PageMatchFrom(s: string, i: nat): (r: Option<(nat, nat, nat)>)
    requires i <= |s|
    ensures r.Some? ==> FirstPageMatch(s, i, r.value.0, r.value.1, r.value.2)
    ensures r.None? ==> forall j, k1, k2 :: i <= j ==> !PageMatchAt(s, j, k1, k2)
    decreases |s| - i
  {
    PageMatchHereFinds(s, i);
    match PageMatchHere(s, i)
    case Some((k1, k2)) => Some((i, k1, k2))
    case None =>
      if i == |s| then None else PageMatchFrom(s, i + 1)
  }

  /** The page number named by the last-page link's href (the second number of
      its `/list/<category>-<page>.html` part), if it has that form. */
  function LastPageNumber(href: string): Option<nat> {
    match PageMatchFrom(href, 0)
    case Some((j, k1, k2)) => Some(DigitsValue(href[j + 7 + k1..j + 7 + k1 + k2]))
    case None => None
  }

  /** There is only one leftmost match. */
  lemma FirstPageMatchUnique(s: string, i: int, j: int, k1: int, k2: int, j': int, k1': int, k2': int)
    requires FirstPageMatch(s, i, j, k1, k2) && FirstPageMatch(s, i, j', k1', k2')
    ensures j == j' && k1 == k1' && k2 == k2'
  {
    assert j == j';
    var _ := NumberThenLen(s, j + 6, "-");
    var _ := NumberThenLen(s, j + 7 + k1, ".html");
  }

  /** `/list/<c>-<p>.html` matches at its start, with the two numerals as digit runs. */
  lemma ListHrefMatches(c: string, p: string)
    requires IsNumeral(c) && IsNumeral(p)
    ensures PageMatchAt("/list/" + c + "-" + p + ".html", 0, |c|, |p|)
  {
    var s := "/list/" + c + "-" + p + ".html";
    assert s[0..6] == "/list/";
    assert s[6..6 + |c|] == c;
    assert s[6 + |c|..7 + |c|] == "-";
    assert s[7 + |c|..7 + |c| + |p|] == p;
    assert s[7 + |c| + |p|..7 + |c| + |p| + 5] == ".html";
  }

  /** The href of a listing page names that page. */
  lemma LastPageOfListHref(category: nat, page: nat)
    ensures LastPageNumber("/list/" + NatToString(category) + "-" + NatToString(page) + ".html") == Some(page)
  {
    var c, p := NatToString(category), NatToString(page);
    var s := "/list/" + c + "-" + p + ".html";
    ListHrefMatches(c, p);
    assert FirstPageMatch(s, 0, 0, |c|, |p|);
    var m := PageMatchFrom(s, 0);
    FirstPageMatchUnique(s, 0, m.value.0, m.value.1, m.value.2, 0, |c|, |p|);
    assert s[7 + |c|..7 + |c| + |p|] == p;
  }

  /** A href in which `/list/` does not occur names no page. */
  lemma NoListNoPage(href: string)
    requires forall i :: !OccursAt(href, "/list/", i)
    ensures LastPageNumber(href) == None
  {
  }

  /** The largest page number among the link texts that are all digits; 0 when there is none. */
  function MaxNumeral(texts: seq<string>): nat {
    if texts == [] then 0
    else
      var t := texts[|texts| - 1];
      Max(MaxNumeral(texts[..|texts| - 1]), if IsNumeral(t) then DigitsValue(t) else 0)
  }

  /** MaxNumeral is the maximum: it bounds every numeral and is one of them, or 0. */
  lemma {:induction false} MaxNumeralIsMax(texts: seq<string>)
    ensures forall t | t in texts && IsNumeral(t) :: DigitsValue(t) <= MaxNumeral(texts)
    ensures MaxNumeral(texts) == 0 || exists t | t in texts && IsNumeral(t) :: DigitsValue(t) == MaxNumeral(texts)
    decreases |texts|
  {
    if texts != [] {
      var init := texts[..|texts| - 1];
      var t := texts[|texts| - 1];
      assert texts == init + [t];
      MaxNumeralIsMax(init);
      if MaxNumeral(texts) != 0 && (IsNumeral(t) ==> DigitsValue(t) != MaxNumeral(texts)) {
        var u :| u in init && IsNumeral(u) && DigitsValue(u) == MaxNumeral(init);
        assert u in texts;
      }
    }
  }

  /** get_total_pages after the fetch: 0 when the first listing page could not be
      loaded; the page number of the "尾页" link when it names one; otherwise the
      largest page-link number, or 1 when no link text is a positive number. */
  function PageTotal(view: Option<Pager>): int {
    if view.None? then 0
    else if view.value.lastHref.Some? && LastPageNumber(view.value.lastHref.value).Some? then
      LastPageNumber(view.value.lastHref.value).value
    else
      var m := MaxNumeral(view.value.pageTexts);
      if m > 0 then m else 1
  }

  /** get_total_pages over what the pagination parser found: the loop keeps the
      largest page number seen so far. */
  method TotalPages(view: Option<Pager>) returns (n: int)
    ensures n == PageTotal(view)
    ensures n == 0 <==> view.None? || (view.value.lastHref.Some? && LastPageNumber(view.value.lastHref.value) == Some(0))
    ensures view.Some? && (view.value.lastHref.None? || LastPageNumber(view.value.lastHref.value).None?) ==>
      n >= 1
      && (forall t | t in view.value.pageTexts && IsNumeral(t) :: DigitsValue(t) <= n)
      && ((exists t | t in view.value.pageTexts && IsNumeral(t) :: DigitsValue(t) == n)
          || (n == 1 && forall t | t in view.value.pageTexts && IsNumeral(t) :: DigitsValue(t) == 0))
  {
    if view.None? {
      return 0;
    }
    var pager := view.value;
    if pager.lastHref.Some? {
      var m := LastPageNumber(pager.lastHref.value);
      if m.Some? {
        return m.value;
      }
    }
    var texts := pager.pageTexts;
    var maxPage := 0;
    for i := 0 to |texts|
      invariant maxPage == MaxNumeral(texts[..i])
    {
      assert texts[..i + 1][..i] == texts[..i];
      if IsNumeral(texts[i]) {
        var pageNum := DigitsValue(texts[i]);
        if pageNum > maxPage {
          maxPage := pageNum;
        }
      }
    }
    assert texts[..|texts|] == texts;
    MaxNumeralIsMax(texts);
    n := if maxPage > 0 then maxPage else 1;
  }

  // ---------------------------------------------------------------------------
  // Link collection: get_movie_links_batch
  // ---------------------------------------------------------------------------

  predicate NoDup<T(==)>(s: seq<T>) {
    forall i, j | 0 <= i < j < |s| :: s[i] != s[j]
  }

  /** Index of the first occurrence of x in s. */
  function FirstIndex<T(==)>(s: seq<T>, x: T): (i: nat)
    requires x in s
    ensures i < |s| && s[i] == x && x !in s[..i]
  {
    if s[0] == x then 0
    else
      var i := 1 + FirstIndex(s[1..], x);
      assert s[..i] == [s[0]] + s[1..][..i - 1];
      i
  }

  lemma FirstIndexUnique<T>(s: seq<T>, x: T, i: nat)
    requires i < |s| && s[i] == x && x !in s[..i]
    ensures FirstIndex(s, x) == i
  {
    var f := FirstIndex(s, x);
    assert forall m | 0 <= m < i :: s[m] == s[..i][m];
    assert forall m | 0 <= m < f :: s[m] == s[..f][m];
  }

  lemma FirstIndexPrefix<T>(s: seq<T>, m: nat, x: T)
    requires m <= |s| && x in s[..m]
    ensures FirstIndex(s, x) == FirstIndex(s[..m], x)
  {
    var f := FirstIndex(s[..m], x);
    assert s[..m][..f] == s[..f];
    FirstIndexUnique(s, x, f);
  }

  /** `list(dict.fromkeys(s))`: the distinct elements of s, each kept where it first occurs. */
  function Dedup<T(==,!new)>(s: seq<T>): (r: seq<T>)
    ensures NoDup(r)
    ensures forall x :: x in r <==> x in s
  {
    if s == [] then []
    else
      var r := Dedup(s[..|s| - 1]);
      var x := s[|s| - 1];
      if x in r then r else r + [x]
  }

  /** Dedup keeps the elements in the order of their first occurrences in s. */
  lemma {:induction false} DedupOrder<T(!new)>(s: seq<T>)
    ensures forall i, j | 0 <= i < j < |Dedup(s)| :: FirstIndex(s, Dedup(s)[i]) < FirstIndex(s, Dedup(s)[j])
    decreases |s|
  {
    if s != [] {
      var init := s[..|s| - 1];
      var x := s[|s| - 1];
      var r := Dedup(init);
      assert s == init + [x];
      DedupOrder(init);
      forall y | y in init ensures FirstIndex(s, y) == FirstIndex(init, y) && FirstIndex(s, y) < |s| - 1 {
        FirstIndexPrefix(s, |s| - 1, y);
      }
      if x !in r {
        FirstIndexUnique(s, x, |s| - 1);
      }
    }
  }

  /** Dedup of one more element: it is kept exactly when it was not seen before. */
  lemma DedupSnoc<T(!new)>(s: seq<T>, x: T)
    ensures Dedup(s + [x]) == if x in s then Dedup(s) else Dedup(s) + [x]
  {
    assert (s + [x])[..|s + [x]| - 1] == s;
  }

  /** Page-level de-duplication before the batch-level one changes nothing. */
  lemma {:induction false} DedupAppendDedup<T(!new)>(a: seq<T>, b: seq<T>)
    ensures Dedup(a + Dedup(b)) == Dedup(a + b)
    decreases |b|
  {
    if b == [] {
      assert a + Dedup(b) == a + b;
    } else {
      var init := b[..|b| - 1];
      var x := b[|b| - 1];
      assert b == init + [x];
      assert a + b == (a + init) + [x];
      DedupAppendDedup(a, init);
      var d := Dedup(init);
      if x in init {
        assert Dedup(b) == d by { DedupSnoc(init, x); }
        assert Dedup(a + b) == Dedup(a + init) by { DedupSnoc(a + init, x); }
      } else {
        assert Dedup(b) == d + [x] by { DedupSnoc(init, x); }
        assert a + Dedup(b) == (a + d) + [x];
        assert x in a + d <==> x in a + init;
        assert Dedup(a + Dedup(b)) == Dedup(a + b) by {
          DedupSnoc(a + d, x);
          DedupSnoc(a + init, x);
        }
      }
    }
  }

  /** The full URLs of the hrefs that start with `/mp4/`, in page order. */
  function MovieHrefs(anchors: seq<Option<string>>): (r: seq<string>)
    ensures forall u | u in r :: IsMovieLink(u)
  {
    if anchors == [] then []
    else
      var rest := MovieHrefs(anchors[..|anchors| - 1]);
      var a := anchors[|anchors| - 1];
      if a.Some? && StartsWith(a.value, "/mp4/") then
        assert (BASE_URL + a.value)[..|BASE_URL + "/mp4/"|] == BASE_URL + "/mp4/";
        rest + [BASE_URL + a.value]
      else rest
  }

  predicate IsMovieLink(u: string) {
    StartsWith(u, BASE_URL + "/mp4/")
  }

  /** fetch_page_links: the links of one listing page; a page that failed to load
      or has no list container contributes nothing. */
  function PageLinks(anchors: Option<seq<Option<string>>>): seq<string> {
    if anchors.None? then [] else Dedup(MovieHrefs(anchors.value))
  }

  /** The raw link stream of a batch of pages, taken page by page in order. */
  function RawLinks(pages: seq<Option<seq<Option<string>>>>): seq<string> {
    if pages == [] then []
    else RawLinks(pages[..|pages| - 1]) + (if pages[|pages| - 1].None? then [] else MovieHrefs(pages[|pages| - 1].value))
  }

  function PageLinksConcat(pages: seq<Option<seq<Option<string>>>>): seq<string> {
    if pages == [] then [] else PageLinksConcat(pages[..|pages| - 1]) + PageLinks(pages[|pages| - 1])
  }

  /** get_movie_links_batch over the parsed pages of a batch, taken in page order. */
  function BatchLinks(pages: seq<Option<seq<Option<string>>>>): seq<string> {
    Dedup(PageLinksConcat(pages))
  }

  lemma {:induction false} PageLinksConcatDedup(pages: seq<Option<seq<Option<string>>>>)
    ensures Dedup(PageLinksConcat(pages)) == Dedup(RawLinks(pages))
    decreases |pages|
  {
    if pages != [] {
      var init := pages[..|pages| - 1];
      var p := pages[|pages| - 1];
      var raw := if p.None? then [] else MovieHrefs(p.value);
      PageLinksConcatDedup(init);
      calc {
        Dedup(PageLinksConcat(pages));
        Dedup(PageLinksConcat(init) + PageLinks(p));
        { assert PageLinks(p) == Dedup(raw); DedupAppendDedup(PageLinksConcat(init), raw); }
        Dedup(PageLinksConcat(init) + raw);
        { DedupPrefix(PageLinksConcat(init), RawLinks(init), raw); }
        Dedup(RawLinks(init) + raw);
        Dedup(RawLinks(pages));
      }
    }
  }

  /** Sequences with the same de-duplication keep it under a common suffix. */
  lemma {:induction false} DedupPrefix<T(!new)>(a: seq<T>, a': seq<T>, b: seq<T>)
    requires Dedup(a) == Dedup(a')
    ensures Dedup(a + b) == Dedup(a' + b)
    decreases |b|
  {
    if b == [] {
      assert a + b == a && a' + b == a';
    } else {
      var init := b[..|b| - 1];
      var x := b[|b| - 1];
      assert (a + b)[..|a + b| - 1] == a + init;
      assert (a' + b)[..|a' + b| - 1] == a' + init;
      assert (a + b)[|a + b| - 1] == x && (a' + b)[|a' + b| - 1] == x;
      DedupPrefix(a, a', init);
    }
  }

  /** The links of a batch: no duplicates, each the site's base URL followed by an
      href starting with `/mp4/`, exactly the links of the raw stream, in the order
      in which they first appear there. */
  lemma BatchLinksSpec(pages: seq<Option<seq<Option<string>>>>)
    ensures var r := BatchLinks(pages); var raw := RawLinks(pages);
      && NoDup(r)
      && (forall u | u in r :: IsMovieLink(u))
      && (forall u :: u in r <==> u in raw)
      && (forall i, j | 0 <= i < j < |r| :: FirstIndex(raw, r[i]) < FirstIndex(raw, r[j]))
  {
    PageLinksConcatDedup(pages);
    DedupOrder(RawLinks(pages));
    RawLinksAreMovieLinks(pages);
  }

  lemma {:induction false} RawLinksAreMovieLinks(pages: seq<Option<seq<Option<string>>>>)
    ensures forall u | u in RawLinks(pages) :: IsMovieLink(u)
    decreases |pages|
  {
    if pages != [] {
      RawLinksAreMovieLinks(pages[..|pages| - 1]);
    }
  }
}
