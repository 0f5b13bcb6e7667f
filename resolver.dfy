/** The episode resolver (`fetch_m3u8` of both `get_m3u8_urls_*` methods): the play
    page URL of an episode, and the ordered chain of strategies that turns the play
    page into a media-playlist address. */
module Resolver {
  import opened Util
  import opened Records
  import Base64
  import Utf8

  // ---------------------------------------------------------------------------
  // Play pages
  // ---------------------------------------------------------------------------

  /** The play page of the episode with 0-based index `index` of work `dyid`. */
  function PlayUrl(dyid: nat, index: int): string {
    BASE_URL + "/play/" + NatToString(dyid) + "-0-" + IntToString(index) + ".html"
  }

  lemma IntToStringInjective(a: int, b: int)
    requires IntToString(a) == IntToString(b)
    ensures a == b
  {
    assert IntToString(a)[0] == '-' <==> a < 0;
    assert IntToString(b)[0] == '-' <==> b < 0;
    if a < 0 {
      assert NatToString(-a) == IntToString(a)[1..];
      NatToStringInjective(-a, -b);
    } else {
      NatToStringInjective(a, b);
    }
  }

  /** Where the id and the index sit in a play-page URL. */
  lemma PlayUrlParts(d: nat, i: int)
    ensures var u, n := PlayUrl(d, i), NatToString(d);
      && 25 + |n| + 3 <= |u| - 5
      && u[25..25 + |n|] == n && u[25 + |n|] == '-'
      && u[25 + |n| + 3..|u| - 5] == IntToString(i)
  {
    var n, t := NatToString(d), IntToString(i);
    var u := PlayUrl(d, i);
    assert |BASE_URL + "/play/"| == 25;
    assert u == (BASE_URL + "/play/") + n + "-0-" + t + ".html";
  }

  /** Two numerals written at the same place and each followed by '-' are the same. */
  lemma NumeralBeforeDash(u: string, p: nat, a: string, b: string)
    requires IsNumeral(a) && IsNumeral(b)
    requires p + |a| < |u| && u[p..p + |a|] == a && u[p + |a|] == '-'
    requires p + |b| < |u| && u[p..p + |b|] == b && u[p + |b|] == '-'
    ensures a == b
  {
  }

  /** Distinct episodes have distinct play pages. */
  lemma PlayUrlInjective(d1: nat, i1: int, d2: nat, i2: int)
    requires PlayUrl(d1, i1) == PlayUrl(d2, i2)
    ensures d1 == d2 && i1 == i2
  {
    var u := PlayUrl(d1, i1);
    PlayUrlParts(d1, i1);
    PlayUrlParts(d2, i2);
    NumeralBeforeDash(u, 25, NatToString(d1), NatToString(d2));
    NatToStringInjective(d1, d2);
    IntToStringInjective(i1, i2);
  }

  // ---------------------------------------------------------------------------
  // Scanning helpers
  // ---------------------------------------------------------------------------

  /** Python's `\s` on text: the characters for which `str.isspace()` holds. */
  predicate IsSpace(c: char) {
    var x := c as int;
    (0x09 <= x <= 0x0D) || (0x1C <= x <= 0x20) || x == 0x85 || x == 0xA0 || x == 0x1680
    || (0x2000 <= x <= 0x200A) || x == 0x2028 || x == 0x2029 || x == 0x202F || x == 0x205F || x == 0x3000
  }

  /** The end of the run of whitespace (`\s*`) starting at j. */
  function SkipSpace(s: string, j: nat): (k: nat)
    requires j <= |s|
    ensures j <= k <= |s|
    ensures forall m | j <= m < k :: IsSpace(s[m])
    ensures k == |s| || !IsSpace(s[k])
    decreases |s| - j
  {
    if j < |s| && IsSpace(s[j]) then SkipSpace(s, j + 1) else j
  }

  /** The first index at or after j holding c. */
  function IndexOf(s: string, c: char, j: nat): (r: Option<nat>)
    requires j <= |s|
    ensures r.Some? ==> j <= r.value < |s| && s[r.value] == c && forall m | j <= m < r.value :: s[m] != c
    ensures r.None? ==> forall m | j <= m < |s| :: s[m] != c
    decreases |s| - j
  {
    if j == |s| then None else if s[j] == c then Some(j) else IndexOf(s, c, j + 1)
  }

  /** `re.search` as a scan: the leftmost position in [i, n] at which `at` matches. */
  function Leftmost(at: nat -> Option<string>, i: nat, n: nat): (r: Option<nat>)
    ensures r.Some? ==> i <= r.value <= n && at(r.value).Some? && forall q | i <= q < r.value :: at(q).None?
    ensures r.None? ==> forall q | i <= q <= n :: at(q).None?
    decreases n - i + 1
  {
    if i > n then None
    else if at(i).Some? then Some(i)
    else Leftmost(at, i + 1, n)
  }

  /** The leftmost match is the one with no match before it. */
  lemma {:induction false} LeftmostIs(at: nat -> Option<string>, i: nat, n: nat, p: nat)
    requires i <= p <= n && at(p).Some? && forall q | i <= q < p :: at(q).None?
    ensures Leftmost(at, i, n) == Some(p)
    decreases p - i
  {
    if i < p {
      LeftmostIs(at, i + 1, n, p);
    }
  }

  // ---------------------------------------------------------------------------
  // Strategy 1: the player configuration block
  // ---------------------------------------------------------------------------

  const PLAYER_VAR: string := "var player_aaaa"

  /** `var player_aaaa\s*=\s*({.*?})` (dot matching newlines) at position i: the
      block from '{' to the first '}' after it. */
  function ConfigAt(s: string, i: nat): (r: Option<string>)
    ensures r.Some? ==> OccursAt(s, PLAYER_VAR, i)
    ensures r.Some? ==> (|r.value| >= 2 && r.value[0] == '{' && r.value[|r.value| - 1] == '}'
      && forall m | 0 <= m < |r.value| - 1 :: r.value[m] != '}')
  {
    if !OccursAt(s, PLAYER_VAR, i) then None
    else
      var j := SkipSpace(s, i + |PLAYER_VAR|);
      if j < |s| && s[j] == '=' then
        var k := SkipSpace(s, j + 1);
        if k < |s| && s[k] == '{' then
          match IndexOf(s, '}', k + 1)
          case Some(e) => Some(s[k..e + 1])
          case None => None
        else None
      else None
  }

  /** The player configuration block of a play page: `re.search` takes the
      leftmost position where the pattern matches, and there is none when it
      matches nowhere. */
  function PlayerConfig(content: string): (r: Option<string>)
    ensures r.Some? ==> exists i: nat | i <= |content| ::
      ConfigAt(content, i) == r && forall q: nat | q < i :: ConfigAt(content, q).None?
    ensures r.None? ==> forall i: nat :: ConfigAt(content, i).None?
  {
    var at := (i: nat) => ConfigAt(content, i);
    match Leftmost(at, 0, |content|)
    case Some(i) => ConfigNoneBefore(content, at, i); ConfigAt(content, i)
    case None => ConfigNoneBefore(content, at, |content| + 1); ConfigNowhere(content); None
  }

  /** What the leftmost search over the positions of s says about ConfigAt. */
  lemma ConfigNoneBefore(s: string, at: nat -> Option<string>, p: nat)
    requires forall i: nat :: at(i) == ConfigAt(s, i)
    requires forall q: nat | q < p :: at(q).None?
    ensures forall q: nat | q < p :: ConfigAt(s, q).None?
  {
    forall q: nat | q < p ensures ConfigAt(s, q).None? {
      assert at(q).None?;
    }
  }

  lemma ConfigNowhere(s: string)
    requires forall q: nat | q <= |s| :: ConfigAt(s, q).None?
    ensures forall q: nat :: ConfigAt(s, q).None?
  {
    forall q: nat | q > |s| ensures ConfigAt(s, q).None? {
      ConfigPastEnd(s, q);
    }
  }

  /** The pattern cannot match past the end of s. */
  lemma ConfigPastEnd(s: string, q: nat)
    requires q > |s|
    ensures ConfigAt(s, q).None?
  {
  }

  /** `url\s*:\s*'([^']*)'` at position i: the quoted source value. */
  function UrlValueAt(s: string, i: nat): (r: Option<string>)
    ensures r.Some? ==> OccursAt(s, "url", i) && forall m | 0 <= m < |r.value| :: r.value[m] != '\''
  {
    if !OccursAt(s, "url", i) then None
    else
      var j := SkipSpace(s, i + 3);
      if j < |s| && s[j] == ':' then
        var k := SkipSpace(s, j + 1);
        if k < |s| && s[k] == '\'' then
          match IndexOf(s, '\'', k + 1)
          case Some(e) => Some(s[k + 1..e])
          case None => None
        else None
      else None
  }

  /** The source value declared in a configuration block: the leftmost match, and
      none when the pattern matches nowhere. */
  function UrlValue(block: string): (r: Option<string>)
    ensures r.Some? ==> exists i: nat | i <= |block| ::
      UrlValueAt(block, i) == r && forall q: nat | q < i :: UrlValueAt(block, q).None?
    ensures r.None? ==> forall i: nat :: UrlValueAt(block, i).None?
  {
    var at := (i: nat) => UrlValueAt(block, i);
    match Leftmost(at, 0, |block|)
    case Some(i) => UrlValueNoneBefore(block, at, i); UrlValueAt(block, i)
    case None => UrlValueNoneBefore(block, at, |block| + 1); UrlValueNowhere(block); None
  }

  /** What the leftmost search over the positions of s says about UrlValueAt. */
  lemma UrlValueNoneBefore(s: string, at: nat -> Option<string>, p: nat)
    requires forall i: nat :: at(i) == UrlValueAt(s, i)
    requires forall q: nat | q < p :: at(q).None?
    ensures forall q: nat | q < p :: UrlValueAt(s, q).None?
  {
    forall q: nat | q < p ensures UrlValueAt(s, q).None? {
      assert at(q).None?;
    }
  }

  lemma UrlValueNowhere(s: string)
    requires forall q: nat | q <= |s| :: UrlValueAt(s, q).None?
    ensures forall q: nat :: UrlValueAt(s, q).None?
  {
    forall q: nat | q > |s| ensures UrlValueAt(s, q).None? {
      UrlValuePastEnd(s, q);
    }
  }

  /** The pattern cannot match past the end of s. */
  lemma UrlValuePastEnd(s: string, q: nat)
    requires q > |s|
    ensures UrlValueAt(s, q).None?
  {
  }

  /** Strategy 1a: the decrypt API named by a `get_dplayer` value; its url when the
      reply's code is 200 and its url is non-empty. */
  function ApiUrl(site: Site, v: string): (r: Option<string>)
    ensures r.Some? ==> r.value != ""
  {
    match site.get(BASE_URL + v)
    case None => None
    case Some(body) =>
      match site.json(body)
      case None => None
      case Some(reply) => if reply.code == 200 && reply.url != "" then Some(reply.url) else None
  }

  predicate AllBase64Chars(t: string) {
    forall m | 0 <= m < |t| :: Base64.IsB64Char(t[m])
  }

  /** `re.match(r'^[A-Za-z0-9+/=]+$', v) and len(v) > 20`; `$` also matches before a
      final newline. */
  predicate LooksBase64(v: string) {
    |v| > 20 && ((AllBase64Chars(v)) || (v[|v| - 1] == '\n' && AllBase64Chars(v[..|v| - 1])))
  }

  /** Strategy 1b: Base64, then strict UTF-8, accepted when the text starts with `http`. */
  function DecodedUrl(v: string): (r: Option<string>)
    ensures r.Some? ==> StartsWith(r.value, "http")
  {
    match Base64.Decode(v)
    case None => None
    case Some(bytes) =>
      match Utf8.Decode(bytes)
      case None => None
      case Some(t) => if StartsWith(t, "http") then Some(t) else None
  }

  /** The address strategy 1 yields for source value v: exactly one of 1a, 1b and 1c
      applies, chosen by v alone. */
  function ConfiguredUrl(site: Site, v: string): (r: Option<string>)
    ensures r.Some? ==> r.value != ""
  {
    if Contains(v, "get_dplayer") then ApiUrl(site, v)
    else if LooksBase64(v) then DecodedUrl(v)
    else if StartsWith(v, "http") then Some(v)
    else None
  }

  // ---------------------------------------------------------------------------
  // Strategy 2: scanning the page for an address
  // ---------------------------------------------------------------------------

  /** The class `[^\s'"`,]`. */
  predicate IsUrlChar(c: char) {
    !IsSpace(c) && c != '\'' && c != '"' && c != '`' && c != ','
  }

  /** Length of the run of URL characters starting at j. */
  function UrlRun(s: string, j: nat): (k: nat)
    requires j <= |s|
    ensures j + k <= |s|
    decreases |s| - j
  {
    if j < |s| && IsUrlChar(s[j]) then 1 + UrlRun(s, j + 1) else 0
  }

  /** The run is made of URL characters. */
  lemma {:induction false} UrlRunChars(s: string, j: nat)
    requires j <= |s|
    ensures forall m | j <= m < j + UrlRun(s, j) :: IsUrlChar(s[m])
    decreases |s| - j
  {
    if j < |s| && IsUrlChar(s[j]) {
      UrlRunChars(s, j + 1);
    }
  }

  /** The run stops at a non-URL character or at the end: it is the longest one. */
  lemma {:induction false} UrlRunStops(s: string, j: nat)
    requires j <= |s|
    ensures j + UrlRun(s, j) == |s| || !IsUrlChar(s[j + UrlRun(s, j)])
    decreases |s| - j
  {
    if j < |s| && IsUrlChar(s[j]) {
      UrlRunStops(s, j + 1);
    }
  }

  /** The largest L in [1, hi] such that `.m3u8` occurs at j + L: where the greedy
      `[^\s'"`,]+` settles once it has backtracked to a `.m3u8`. */
  function LastExtension(s: string, j: nat, hi: int): (r: Option<nat>)
    ensures r.Some? ==> 1 <= r.value <= hi
    decreases hi
  {
    if hi < 1 then None
    else if OccursAt(s, ".m3u8", j + hi) then Some(hi)
    else LastExtension(s, j, hi - 1)
  }

  /** LastExtension finds `.m3u8` where it stops. */
  lemma {:induction false} LastExtensionFound(s: string, j: nat, hi: int)
    requires LastExtension(s, j, hi).Some?
    ensures OccursAt(s, ".m3u8", j + LastExtension(s, j, hi).value)
    decreases hi
  {
    if hi >= 1 && !OccursAt(s, ".m3u8", j + hi) {
      LastExtensionFound(s, j, hi - 1);
    }
  }

  /** No `.m3u8` occurs between where LastExtension stops and j + hi, and none in
      [j + 1, j + hi] when it finds nothing: it settles on the last one. */
  lemma {:induction false} LastExtensionIsLast(s: string, j: nat, hi: int)
    ensures LastExtension(s, j, hi).Some? ==>
      forall p | j + LastExtension(s, j, hi).value < p <= j + hi :: !OccursAt(s, ".m3u8", p)
    ensures LastExtension(s, j, hi).None? ==>
      forall p | j + 1 <= p <= j + hi :: !OccursAt(s, ".m3u8", p)
    decreases hi
  {
    if hi >= 1 && !OccursAt(s, ".m3u8", j + hi) {
      LastExtensionIsLast(s, j, hi - 1);
    }
  }

  /** Where the address after the scheme starts, when `https?://` matches at i:
      `http`, an optional `s`, then `://`. */
  function AfterScheme(s: string, i: nat): (r: Option<nat>)
    ensures r.Some? ==> i + 7 <= r.value <= i + 8 && r.value <= |s|
  {
    if i + 7 > |s| || s[i] != 'h' || s[i + 1] != 't' || s[i + 2] != 't' || s[i + 3] != 'p' then None
    else
      var k := if s[i + 4] == 's' then i + 5 else i + 4;
      if k + 3 <= |s| && s[k] == ':' && s[k + 1] == '/' && s[k + 2] == '/' then Some(k + 3) else None
  }

  /** What `https?://` matched is one of the two schemes. */
  lemma AfterSchemeIsScheme(s: string, i: nat)
    requires AfterScheme(s, i).Some?
    ensures IsScheme(s[i..AfterScheme(s, i).value])
  {
    var t := s[i..AfterScheme(s, i).value];
    if |t| == 8 {
      assert t == "https://" by {
        forall k | 0 <= k < 8 ensures t[k] == "https://"[k] { }
      }
    } else {
      assert t == "http://" by {
        forall k | 0 <= k < 7 ensures t[k] == "http://"[k] { }
      }
    }
  }

  /** `https?://[^\s'"`,]+\.m3u8` at position i. */
  function ScanAt(s: string, i: nat): (r: Option<string>)
    ensures r.Some? ==> OccursAt(s, r.value, i)
    ensures r.Some? ==> IsM3u8Address(r.value)
  {
    match AfterScheme(s, i)
    case None => None
    case Some(j) =>
      MatchIsAddress(s, i, j);
      MatchAfterScheme(s, i, j)
  }

  /** The rest of the pattern, `[^\s'"`,]+\.m3u8`, once `https?://` has matched from
      i to j. */
  function MatchAfterScheme(s: string, i: nat, j: nat): (r: Option<string>)
    requires i <= j
  {
    if j > |s| then None
    else
      match LastExtension(s, j, UrlRun(s, j) - 5)
      case None => None
      case Some(L) =>
        ExtensionInRun(s, j, L);
        Some(s[i..j + L + 5])
  }

  /** What the rest of the pattern matches after the scheme is an address. */
  lemma MatchIsAddress(s: string, i: nat, j: nat)
    requires AfterScheme(s, i) == Some(j)
    ensures MatchAfterScheme(s, i, j).Some? ==>
      OccursAt(s, MatchAfterScheme(s, i, j).value, i) && IsM3u8Address(MatchAfterScheme(s, i, j).value)
  {
    if j <= |s| && LastExtension(s, j, UrlRun(s, j) - 5).Some? {
      var L := LastExtension(s, j, UrlRun(s, j) - 5).value;
      ExtensionInRun(s, j, L);
      MatchAfterSchemeIs(s, i, j, L);
      ScanMatchIsAddress(s, i, j, L);
    }
  }

  /** What the scan matches at i is an address. */
  lemma ScanMatchIsAddress(s: string, i: nat, j: nat, L: nat)
    requires AfterScheme(s, i) == Some(j) && j <= |s|
    requires LastExtension(s, j, UrlRun(s, j) - 5) == Some(L)
    ensures j + L + 5 <= |s|
    ensures OccursAt(s, s[i..j + L + 5], i) && IsM3u8Address(s[i..j + L + 5])
  {
    var run := UrlRun(s, j);
    UrlRunChars(s, j);
    LastExtensionFound(s, j, run - 5);
    ScanMatchWithin(s, i, j, L, run);
  }

  lemma ScanMatchWithin(s: string, i: nat, j: nat, L: nat, run: nat)
    requires AfterScheme(s, i) == Some(j) && j + run <= |s|
    requires forall m | j <= m < j + run :: IsUrlChar(s[m])
    requires 1 <= L <= run - 5 && OccursAt(s, ".m3u8", j + L)
    ensures OccursAt(s, s[i..j + L + 5], i) && IsM3u8Address(s[i..j + L + 5])
  {
    var u := s[i..j + L + 5];
    var scheme := s[i..j];
    AfterSchemeIsScheme(s, i);
    assert u[..j - i] == scheme;
    assert u[|u| - 5..] == s[j + L..j + L + 5];
    forall m | 0 <= m < |u| ensures IsUrlChar(u[m]) {
      assert u[m] == s[i + m];
      if i + m < j {
        assert s[i + m] == scheme[m];
      }
    }
  }

  /** An absolute `http`/`https` address of URL characters ending in `.m3u8`. */
  predicate IsM3u8Address(u: string) {
    (StartsWith(u, "http://") || StartsWith(u, "https://")) && EndsWith(u, ".m3u8")
    && forall m | 0 <= m < |u| :: IsUrlChar(u[m])
  }

  /** Strategy 2: the leftmost match of the address pattern in the page, and none
      when it matches nowhere. */
  function ScanM3u8(content: string): (r: Option<string>)
    ensures r.Some? ==> IsM3u8Address(r.value)
    ensures r.Some? ==> exists i: nat | i <= |content| ::
      ScanAt(content, i) == r && forall q: nat | q < i :: ScanAt(content, q).None?
    ensures r.None? ==> forall i: nat :: ScanAt(content, i).None?
  {
    var at := (i: nat) => ScanAt(content, i);
    match Leftmost(at, 0, |content|)
    case Some(i) => ScanNoneBefore(content, at, i); ScanAt(content, i)
    case None => ScanNoneBefore(content, at, |content| + 1); ScanNowhere(content); None
  }

  /** What the leftmost search over the positions of s says about ScanAt. */
  lemma ScanNoneBefore(s: string, at: nat -> Option<string>, p: nat)
    requires forall i: nat :: at(i) == ScanAt(s, i)
    requires forall q: nat | q < p :: at(q).None?
    ensures forall q: nat | q < p :: ScanAt(s, q).None?
  {
    forall q: nat | q < p ensures ScanAt(s, q).None? {
      assert at(q).None?;
    }
  }

  lemma ScanNowhere(s: string)
    requires forall q: nat | q <= |s| :: ScanAt(s, q).None?
    ensures forall q: nat :: ScanAt(s, q).None?
  {
    forall q: nat | q > |s| ensures ScanAt(s, q).None? {
      ScanPastEnd(s, q);
    }
  }

  /** The pattern cannot match past the end of s. */
  lemma ScanPastEnd(s: string, q: nat)
    requires q > |s|
    ensures ScanAt(s, q).None?
  {
  }

  /** The scan returns the match at i when no match starts before i. */
  lemma FirstScanMatch(content: string, i: nat)
    requires ScanAt(content, i).Some?
    requires forall q: nat | q < i :: ScanAt(content, q).None?
    ensures ScanM3u8(content) == ScanAt(content, i)
  {
    LeftmostIs((q: nat) => ScanAt(content, q), 0, |content|, i);
  }

  // ---------------------------------------------------------------------------
  // The chain
  // ---------------------------------------------------------------------------

  /** The address of a fetched play page: strategy 1 when the page declares a source
      value and that strategy succeeds, strategy 2 otherwise. */
  function ResolvePage(site: Site, content: string): (r: Option<string>)
    ensures r.Some? ==> Truthy(r)
    ensures ScanM3u8(content).Some? ==> r.Some?
  {
    var configured :=
      match PlayerConfig(content)
      case None => None
      case Some(block) =>
        match UrlValue(block)
        case None => None
        case Some(v) => ConfiguredUrl(site, v);
    if configured.Some? then configured else ScanM3u8(content)
  }

  /** The address `fetch_m3u8` records for a play page: unresolved when the page
      cannot be fetched. */
  function ResolvePlayUrl(site: Site, play: string): (r: Option<string>)
    ensures r.Some? ==> Truthy(r)
  {
    match site.get(play)
    case None => None
    case Some(content) => ResolvePage(site, content)
  }

  /** `fetch_m3u8` of get_m3u8_urls_selective, for the episode numbered `episode`. */
  function FetchEpisode(site: Site, dyid: nat, name: string, episode: int): EpisodeEntry {
    var play := PlayUrl(dyid, episode - 1);
    EpisodeEntry(dyid, name, episode, play, ResolvePlayUrl(site, play))
  }

  // ---------------------------------------------------------------------------
  // `sorted(m3u8_data, key=lambda x: x['episode'])`
  // ---------------------------------------------------------------------------

  /** Entries in ascending episode order. */
  predicate SortedByEpisode(s: seq<EpisodeEntry>) {
    forall a, b | 0 <= a < b < |s| :: s[a].episode <= s[b].episode
  }

  /** e placed into a sorted list after every entry whose episode is not larger
      than its own: one step of a stable insertion sort. */
  function InsertByEpisode(e: EpisodeEntry, s: seq<EpisodeEntry>): (r: seq<EpisodeEntry>)
    ensures |r| == |s| + 1 && multiset(r) == multiset(s) + multiset{e}
  {
    if s == [] then [e]
    else if e.episode < s[0].episode then [e] + s
    else
      assert s == [s[0]] + s[1..];
      [s[0]] + InsertByEpisode(e, s[1..])
  }

  /** Inserting keeps every entry at or above a bound that e and all of s respect. */
  lemma {:induction false} InsertAbove(e: EpisodeEntry, s: seq<EpisodeEntry>, lo: int)
    requires lo <= e.episode && forall k | 0 <= k < |s| :: lo <= s[k].episode
    ensures forall k | 0 <= k < |InsertByEpisode(e, s)| :: lo <= InsertByEpisode(e, s)[k].episode
    decreases |s|
  {
    if s != [] && e.episode >= s[0].episode {
      var rest := InsertByEpisode(e, s[1..]);
      InsertAbove(e, s[1..], lo);
      var r := [s[0]] + rest;
      assert r == InsertByEpisode(e, s);
      forall k | 0 < k < |r| ensures lo <= r[k].episode {
        assert r[k] == rest[k - 1];
      }
    }
  }

  /** A sorted list stays sorted behind an entry no later than any of its entries. */
  lemma ConsSorted(x: EpisodeEntry, rest: seq<EpisodeEntry>)
    requires SortedByEpisode(rest) && forall k | 0 <= k < |rest| :: x.episode <= rest[k].episode
    ensures SortedByEpisode([x] + rest)
  {
    var r := [x] + rest;
    forall a, b | 0 <= a < b < |r| ensures r[a].episode <= r[b].episode {
      assert r[b] == rest[b - 1];
      if a > 0 {
        assert r[a] == rest[a - 1];
      }
    }
  }

  lemma {:induction false} InsertKeepsSorted(e: EpisodeEntry, s: seq<EpisodeEntry>)
    requires SortedByEpisode(s)
    ensures SortedByEpisode(InsertByEpisode(e, s))
    decreases |s|
  {
    if s != [] && e.episode >= s[0].episode {
      InsertKeepsSorted(e, s[1..]);
      InsertAbove(e, s[1..], s[0].episode);
      ConsSorted(s[0], InsertByEpisode(e, s[1..]));
    }
  }

  /** The entries sorted by episode, entries with the same episode kept in their
      order, as Python's stable `sorted` keeps them. */
  function SortByEpisode(s: seq<EpisodeEntry>): (r: seq<EpisodeEntry>)
    ensures |r| == |s| && multiset(r) == multiset(s)
    ensures SortedByEpisode(r)
  {
    if s == [] then []
    else
      assert s == s[..|s| - 1] + [s[|s| - 1]];
      InsertKeepsSorted(s[|s| - 1], SortByEpisode(s[..|s| - 1]));
      InsertByEpisode(s[|s| - 1], SortByEpisode(s[..|s| - 1]))
  }

  /** An entry no earlier in episode order than all of a sorted list goes last. */
  lemma {:induction false} InsertAtEnd(e: EpisodeEntry, s: seq<EpisodeEntry>)
    requires forall k | 0 <= k < |s| :: s[k].episode <= e.episode
    ensures InsertByEpisode(e, s) == s + [e]
    decreases |s|
  {
    if s != [] {
      InsertAtEnd(e, s[1..]);
      assert [s[0]] + (s[1..] + [e]) == s + [e];
    }
  }

  /** Sorting a list already in episode order leaves it as it is. */
  lemma {:induction false} SortedUnchanged(s: seq<EpisodeEntry>)
    requires SortedByEpisode(s)
    ensures SortByEpisode(s) == s
    decreases |s|
  {
    if s != [] {
      var init, last := s[..|s| - 1], s[|s| - 1];
      SortedUnchanged(init);
      InsertAtEnd(last, init);
      assert init + [last] == s;
    }
  }

  /** The entries of the requested episodes, in request order. */
  function Requested(site: Site, dyid: nat, name: string, episodes: seq<int>): seq<EpisodeEntry> {
    seq(|episodes|, k requires 0 <= k < |episodes| => FetchEpisode(site, dyid, name, episodes[k]))
  }

  /** get_m3u8_urls_selective: the entries of the requested episodes, sorted by
      episode number; each records the episode's play page and the address
      resolved from it. An empty list makes the thread pool raise for want of
      workers, modelled as None. */
  function FetchSelective(site: Site, dyid: nat, name: string, episodes: seq<int>): (r: Option<seq<EpisodeEntry>>)
    ensures r.Some? <==> episodes != []
    ensures r.Some? ==>
      && |r.value| == |episodes| && SortedByEpisode(r.value)
      && multiset(r.value) == multiset(Requested(site, dyid, name, episodes))
    ensures r.Some? ==> forall x | x in r.value ::
      && x.dyid == dyid && x.name == name && x.episode in episodes
      && x.playUrl == PlayUrl(dyid, x.episode - 1)
      && x.m3u8Url == ResolvePlayUrl(site, x.playUrl)
  {
    if episodes == [] then None
    else
      FetchedEntries(site, dyid, name, episodes);
      Some(SortByEpisode(Requested(site, dyid, name, episodes)))
  }

  /** Each sorted entry is the fetch of one requested episode. */
  lemma FetchedEntries(site: Site, dyid: nat, name: string, episodes: seq<int>)
    ensures forall x | x in SortByEpisode(Requested(site, dyid, name, episodes)) ::
      && x.dyid == dyid && x.name == name && x.episode in episodes
      && x.playUrl == PlayUrl(dyid, x.episode - 1)
      && x.m3u8Url == ResolvePlayUrl(site, x.playUrl)
  {
    var raw := Requested(site, dyid, name, episodes);
    forall x | x in SortByEpisode(raw)
      ensures x == FetchEpisode(site, dyid, name, x.episode) && x.episode in episodes
    {
      assert x in multiset(SortByEpisode(raw));
      assert x in raw;
      var k :| 0 <= k < |raw| && raw[k] == x;
    }
  }

  /** Every requested episode has its entry. */
  lemma FetchSelectiveCovers(site: Site, dyid: nat, name: string, episodes: seq<int>, k: nat)
    requires k < |episodes|
    ensures FetchEpisode(site, dyid, name, episodes[k]) in FetchSelective(site, dyid, name, episodes).value
  {
    var raw := Requested(site, dyid, name, episodes);
    assert raw[k] in multiset(raw);
  }

  /** For episodes requested in ascending order, as the crawler requests its missing
      episodes, the sort keeps the request order. */
  lemma FetchSelectiveInRequestOrder(site: Site, dyid: nat, name: string, episodes: seq<int>)
    requires episodes != []
    requires forall a, b | 0 <= a < b < |episodes| :: episodes[a] <= episodes[b]
    ensures FetchSelective(site, dyid, name, episodes).value == Requested(site, dyid, name, episodes)
    ensures forall k | 0 <= k < |episodes| :: FetchSelective(site, dyid, name, episodes).value[k].episode == episodes[k]
  {
    SortedUnchanged(Requested(site, dyid, name, episodes));
  }

  /** 1, 2, ..., n. */
  function EpisodeRange(n: nat): (r: seq<int>)
    ensures |r| == n && forall k | 0 <= k < n :: r[k] == k + 1
  {
    if n == 0 then [] else EpisodeRange(n - 1) + [n]
  }

  /** `fetch_m3u8` of get_m3u8_urls_batch, for the episode with 0-based index `index`. */
  function FetchIndex(site: Site, dyid: nat, name: string, index: int): EpisodeEntry {
    var play := PlayUrl(dyid, index);
    EpisodeEntry(dyid, name, index + 1, play, ResolvePlayUrl(site, play))
  }

  /** get_m3u8_urls_batch: the episodes with indices 0..count-1, sorted by episode
      number; a count below 1 makes the thread pool raise, modelled as None. */
  function FetchAll(site: Site, dyid: nat, name: string, count: int): Option<seq<EpisodeEntry>> {
    if count < 1 then None
    else Some(SortByEpisode(seq(count, index requires 0 <= index < count => FetchIndex(site, dyid, name, index))))
  }

  /** Both fetchers agree: fetching all episodes is fetching the episodes 1..count. */
  lemma FetchAllIsSelectiveOfRange(site: Site, dyid: nat, name: string, count: nat)
    ensures FetchAll(site, dyid, name, count) == FetchSelective(site, dyid, name, EpisodeRange(count))
  {
    if count >= 1 {
      var a := seq(count, index requires 0 <= index < count => FetchIndex(site, dyid, name, index));
      var b := Requested(site, dyid, name, EpisodeRange(count));
      forall k | 0 <= k < count ensures a[k] == b[k] {
        assert EpisodeRange(count)[k] - 1 == k;
      }
      assert a == b;
    }
  }

  // ---------------------------------------------------------------------------
  // Properties of the chain
  // ---------------------------------------------------------------------------

  /** A Base64 encoding longer than 20 characters passes the `LooksBase64` test and
      cannot contain `get_dplayer`, whose underscore is not in the alphabet. */
  lemma EncodingLooksBase64(b: seq<Byte>)
    requires |Base64.Encode(b)| > 20
    ensures LooksBase64(Base64.Encode(b)) && !Contains(Base64.Encode(b), "get_dplayer")
  {
    var v := Base64.Encode(b);
    if Contains(v, "get_dplayer") {
      ContainsHasChars(v, "get_dplayer", 3);
      assert false;
    }
  }

  /** Strategy 1b inverts encoding: a source value that is the Base64 encoding of the
      UTF-8 bytes of an `http` address, longer than 20 characters, yields that address. */
  lemma Base64ValueYieldsAddress(site: Site, u: string)
    requires StartsWith(u, "http")
    requires |Base64.Encode(Utf8.Encode(u))| > 20
    ensures ConfiguredUrl(site, Base64.Encode(Utf8.Encode(u))) == Some(u)
  {
    EncodingLooksBase64(Utf8.Encode(u));
    Base64.DecodeEncode(Utf8.Encode(u));
    Utf8.DecodeEncode(u);
  }

  /** The decrypt API is consulted only for `get_dplayer` values: any other value
      resolves the same way whatever the API would answer. */
  lemma ApiOnlyForDplayer(site1: Site, site2: Site, v: string)
    requires !Contains(v, "get_dplayer")
    ensures ConfiguredUrl(site1, v) == ConfiguredUrl(site2, v)
  {
  }

  /** A `get_dplayer` value is resolved only through the API: it yields the API's
      address when there is one and nothing otherwise, even when the value itself
      looks like Base64 or starts with `http`. */
  lemma DplayerOnlyThroughApi(site: Site, v: string)
    requires Contains(v, "get_dplayer")
    ensures ConfiguredUrl(site, v) == ApiUrl(site, v)
    ensures ApiUrl(site, v) == None ==> ConfiguredUrl(site, v) == None
  {
  }

  /** An `http` value that names no `get_dplayer` and does not look like Base64 is
      used as it is. */
  lemma DirectAddressUsed(site: Site, v: string)
    requires StartsWith(v, "http") && !LooksBase64(v) && !Contains(v, "get_dplayer")
    ensures ConfiguredUrl(site, v) == Some(v)
  {
  }

  /** A value with a scheme separator is never taken for Base64: ':' is outside its
      alphabet. */
  lemma SchemeValueNotBase64(v: string)
    requires ':' in v
    ensures !LooksBase64(v)
  {
    var k :| 0 <= k < |v| && v[k] == ':';
    if |v| > 0 && v[|v| - 1] == '\n' && k < |v| - 1 {
      assert v[..|v| - 1][k] == ':';
    }
  }

  /** Strategy 1 takes precedence: when the page's configuration yields an address,
      that address is returned, whatever else the page contains. */
  lemma ConfiguredWins(site: Site, content: string, block: string, v: string, u: string)
    requires PlayerConfig(content) == Some(block) && UrlValue(block) == Some(v)
    requires ConfiguredUrl(site, v) == Some(u)
    ensures ResolvePage(site, content) == Some(u)
  {
  }

  /** Without a usable configuration the page is scanned. */
  lemma NoConfigurationScans(site: Site, content: string)
    requires PlayerConfig(content) == None
    ensures ResolvePage(site, content) == ScanM3u8(content)
  {
  }

  /** A failing strategy 1 falls through to the scan, never to a later strategy-1 case. */
  lemma FailedConfigurationScans(site: Site, content: string, block: string, v: string)
    requires PlayerConfig(content) == Some(block) && UrlValue(block) == Some(v)
    requires ConfiguredUrl(site, v) == None
    ensures ResolvePage(site, content) == ScanM3u8(content)
  {
  }

  /** The two schemes the pattern `https?://` matches. */
  predicate IsScheme(scheme: string) {
    scheme == "http://" || scheme == "https://"
  }

  /** At position i the page holds a scheme, then m, then `.m3u8`; m is made of URL
      characters, and a non-URL character or the end of the page follows. */
  predicate WrittenAddressAt(s: string, i: nat, scheme: string, m: string) {
    && IsScheme(scheme) && |m| >= 1 && (forall k | 0 <= k < |m| :: IsUrlChar(m[k]))
    && OccursAt(s, scheme, i) && OccursAt(s, m, i + |scheme|) && OccursAt(s, ".m3u8", i + |scheme| + |m|)
    && (i + |scheme| + |m| + 5 == |s| || !IsUrlChar(s[i + |scheme| + |m| + 5]))
  }

  /** A `.m3u8` address written at position i, with either scheme and followed by a
      non-URL character or the end of the page, is what the pattern matches at i. */
  lemma ScanAtWrittenAddress(s: string, i: nat, scheme: string, m: string)
    requires WrittenAddressAt(s, i, scheme, m)
    ensures ScanAt(s, i) == Some(scheme + m + ".m3u8")
  {
    var j := i + |scheme|;
    SchemeMatches(s, i, scheme);
    WrittenAddressChars(s, j, m);
    RunEndsAtExtension(s, j, |m|);
    ScanAtIs(s, i, j, |m|);
    WrittenAddressJoined(s, i, scheme, m);
    SameMatch(ScanAt(s, i), s[i..j + |m| + 5], scheme + m + ".m3u8");
  }

  /** Equal texts make equal matches. */
  lemma SameMatch(r: Option<string>, u: string, v: string)
    requires r == Some(u) && u == v
    ensures r == Some(v)
  {
  }

  /** `https?://` matches a written scheme, and ends where it ends. */
  lemma SchemeMatches(s: string, i: nat, scheme: string)
    requires IsScheme(scheme) && OccursAt(s, scheme, i)
    ensures AfterScheme(s, i) == Some(i + |scheme|)
  {
    forall k | 0 <= k < |scheme| ensures s[i + k] == scheme[k] {
      assert s[i..i + |scheme|][k] == s[i + k];
    }
    assert s[i] == 'h' && s[i + 1] == 't' && s[i + 2] == 't' && s[i + 3] == 'p';
    if scheme == "http://" {
      assert s[i + 4] == ':' && s[i + 5] == '/' && s[i + 6] == '/';
    } else {
      assert s[i + 4] == 's' && s[i + 5] == ':' && s[i + 6] == '/' && s[i + 7] == '/';
    }
  }

  /** From m to the end of `.m3u8` every character is a URL character. */
  lemma WrittenAddressChars(s: string, j: nat, m: string)
    requires forall k | 0 <= k < |m| :: IsUrlChar(m[k])
    requires OccursAt(s, m, j) && OccursAt(s, ".m3u8", j + |m|)
    ensures forall k | j <= k < j + |m| + 5 :: IsUrlChar(s[k])
  {
    forall k | j <= k < j + |m| + 5 ensures IsUrlChar(s[k]) {
      if k < j + |m| {
        assert s[k] == s[j..j + |m|][k - j];
      } else {
        assert s[k] == s[j + |m|..j + |m| + 5][k - j - |m|];
      }
    }
  }

  /** The three adjacent parts form the address. */
  lemma WrittenAddressJoined(s: string, i: nat, scheme: string, m: string)
    requires OccursAt(s, scheme, i) && OccursAt(s, m, i + |scheme|)
    requires OccursAt(s, ".m3u8", i + |scheme| + |m|)
    ensures s[i..i + |scheme| + |m| + 5] == scheme + m + ".m3u8"
  {
    var a, b := i + |scheme|, i + |scheme| + |m|;
    assert s[i..b + 5] == s[i..a] + s[a..b] + s[b..b + 5];
  }

  /** The pattern matches at i what lies between i and the last `.m3u8` of the run. */
  lemma ScanAtIs(s: string, i: nat, j: nat, L: nat)
    requires AfterScheme(s, i) == Some(j) && j <= |s|
    requires LastExtension(s, j, UrlRun(s, j) - 5) == Some(L)
    ensures j + L + 5 <= |s| && ScanAt(s, i) == Some(s[i..j + L + 5])
  {
    ExtensionInRun(s, j, L);
    ScanAtAfterScheme(s, i, j);
    MatchAfterSchemeIs(s, i, j, L);
  }

  /** The `.m3u8` the pattern settles on ends inside the page. */
  lemma ExtensionInRun(s: string, j: nat, L: nat)
    requires j <= |s| && LastExtension(s, j, UrlRun(s, j) - 5) == Some(L)
    ensures j + L + 5 <= |s|
  {
  }

  /** Once `https?://` has matched, the rest of the pattern decides. */
  lemma ScanAtAfterScheme(s: string, i: nat, j: nat)
    requires AfterScheme(s, i) == Some(j)
    ensures ScanAt(s, i) == MatchAfterScheme(s, i, j)
  {
  }

  /** The rest of the pattern matches up to the `.m3u8` it settles on. */
  lemma MatchAfterSchemeIs(s: string, i: nat, j: nat, L: nat)
    requires i <= j <= |s|
    requires LastExtension(s, j, UrlRun(s, j) - 5) == Some(L) && j + L + 5 <= |s|
    ensures MatchAfterScheme(s, i, j) == Some(s[i..j + L + 5])
  {
  }

  /** A run of n + 5 URL characters at j that ends in `.m3u8` and stops there: the
      pattern settles on that `.m3u8`. */
  lemma RunEndsAtExtension(s: string, j: nat, n: nat)
    requires n >= 1 && j + n + 5 <= |s| && OccursAt(s, ".m3u8", j + n)
    requires forall k | j <= k < j + n + 5 :: IsUrlChar(s[k])
    requires j + n + 5 == |s| || !IsUrlChar(s[j + n + 5])
    ensures LastExtension(s, j, UrlRun(s, j) - 5) == Some(n)
  {
    UrlRunOf(s, j, n + 5);
    assert LastExtension(s, j, n) == Some(n);
  }

  /** The run of URL characters at j is exactly n long when n URL characters are
      followed by a non-URL character or the end. */
  lemma {:induction false} UrlRunOf(s: string, j: nat, n: nat)
    requires j + n <= |s| && forall k | j <= k < j + n :: IsUrlChar(s[k])
    requires j + n == |s| || !IsUrlChar(s[j + n])
    ensures UrlRun(s, j) == n
    decreases n
  {
    if n > 0 {
      UrlRunOf(s, j + 1, n - 1);
    }
  }

  /** The scan finds an address written after any text in which the pattern matches
      nowhere, when a non-URL character or the end of the page follows it. */
  lemma ScanFindsWrittenAddress(pre: string, scheme: string, m: string, post: string)
    requires IsScheme(scheme)
    requires |m| >= 1 && forall k | 0 <= k < |m| :: IsUrlChar(m[k])
    requires post == [] || !IsUrlChar(post[0])
    requires forall q: nat | q < |pre| :: ScanAt(pre + scheme + m + ".m3u8" + post, q).None?
    ensures ScanM3u8(pre + scheme + m + ".m3u8" + post) == Some(scheme + m + ".m3u8")
  {
    var s := pre + scheme + m + ".m3u8" + post;
    var i := |pre|;
    var a, b := i + |scheme|, i + |scheme| + |m|;
    assert s[i..a] == scheme;
    assert s[a..b] == m;
    assert s[b..b + 5] == ".m3u8";
    assert post != [] ==> s[b + 5] == post[0];
    ScanAtWrittenAddress(s, i, scheme, m);
    FirstScanMatch(s, i);
  }

  /** A page without a space declares no player configuration: `var player_aaaa`
      holds one. */
  lemma NoConfigWithoutSpace(page: string)
    requires forall k | 0 <= k < |page| :: page[k] != ' '
    ensures PlayerConfig(page) == None
  {
    forall i: nat ensures ConfigAt(page, i) == None {
      if i + |PLAYER_VAR| <= |page| {
        assert page[i..i + |PLAYER_VAR|][3] == page[i + 3] != PLAYER_VAR[3];
      }
    }
    var at := (i: nat) => ConfigAt(page, i);
    assert Leftmost(at, 0, |page|) == None;
  }

  /** A written address holds no space: neither its scheme, nor its URL characters,
      nor `.m3u8` do. */
  lemma WrittenAddressNoSpace(scheme: string, m: string)
    requires IsScheme(scheme)
    requires forall k | 0 <= k < |m| :: IsUrlChar(m[k])
    ensures forall k | 0 <= k < |scheme + m + ".m3u8"| :: (scheme + m + ".m3u8")[k] != ' '
  {
    var page := scheme + m + ".m3u8";
    forall k | 0 <= k < |page| ensures page[k] != ' ' {
      if k < |scheme| {
        assert page[k] == scheme[k];
      } else if k < |scheme| + |m| {
        assert page[k] == m[k - |scheme|];
        assert IsUrlChar(m[k - |scheme|]);
      } else {
        assert page[k] == ".m3u8"[k - |scheme| - |m|];
      }
    }
  }

  /** A page that is nothing but an address resolves to that address through the
      scan: an address holds no space, so no configuration. */
  lemma BareAddressPageResolves(site: Site, scheme: string, m: string)
    requires IsScheme(scheme)
    requires |m| >= 1 && forall k | 0 <= k < |m| :: IsUrlChar(m[k])
    ensures ResolvePage(site, scheme + m + ".m3u8") == Some(scheme + m + ".m3u8")
  {
    var page := scheme + m + ".m3u8";
    assert "" + scheme + m + ".m3u8" + "" == page;
    ScanFindsWrittenAddress("", scheme, m, "");
    WrittenAddressNoSpace(scheme, m);
    NoConfigWithoutSpace(page);
    NoConfigurationScans(site, page);
  }
}
