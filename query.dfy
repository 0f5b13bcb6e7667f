/** The query tool: the SQL text and parameters of a search over the works table,
    and the M3U playlist written for the episode rows of a work. */
module Query {
  import opened Util

  // ---------------------------------------------------------------------------
  // search_movies
  // ---------------------------------------------------------------------------

  /** A value bound to one `?` placeholder. */
  datatype Param = Text(text: string) | Number(n: int)

  const SELECT_ALL := "SELECT * FROM dy WHERE 1=1"
  // The `?` placeholders are written as separate literals so that the counting
  // lemmas below can split the text at them; each constant is the one SQL text.
  const ORDER_LIMIT := " ORDER BY dyid DESC LIMIT " + "?"
  const KEYWORD_MATCH := " AND (name LIKE " + "?" + " OR description LIKE " + "?" + ")"

  /** One `AND` condition of a search and the values bound to its placeholders. */
  datatype Condition = Condition(sql: string, params: seq<Param>)

  /** The LIKE pattern of a keyword: any text around it. */
  function LikePattern(keyword: string): string {
    "%" + keyword + "%"
  }

  /** The keyword is looked for in the name and in the description. */
  function KeywordMatch(keyword: string): Condition {
    Condition(KEYWORD_MATCH, [Text(LikePattern(keyword)), Text(LikePattern(keyword))])
  }

  /** `column = ?`, bound to value. */
  function Equals(column: string, value: string): Condition {
    Condition(" AND " + column + " = " + "?", [Text(value)])
  }

  /** The text of a filter that is given. */
  function Value(o: Option<string>): string {
    if o.Some? then o.value else ""
  }

  /** A query and its values, narrowed by c when its filter is given. */
  function AndIf(q: (string, seq<Param>), given: bool, c: Condition): (string, seq<Param>) {
    if given then (q.0 + c.sql, q.1 + c.params) else q
  }

  /** The query and values of a search before its order and limit: one condition per
      filter that is neither None nor empty, in the order keyword, category (the
      `type` column), region, year. */
  function Filtered(keyword: Option<string>, category: Option<string>, region: Option<string>, year: Option<string>): (string, seq<Param>) {
    var withKeyword := AndIf((SELECT_ALL, []), Truthy(keyword), KeywordMatch(Value(keyword)));
    var withCategory := AndIf(withKeyword, Truthy(category), Equals("type", Value(category)));
    var withRegion := AndIf(withCategory, Truthy(region), Equals("region", Value(region)));
    AndIf(withRegion, Truthy(year), Equals("year", Value(year)))
  }

  /** The query a search runs: every row, narrowed by the filters, newest id first. */
  function SearchQuery(keyword: Option<string>, category: Option<string>, region: Option<string>, year: Option<string>): string {
    Filtered(keyword, category, region, year).0 + ORDER_LIMIT
  }

  function SearchParams(keyword: Option<string>, category: Option<string>, region: Option<string>, year: Option<string>, limit: int): seq<Param> {
    Filtered(keyword, category, region, year).1 + [Number(limit)]
  }

  /** search_movies, up to the execution of the query, which is handed to SQLite. */
  method SearchMovies(keyword: Option<string>, category: Option<string>, region: Option<string>, year: Option<string>, limit: int)
    returns (query: string, params: seq<Param>)
    ensures query == SearchQuery(keyword, category, region, year)
    ensures params == SearchParams(keyword, category, region, year, limit)
  {
    query := SELECT_ALL;
    params := [];
    query, params := AndWhere(query, params, Truthy(keyword), KeywordMatch(Value(keyword)));
    query, params := AndWhere(query, params, Truthy(category), Equals("type", Value(category)));
    query, params := AndWhere(query, params, Truthy(region), Equals("region", Value(region)));
    query, params := AndWhere(query, params, Truthy(year), Equals("year", Value(year)));
    assert (query, params) == Filtered(keyword, category, region, year);
    query := query + ORDER_LIMIT;
    params := params + [Number(limit)];
  }

  /** One `if <filter>:` step of the search: the condition's text is appended to
      the query and its values to the parameters when the filter is given. */
  method AndWhere(query: string, params: seq<Param>, given: bool, c: Condition) returns (query': string, params': seq<Param>)
    ensures query' == AndIf((query, params), given, c).0 && params' == AndIf((query, params), given, c).1
  {
    query', params' := query, params;
    if given {
      query' := query' + c.sql;
      params' := params' + c.params;
    }
  }

  lemma {:induction false} CountAbsent(s: string, c: char)
    requires c !in s
    ensures CountChar(s, c) == 0
    decreases |s|
  {
    if s != [] {
      assert forall x :: x in s[..|s| - 1] ==> x in s;
      CountAbsent(s[..|s| - 1], c);
    }
  }

  /** A condition has as many placeholders as values. */
  predicate WellBound(c: Condition) {
    CountChar(c.sql, '?') == |c.params|
  }

  lemma EqualsWellBound(column: string, value: string)
    requires '?' !in column
    ensures WellBound(Equals(column, value))
  {
    var s := " AND " + column + " = ";
    CountAbsent(" AND ", '?');
    CountAbsent(column, '?');
    CountAbsent(" = ", '?');
    CountCharAppend(" AND ", column, '?');
    CountCharAppend(" AND " + column, " = ", '?');
    CountCharAppend(s, "?", '?');
  }

  lemma KeywordWellBound(keyword: string)
    ensures WellBound(KeywordMatch(keyword))
  {
    var a, b, d := " AND (name LIKE ", " OR description LIKE ", ")";
    CountAbsent(a, '?');
    CountAbsent(b, '?');
    CountAbsent(d, '?');
    CountCharAppend(a, "?", '?');
    CountCharAppend(a + "?", b, '?');
    CountCharAppend(a + "?" + b, "?", '?');
    CountCharAppend(a + "?" + b + "?", d, '?');
  }

  /** A query with as many placeholders as values keeps that balance, and its
      earlier text and values, when it is narrowed. */
  lemma AndIfKeepsBalance(q: (string, seq<Param>), given: bool, c: Condition)
    requires CountChar(q.0, '?') == |q.1| && WellBound(c)
    ensures var r := AndIf(q, given, c);
      && CountChar(r.0, '?') == |r.1|
      && StartsWith(r.0, q.0) && |q.1| <= |r.1| && r.1[..|q.1|] == q.1
  {
    if given {
      CountCharAppend(q.0, c.sql, '?');
      assert (q.0 + c.sql)[..|q.0|] == q.0;
      assert (q.1 + c.params)[..|q.1|] == q.1;
    }
  }

  lemma FramePlaceholders()
    ensures CountChar(SELECT_ALL, '?') == 0 && CountChar(ORDER_LIMIT, '?') == 1
  {
    CountAbsent(SELECT_ALL, '?');
    CountAbsent(" ORDER BY dyid DESC LIMIT ", '?');
    CountCharAppend(" ORDER BY dyid DESC LIMIT ", "?", '?');
  }

  /** Four narrowing steps keep the balance of placeholders and values, and the
      text they started from. */
  lemma AndIfChainBalanced(q0: (string, seq<Param>), g1: bool, c1: Condition, g2: bool, c2: Condition,
                           g3: bool, c3: Condition, g4: bool, c4: Condition)
    requires CountChar(q0.0, '?') == |q0.1|
    requires WellBound(c1) && WellBound(c2) && WellBound(c3) && WellBound(c4)
    ensures var r := AndIf(AndIf(AndIf(AndIf(q0, g1, c1), g2, c2), g3, c3), g4, c4);
      CountChar(r.0, '?') == |r.1| && StartsWith(r.0, q0.0)
  {
    var q1 := AndIf(q0, g1, c1);
    AndIfKeepsBalance(q0, g1, c1);
    var q2 := AndIf(q1, g2, c2);
    AndIfKeepsBalance(q1, g2, c2);
    PrefixOfPrefix(q0.0, q1.0, q2.0);
    var q3 := AndIf(q2, g3, c3);
    AndIfKeepsBalance(q2, g3, c3);
    PrefixOfPrefix(q0.0, q2.0, q3.0);
    AndIfKeepsBalance(q3, g4, c4);
    PrefixOfPrefix(q0.0, q3.0, AndIf(q3, g4, c4).0);
  }

  /** Whichever filters are given, the filtered query has one value per
      placeholder and still starts with the selection of every work. */
  lemma FilteredBalanced(keyword: Option<string>, category: Option<string>, region: Option<string>, year: Option<string>)
    ensures var f := Filtered(keyword, category, region, year);
      CountChar(f.0, '?') == |f.1| && StartsWith(f.0, SELECT_ALL)
  {
    FramePlaceholders();
    KeywordWellBound(Value(keyword));
    EqualsWellBound("type", Value(category));
    EqualsWellBound("region", Value(region));
    EqualsWellBound("year", Value(year));
    AndIfChainBalanced((SELECT_ALL, []), Truthy(keyword), KeywordMatch(Value(keyword)),
      Truthy(category), Equals("type", Value(category)), Truthy(region), Equals("region", Value(region)),
      Truthy(year), Equals("year", Value(year)));
  }

  lemma PrefixOfPrefix(a: string, b: string, c: string)
    requires StartsWith(b, a) && StartsWith(c, b)
    ensures StartsWith(c, a)
  {
    assert c[..|a|] == c[..|b|][..|a|];
  }

  /** Every `?` of a search query has exactly one value, whichever filters are
      given; the query selects from the works table and ends with the order and
      the limit, whose value is the last parameter. */
  lemma SearchPlaceholdersBound(keyword: Option<string>, category: Option<string>, region: Option<string>, year: Option<string>, limit: int)
    ensures var query, params := SearchQuery(keyword, category, region, year), SearchParams(keyword, category, region, year, limit);
      && CountChar(query, '?') == |params|
      && StartsWith(query, SELECT_ALL) && EndsWith(query, ORDER_LIMIT)
      && params[|params| - 1] == Number(limit)
  {
    var f := Filtered(keyword, category, region, year);
    FilteredBalanced(keyword, category, region, year);
    FramePlaceholders();
    CountCharAppend(f.0, ORDER_LIMIT, '?');
    assert (f.0 + ORDER_LIMIT)[..|SELECT_ALL|] == f.0[..|SELECT_ALL|];
  }

  /** The keyword is matched against both the name and the description, as a
      substring: it is bound twice, as `%keyword%`, ahead of every other value. */
  lemma KeywordBoundTwice(keyword: Option<string>, category: Option<string>, region: Option<string>, year: Option<string>, limit: int)
    requires Truthy(keyword)
    ensures var ps := SearchParams(keyword, category, region, year, limit);
      |ps| >= 3 && ps[0] == ps[1] == Text("%" + keyword.value + "%")
  {
    var withKeyword := AndIf((SELECT_ALL, []), true, KeywordMatch(keyword.value));
    assert withKeyword.1 == KeywordMatch(keyword.value).params;
    var withCategory := AndIf(withKeyword, Truthy(category), Equals("type", Value(category)));
    var withRegion := AndIf(withCategory, Truthy(region), Equals("region", Value(region)));
    var f := AndIf(withRegion, Truthy(year), Equals("year", Value(year)));
    ValuesKept(withKeyword, withCategory, withRegion, f, Truthy(category), Equals("type", Value(category)),
      Truthy(region), Equals("region", Value(region)), Truthy(year), Equals("year", Value(year)));
  }

  /** Narrowing only appends values. */
  lemma ValuesKept(q0: (string, seq<Param>), q1: (string, seq<Param>), q2: (string, seq<Param>), q3: (string, seq<Param>),
                   g1: bool, c1: Condition, g2: bool, c2: Condition, g3: bool, c3: Condition)
    requires q1 == AndIf(q0, g1, c1) && q2 == AndIf(q1, g2, c2) && q3 == AndIf(q2, g3, c3)
    ensures |q0.1| <= |q3.1| && q3.1[..|q0.1|] == q0.1
  {
    assert |q0.1| <= |q1.1| <= |q2.1| <= |q3.1|;
    assert forall i :: 0 <= i < |q0.1| ==> q3.1[i] == q2.1[i] == q1.1[i] == q0.1[i];
  }

  // ---------------------------------------------------------------------------
  // export_m3u8_playlist
  // ---------------------------------------------------------------------------

  /** One joined episode row: the work's name, the episode number and the address,
      each possibly NULL. */
  datatype PlaylistLink = PlaylistLink(movieName: Option<string>, episode: Option<int>, m3u8Url: Option<string>)

  /** Python's formatting of a nullable column inside an f-string. */
  function Shown(o: Option<string>): string {
    if o.Some? then o.value else "None"
  }

  function ShownInt(o: Option<int>): string {
    if o.Some? then IntToString(o.value) else "None"
  }

  const PLAYLIST_HEADER := "#EXTM3U"

  /** The `#EXTINF` line of an entry, without its newline. */
  function InfoLine(l: PlaylistLink): string {
    "#EXTINF:-1," + Shown(l.movieName) + " 第" + ShownInt(l.episode) + "集"
  }

  /** The two lines of an entry. */
  function Entry(l: PlaylistLink): string {
    InfoLine(l) + "\n" + Shown(l.m3u8Url) + "\n"
  }

  function Entries(links: seq<PlaylistLink>): string {
    if links == [] then "" else Entry(links[0]) + Entries(links[1..])
  }

  /** The text of the playlist file. */
  function Playlist(links: seq<PlaylistLink>): string {
    PLAYLIST_HEADER + "\n" + Entries(links)
  }

  /** export_m3u8_playlist; `opens` says whether the file can be opened for writing.
      Nothing is written for an empty list or an unopenable file. */
  method ExportPlaylist(links: seq<PlaylistLink>, opens: bool) returns (ok: bool, written: Option<string>)
    ensures ok <==> links != [] && opens
    ensures ok ==> written == Some(Playlist(links))
    ensures !ok ==> written.None?
  {
    if links == [] {
      return false, None;
    }
    if !opens {
      return false, None;
    }
    var text := PLAYLIST_HEADER + "\n";
    for i := 0 to |links|
      invariant text + Entries(links[i..]) == Playlist(links)
    {
      EntriesFrom(links, i);
      // the `#EXTINF` line and the address line of links[i]
      text := text + Entry(links[i]);
    }
    assert Entries(links[|links|..]) == [] by {
      assert links[|links|..] == [];
    }
    assert text == text + Entries(links[|links|..]);
    return true, Some(text);
  }

  lemma EntriesFrom(links: seq<PlaylistLink>, i: nat)
    requires i < |links|
    ensures Entries(links[i..]) == Entry(links[i]) + Entries(links[i + 1..])
  {
    assert links[i..][1..] == links[i + 1..];
  }

  // The file read back line by line.

  /** Index of the first newline of s, or |s| when there is none. */
  function NewlineAt(s: string): (i: nat)
    ensures i <= |s|
  {
    if s == [] then 0 else if s[0] == '\n' then 0 else 1 + NewlineAt(s[1..])
  }

  /** The lines of a text, as a reader splitting at each newline sees them. */
  function SplitLines(s: string): seq<string>
    decreases |s|
  {
    if s == [] then []
    else
      var i := NewlineAt(s);
      if i == |s| then [s] else [s[..i]] + SplitLines(s[i + 1..])
  }

  /** The first newline of a text is the one that ends its first line. */
  lemma {:induction false} NewlineAfterLine(line: string, rest: string)
    requires '\n' !in line
    ensures NewlineAt(line + "\n" + rest) == |line|
    decreases |line|
  {
    if line != [] {
      assert (line + "\n" + rest)[1..] == line[1..] + "\n" + rest;
      assert '\n' !in line[1..] by {
        assert forall x :: x in line[1..] ==> x in line;
      }
      NewlineAfterLine(line[1..], rest);
    }
  }

  lemma SplitFirstLine(line: string, rest: string)
    requires '\n' !in line
    ensures SplitLines(line + "\n" + rest) == [line] + SplitLines(rest)
  {
    var s := line + "\n" + rest;
    NewlineAfterLine(line, rest);
    assert s[..|line|] == line && s[|line| + 1..] == rest;
  }

  /** The lines of the entries: the `#EXTINF` line, then the address. */
  function EntryLines(links: seq<PlaylistLink>): seq<string> {
    if links == [] then [] else [InfoLine(links[0]), Shown(links[0].m3u8Url)] + EntryLines(links[1..])
  }

  /** No field of the link breaks a line. */
  predicate SingleLine(l: PlaylistLink) {
    '\n' !in Shown(l.movieName) && '\n' !in Shown(l.m3u8Url)
  }

  lemma NumeralOneLine(i: int)
    ensures '\n' !in IntToString(i)
  {
    var n := NatToString(if i < 0 then -i else i);
    assert AllDigits(n);
    assert forall k :: 0 <= k < |n| ==> n[k] != '\n';
    if i < 0 {
      assert IntToString(i) == "-" + n;
    }
  }

  lemma InfoLineOneLine(l: PlaylistLink)
    requires SingleLine(l)
    ensures '\n' !in InfoLine(l)
  {
    if l.episode.Some? {
      NumeralOneLine(l.episode.value);
    }
  }

  /** An entry followed by more text splits into its two lines and then the
      lines of that text. */
  lemma EntryThenRest(l: PlaylistLink, rest: string)
    requires SingleLine(l)
    ensures SplitLines(Entry(l) + rest) == [InfoLine(l), Shown(l.m3u8Url)] + SplitLines(rest)
  {
    InfoLineOneLine(l);
    var tail := Shown(l.m3u8Url) + "\n" + rest;
    assert Entry(l) + rest == InfoLine(l) + "\n" + tail;
    SplitFirstLine(InfoLine(l), tail);
    SplitFirstLine(Shown(l.m3u8Url), rest);
  }

  lemma {:induction false} EntriesLines(links: seq<PlaylistLink>)
    requires forall k :: 0 <= k < |links| ==> SingleLine(links[k])
    ensures SplitLines(Entries(links)) == EntryLines(links)
    decreases |links|
  {
    if links != [] {
      assert SplitLines(Entries(links[1..])) == EntryLines(links[1..]) by {
        EntriesLines(links[1..]);
      }
      EntryThenRest(links[0], Entries(links[1..]));
    }
  }

  lemma HeaderLine(links: seq<PlaylistLink>)
    ensures SplitLines(Playlist(links)) == [PLAYLIST_HEADER] + SplitLines(Entries(links))
  {
    SplitFirstLine(PLAYLIST_HEADER, Entries(links));
  }

  /** Read back line by line, the playlist is the header and then, for each link
      in order, its `#EXTINF` line followed by its address. */
  lemma PlaylistLines(links: seq<PlaylistLink>)
    requires forall k :: 0 <= k < |links| ==> SingleLine(links[k])
    ensures SplitLines(Playlist(links)) == [PLAYLIST_HEADER] + EntryLines(links)
  {
    HeaderLine(links);
    EntriesLines(links);
  }

  lemma {:induction false} EntryLinesAt(links: seq<PlaylistLink>, k: nat)
    requires k < |links|
    ensures |EntryLines(links)| == 2 * |links|
    ensures EntryLines(links)[2 * k] == InfoLine(links[k])
    ensures EntryLines(links)[2 * k + 1] == Shown(links[k].m3u8Url)
    decreases |links|
  {
    if k > 0 {
      EntryLinesAt(links[1..], k - 1);
    } else if |links| > 1 {
      EntryLinesAt(links[1..], 0);
    }
  }

  lemma AfterHeader(header: string, lines: seq<string>, i: nat)
    requires i < |lines|
    ensures ([header] + lines)[i + 1] == lines[i]
  {
  }

  /** A player reading the file finds link k's title on line 2k+1 and its address
      on the line after it, counting the header as line 0. */
  lemma PlaylistEntryAt(links: seq<PlaylistLink>, k: nat)
    requires forall j :: 0 <= j < |links| ==> SingleLine(links[j])
    requires k < |links|
    ensures |SplitLines(Playlist(links))| == 1 + 2 * |links|
    ensures SplitLines(Playlist(links))[2 * k + 1] == InfoLine(links[k])
    ensures SplitLines(Playlist(links))[2 * k + 2] == Shown(links[k].m3u8Url)
  {
    assert SplitLines(Playlist(links)) == [PLAYLIST_HEADER] + EntryLines(links) by {
      PlaylistLines(links);
    }
    EntryLinesAt(links, k);
    AfterHeader(PLAYLIST_HEADER, EntryLines(links), 2 * k);
    AfterHeader(PLAYLIST_HEADER, EntryLines(links), 2 * k + 1);
  }
}
