/** The entities the crawler stores and the remote site it reads, as the crawler
    sees them: rows of the `dy`, `m3u8` and `crawl_progress` tables, and the pages
    of the site together with the HTML/JSON parsing applied to them. */
module Records {
  import opened Util

  const BASE_URL: string := "https://m.dsq4d.com"

  /** A work (one row of `dy`), keyed by `dyid`; `crawl_time` is not modelled. */
  datatype Work = Work(
    dyid: int,
    name: string,
    kind: string,        // the `type` column
    region: string,
    year: string,
    actors: string,
    directors: string,
    description: string,
    url: string)

  /** What the detail-page parser extracts from a work's page. */
  datatype Detail = Detail(
    name: string, kind: string, region: string, year: string,
    actors: string, directors: string, description: string)

  /** One resolved-or-not episode as the resolver produces it and the batch buffer holds it. */
  datatype EpisodeEntry = EpisodeEntry(
    dyid: int, name: string, episode: int, playUrl: string, m3u8Url: Option<string>)

  /** The stored part of an episode row (one row of `m3u8`), keyed by (dyid, episode). */
  datatype EpisodeRow = EpisodeRow(name: string, playUrl: string, m3u8Url: Option<string>)

  datatype Status = Running | Completed | Interrupted | Error

  /** One row of `crawl_progress`, keyed by category; `update_time` is not modelled. */
  datatype Progress = Progress(currentPage: int, totalPages: int, lastDyid: int, status: Status)

  /** What the pagination parser extracts from a listing page: the href of the
      "尾页" (last page) link when that link exists and has one, and the stripped
      texts of the `ul.page a` links. */
  datatype Pager = Pager(lastHref: Option<string>, pageTexts: seq<string>)

  /** The decoded JSON object of the decrypt API: its `code` and `url` members. */
  datatype ApiReply = ApiReply(code: int, url: string)

  /** The remote site and the parsers applied to its pages. `get` is one GET with
      retries: the body of a 200 response, or None. */
  datatype Site = Site(
    get: string -> Option<string>,
    pager: string -> Pager,
    /** hrefs of the `li a` links of the movie list (None: an anchor without href),
        or None when the page has no list container */
    listing: string -> Option<seq<Option<string>>>,
    /** stripped texts of the play-list links, or None when there is no play list */
    playlist: string -> Option<seq<string>>,
    detail: string -> Detail,
    /** `response.json()` of the decrypt API; None when it raises or is not an object */
    json: string -> Option<ApiReply>)

  /** The listing page of a category. */
  function ListUrl(category: int, page: int): string {
    BASE_URL + "/list/" + IntToString(category) + "-" + IntToString(page) + ".html"
  }

  /** The canonical detail page of a work. */
  function DetailUrl(dyid: nat): string {
    BASE_URL + "/mp4/" + NatToString(dyid) + ".html"
  }

  /** The work a detail page describes. */
  function WorkOf(dyid: int, d: Detail, url: string): Work {
    Work(dyid, d.name, d.kind, d.region, d.year, d.actors, d.directors, d.description, url)
  }
}
