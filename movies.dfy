/**
 * The Movie record of main.go and the two places that fill it in: the row
 * loop of Search, which creates one Movie per listing row, and ScrapeMovie,
 * which overwrites four fields of an existing Movie from its detail page.
 */
module Movies {
  import opened Strings
  import opened Patterns
  import opened Html
  import opened Site

  /** Duration, Size, Posted and ViewCount: the i-th `span.dr` of a row, or "" if absent. */
  function DetailText(row: Row, i: nat): (t: string)
    ensures i < |row.details| ==> t == row.details[i].text
    ensures i >= |row.details| ==> t == []
  {
    assert i < |row.details| ==> Text(Eq(row.details, i)) == row.details[i].text by {
      if i < |row.details| {
        assert [row.details[i]][1..] == [];
        assert Text([row.details[i]]) == row.details[i].text + Text([]);
      }
    }
    Text(Eq(row.details, i))
  }

  /** The absolute URL of a listing row: the host followed by the title link's href. */
  function RowUrl(row: Row): (u: string)
    ensures |u| == |Host| + |Attr(row.titleLinks, "href")|
    ensures u[..|Host|] == Host && u[|Host|..] == Attr(row.titleLinks, "href")
  {
    Host + Attr(row.titleLinks, "href")
  }

  /** The text ScrapeMovie runs the three patterns over. */
  function DetailsText(doc: Document): string {
    Text(doc.details)
  }

  /**
   * Which step ScrapeMovie fails on, if any: the page must load, and the
   * bitrate, resolution and type patterns are tried in that order.
   */
  function ScrapeFailure(page: Option<Document>, url: string): Option<Error> {
    match page
    case None => Some(FetchFailed(url))
    case Some(doc) =>
      var d := DetailsText(doc);
      if FindBitrate(d).None? then Some(MissingBitrate)
      else if FindResolution(d).None? then Some(MissingResolution)
      else if FindType(d).None? then Some(MissingType)
      else None
  }

  /** The four fields of a Movie that ScrapeMovie overwrites. */
  datatype Technical = Technical(bitrate: string, resolution: string, videoType: string, description: string)

  /**
   * The technical fields after ScrapeMovie has read a loaded page: each
   * capture is stored as soon as it is found, so a missing pattern leaves
   * the fields before it overwritten and the ones from it on untouched.
   */
  function Scrape(before: Technical, page: Document): Technical {
    var d := DetailsText(page);
    match FindBitrate(d)
    case None => before
    case Some(b) =>
      match FindResolution(d)
      case None => before.(bitrate := b)
      case Some(r) =>
        match FindType(d)
        case None => before.(bitrate := b, resolution := r)
        case Some(t) => Technical(b, r, t, Description(page.description))
  }

  /**
   * How the two halves of a run agree: a successful run stores all four
   * captures whatever the fields held before, and a run that stops at a
   * pattern has overwritten exactly the fields before that pattern.
   */
  lemma ScrapeOutcome(before: Technical, page: Document, url: string)
    ensures var d := DetailsText(page);
      && (ScrapeFailure(Some(page), url).None? <==>
          FindBitrate(d).Some? && FindResolution(d).Some? && FindType(d).Some?)
      && (ScrapeFailure(Some(page), url).None? ==>
          Scrape(before, page) == Technical(FindBitrate(d).value, FindResolution(d).value,
                                           FindType(d).value, Description(page.description)))
      && (ScrapeFailure(Some(page), url) == Some(MissingBitrate) ==> Scrape(before, page) == before)
      && (ScrapeFailure(Some(page), url) == Some(MissingResolution) ==>
          Scrape(before, page) == before.(bitrate := FindBitrate(d).value))
      && (ScrapeFailure(Some(page), url) == Some(MissingType) ==>
          Scrape(before, page) == before.(bitrate := FindBitrate(d).value, resolution := FindResolution(d).value))
  {
  }

  class Movie {
    var title: string
    var url: string
    var description: string
    var duration: string
    var size: string
    var posted: string
    var viewCount: string
    var videoType: string     // Movie.Type in main.go
    var bitrate: string
    var resolution: string

    /** The fields ScrapeMovie may overwrite, as one value. */
    function Fields(): Technical
      reads this
    {
      Technical(bitrate, resolution, videoType, description)
    }

    /**
     * The body of Search's row loop: new(Movie) (every field ""), then the
     * listing fields read from the row.
     */
    constructor FromRow(row: Row)
      ensures IsListing(row)
    {
      title := Text(row.titleLinks);
      description := Text(row.summary);
      url := RowUrl(row);
      duration := DetailText(row, 0);
      size := DetailText(row, 1);
      posted := DetailText(row, 2);
      viewCount := DetailText(row, 3);
      videoType, bitrate, resolution := [], [], [];
    }

    /**
     * The Movie the row loop of Search builds from `row`: listing fields
     * read from the row, technical fields not yet scraped.
     */
    predicate IsListing(row: Row)
      reads this
    {
      title == Text(row.titleLinks) && url == RowUrl(row) && description == Text(row.summary) &&
      duration == DetailText(row, 0) && size == DetailText(row, 1) &&
      posted == DetailText(row, 2) && viewCount == DetailText(row, 3) &&
      videoType == [] && bitrate == [] && resolution == []
    }
  }

  /**
   * ScrapeMovie: load the movie's own page, then overwrite Bitrate,
   * Resolution, Type and Description, in that order. A missing pattern
   * stops the run right there, so the fields before it are already
   * overwritten and the ones after it are not. Nothing else changes.
   */
  method ScrapeMovie(m: Movie, web: Web, history: seq<Request>) returns (requests: seq<Request>, failure: Option<Error>)
    modifies m`bitrate, m`resolution, m`videoType, m`description
    ensures requests == [Load(m.url)]
    ensures failure == ScrapeFailure(web(history, Load(m.url)), m.url)
    ensures m.Fields() == (if web(history, Load(m.url)).Some?
                              then Scrape(old(m.Fields()), web(history, Load(m.url)).value)
                              else old(m.Fields()))
  {
    requests := [Load(m.url)];
    var page := web(history, Load(m.url));
    if page.None? {
      return requests, Some(FetchFailed(m.url));
    }
    var details := DetailsText(page.value);
    var b := FindBitrate(details);
    if b.None? {
      return requests, Some(MissingBitrate);
    }
    m.bitrate := b.value;
    var r := FindResolution(details);
    if r.None? {
      return requests, Some(MissingResolution);
    }
    m.resolution := r.value;
    var t := FindType(details);
    if t.None? {
      return requests, Some(MissingType);
    }
    m.videoType := t.value;
    m.description := Description(page.value.description);
    failure := None;
  }

  /**
   * The row loop of Search: one new Movie per row, in row order, none
   * skipped.
   */
  method ListMovies(rows: seq<Row>) returns (results: seq<Movie>)
    ensures |results| == |rows|
    ensures forall k :: 0 <= k < |rows| ==> fresh(results[k]) && results[k].IsListing(rows[k])
    ensures forall j, k :: 0 <= j < k < |results| ==> results[j] != results[k]
  {
    results := [];
    var i := 0;
    while i < |rows|
      invariant i <= |rows| && |results| == i
      invariant forall k :: 0 <= k < i ==> fresh(results[k]) && results[k].IsListing(rows[k])
      invariant forall j, k :: 0 <= j < k < i ==> results[j] != results[k]
    {
      var m := new Movie.FromRow(rows[i]);
      results := results + [m];
      i := i + 1;
    }
  }
}
