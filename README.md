# veehd scraper — a verified model

`main.go` is a small command-line scraper for the video site veehd.com. It
does three things, and this project models each of them:

* **Listing rows.** It loads the search listing and turns every row of
  `table.movieList` into a `Movie`. The URL is the host plus the title
  link's href. Duration, size, posted date and view count are the detail
  spans at positions 0 to 3, each empty when the span is missing.
* **Movie details.** For one movie it loads the movie's page and runs three
  regular expressions over the text of the details panel:
  `bitrate: (\d* kb/s)`, `resolution: (\d*x\d*)` and `type: (\w+)`.
  It stores each capture in place, then stores the description. The
  description is the trimmed text of the description container's direct
  text-node children only.
* **Download links.** It loads the movie's page and, for every JavaScript
  block whose text matches `"/vpi?.+do=d.+"`, builds a verification URL:
  the host plus the match with its quotes trimmed. It then classifies the
  verification page (`HandleVaPage`):
  * a page with an iframe asks for a refresh, and its `src` is the link;
  * otherwise a page with an `h2` yields the first anchor's `href`;
  * any other page is fatal.

  On a refresh the program fetches the host plus the link once, as a
  warm-up. It then classifies the same verification URL a second time and
  prints the link from that second classification, whatever its refresh
  flag says.

## How the model is built

* `strings.dfy` (`Strings`) holds the character classes of Go's `regexp`
  and `unicode` packages, prefix tests, maximal runs, and `strings.Trim` /
  `strings.TrimSpace` (`Trim`). It proves that `Trim`'s result is the unique
  slice of its input that has only trimmed characters around it and none
  at its own ends.
* `patterns.dfy` (`Patterns`) treats the four regular expressions as
  scanners, not as a general regex engine. For each pattern X:
  * `XAt(s, i)` is what the pattern captures when its match starts at `i`;
  * `IsXMatch(s, i, c)` says declaratively what a match at `i` with capture
    `c` looks like;
  * `FindX(s)` takes the leftmost start, as Go's leftmost-first matching
    does.

  The lemmas prove `XAt` equivalent to `IsXMatch`, and `FindX` equal to the
  leftmost match. For the link pattern they prove the match is the longest
  one at that start, because the greedy `.+` runs to the last suitable quote
  on the line.
* `html.dfy` (`Html`) models fetched pages as what the program's fixed
  goquery selectors return. A `Document` holds one selection per selector,
  in document order. `Text`, `Attr`, `Eq`, `Contents()` with
  `FilterFunction`, and the description rule are modelled on those
  selections.
* `site.dfy` (`Site`) models the network as a parameter,
  `Web = (seq<Request>, Request) -> Option<Document>`. A response may depend
  on every request made before it, which is what makes the warm-up
  meaningful. `Load` is a page fetch (`goquery.NewDocument`); `Ping` is
  `FetchUrl`, whose body is discarded; `None` is a transport error. Every
  `log.Fatal` and every index panic of the modelled code becomes an `Error`
  value.
* `movies.dfy` (`Movies`) models `Movie` as a class whose fields are
  updated in place:
  * `Movie.FromRow` and `ListMovies` are the row loop of `Search`;
  * `ScrapeMovie` overwrites bitrate, resolution, type and description in
    that order, and its `modifies` clause names only those four fields;
  * its result is specified by the value-level function `Scrape` and by
    `ScrapeFailure`.
* `resolver.dfy` (`Resolver`) models the download-link state machine:
  * `Classify` / `HandleVaPage` make the page decision;
  * `ResolveScript` is one script's step, as a function of the request
    history;
  * `Run` / `DownloadLinks` cover the whole loop;
  * `ResolveMatch` is the imperative loop body and `GetDownloadLink` the
    imperative loop. They record the trace of requests and the printed
    lines, and are proved equal to those functions.

  Lemmas about the functions bound the requests: at most two loads of the
  verification URL and one warm-up per matching script. They also fix the
  warm-up URL and the reload, and bound the printed lines.

### Behaviour one might expect that `main.go` does not have

The model follows `main.go`:

* rows are never skipped, so every listing row becomes a `Movie`;
* bitrate and resolution stay strings, and nothing is sorted;
* a script without a match is silently passed over, and nothing fails
  when no script matches;
* after the warm-up the second classification's link is printed even when
  that page has an iframe again: there is no refresh-loop error;
* the printed link is exactly the `href`/`src` attribute, without the
  host;
* a missing pattern leaves the fields scraped before it already
  overwritten. In the Go program that state is never observed, because the
  process dies.

## Model

| member | source | states |
|---|---|---|
| Strings.Trim | main.go:125 | strings.Trim/TrimSpace: the result is a slice of the input, with only trimmed characters cut before and after it and none left at its own ends |
| Strings.TrimUnique | main.go:110-112 | any slice with only trimmed characters around it and none at its own ends IS the trimmed result, so trimming is fully determined |
| Patterns.BitrateAtSpec | main.go:93 | a capture is found at i exactly when "bitrate: " sits at i, followed by a (possibly empty) digit run and " kb/s"; the capture is that digit run plus " kb/s" |
| Patterns.FindBitrateLeftmost | main.go:104 | extraction fails exactly when no position matches; otherwise the capture comes from a match with no match at any earlier position |
| Patterns.ResolutionAtSpec | main.go:94 | a capture is found at i exactly when "resolution: " sits at i, followed by digits, 'x' and digits (each run may be empty), with the second run maximal |
| Patterns.FindResolutionLeftmost | main.go:105 | extraction fails exactly when no position matches; otherwise the capture is taken from the leftmost match |
| Patterns.TypeAtSpec | main.go:95 | a capture is found at i exactly when "type: " sits at i, followed by a non-empty, maximal run of word characters [0-9A-Za-z_] |
| Patterns.FindTypeLeftmost | main.go:106 | extraction fails exactly when no position matches; otherwise the capture is taken from the leftmost match |
| Patterns.VpiAtLongest | main.go:92 | wherever some match of the link pattern starts, the scanner finds one there at least as long as it |
| Patterns.VpiAtSpec | main.go:92 | the scanner's result at i is exactly the longest match at i: it opens with "/vp, stays on one line, contains do=d after at least one character, and has at least one character before its closing quote |
| Patterns.FindVpiLeftmost | main.go:122 | FindString finds nothing exactly when no position matches; otherwise it returns the longest match at the leftmost matching position |
| Patterns.FindVpiShape | main.go:122 | a found match starts with "/vp, contains do=d and ends with a quote |
| Html.TextChildren | main.go:110-111 | the filter's result holds only text nodes, and no more nodes than the children it was given; a single child is kept exactly when it is a text node (with TextChildrenConcat this fixes the filter on every sequence) |
| Html.TextChildrenConcat | main.go:110-111 | the filter keeps children one by one in order: filtering a concatenation is the concatenation of the filtered parts |
| Html.Description | main.go:109-112 | the description has no leading or trailing white space |
| Html.ElementTextExcluded | main.go:110-111 | inserting an element or comment child anywhere, whatever text it contains, leaves the description unchanged |
| Html.DescriptionOfText | main.go:110-112 | for text-only children the description is their data concatenated in order, then trimmed |
| Movies.DetailText | main.go:67-71 | the i-th detail span's text, or "" when the row has fewer than i+1 spans |
| Movies.RowUrl | main.go:64-65 | the movie URL is "http://veehd.com" followed by the title link's href ("" without one) |
| Movies.Movie.FromRow | main.go:59-71 | a new Movie holds the row's title, description, URL and four detail texts, and empty technical fields |
| Movies.ListMovies | main.go:55-74 | one fresh, distinct Movie per row, in row order, none skipped, each built from its row |
| Movies.ScrapeMovie | main.go:97-112 | one page load; only bitrate, resolution, type and description may change; the failure and the new fields are those of ScrapeFailure and Scrape on the loaded page |
| Movies.ScrapeOutcome | main.go:103-112 | success exactly when all three patterns match, and then all four fields come from the page; a run that stops at a pattern has overwritten exactly the fields before it |
| Resolver.Classify | main.go:144-156 | an iframe always wins (refresh, with its src); otherwise an h2 yields the first anchor's href without refresh; a page with neither has no link |
| Resolver.HandleVaPage | main.go:138-157 | fails exactly when the page does not load (with FetchFailed for that URL) or loads with neither iframe nor h2 (with NoDownloadLink, the "Could not get download link" exit); a success returns exactly Classify's link for the loaded page |
| Resolver.VerifyUrlShape | main.go:122-125 | for every match, trimming removes exactly the opening quote and the closing run of quotes; the verification URL is the host, then "/vp", with do=d still inside |
| Resolver.Target | main.go:122-125 | a script yields a verification URL exactly when the link pattern matches its text |
| Resolver.ResolveScript | main.go:124-134 | a script without a match makes no request and prints nothing; one with a match loads its verification URL first, makes 1 to 3 requests, and prints a line exactly when it does not fail |
| Resolver.RefreshCycle | main.go:124-133 | decided by the first classification: a failure stops after one load with that error; a link without refresh is printed after one load; a refresh always sends the warm-up to the host plus the link, then fails with FetchFailed if it gets no answer, and otherwise loads the verification URL a second time and prints that classification's link whatever its refresh flag, or ends with its error |
| Resolver.WarmUpFollowsRefresh | main.go:126-129 | a warm-up happens only after a first classification that asked for a refresh, and it goes to the host plus that classification's link |
| Resolver.ReloadAfterWarmUp | main.go:128-133 | after the warm-up the same verification URL is loaded again; a successful second classification always has its link printed with no failure, whatever its refresh flag, and a failed one prints nothing and ends with its own error |
| Resolver.StepBudget | main.go:124-133 | one script makes at most 3 requests: at most 2 loads and at most 1 warm-up (none without a match) |
| Resolver.RunExtends | main.go:121-135 | the loop only appends to the request trace and to the output |
| Resolver.RunPrints | main.go:121-135 | the loop prints at most one line per matching script, and exactly one per matching script when nothing fails |
| Resolver.RunRequests | main.go:121-135 | over the loop: at most 3 requests, 2 loads and 1 warm-up per matching script |
| Resolver.DownloadLinksBounds | main.go:115-135 | GetDownloadLink first loads the movie page; after that the request and printing bounds hold, counted over the page's matching scripts |
| Resolver.ResolveMatch | main.go:124-133 | the imperative body for one match makes exactly the requests of ResolveScript, and gives the same printed link and failure |
| Resolver.GetDownloadLink | main.go:115-136 | the loop over the scripts yields exactly the trace, printed lines and failure of DownloadLinks |

## Left out

- HTTP itself (`goquery.NewDocument`, `http.Get`, closing bodies) is left out. Each fetch is one `Request` answered by the `Web` parameter.
- CSS selector matching is left out. A `Document` holds the selections the program's fixed selectors yield, and a `Row` holds those applied within one row.
- HTML parsing is left out. A description container's children come as `Node` values.
- Go strings are byte sequences; here they are character sequences. The two agree on the ASCII text the patterns inspect.
- `unicode.IsSpace` is modelled by its character list. Invalid UTF-8 is not modelled.
- `Movie.Pretty`, ANSI colours and all printing are left out. A printed download link is recorded as a line of output.
- Command-line handling (`main`, query joining and quoting) is not modelled.
- Only the row loop of `Search` is modelled (`ListMovies`). Three other parts of `Search` are left out as I/O glue:
  - loading the listing;
  - the loop that scrapes and prints every result;
  - reading the selection with `fmt.Scanf` and indexing `results`.
- Process termination (`log.Fatal`, index panics) is modelled as an `Error` result that stops the operation. The process exit itself is not modelled.
