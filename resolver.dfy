/**
 * GetDownloadLink and HandleVaPage: from a movie's page to the printed
 * download links.
 *
 * For every script on the movie's page whose text matches VpiRegex, the
 * match (quotes trimmed, host prefixed) is the verification URL. Its page
 * is classified: an iframe asks for a refresh, an h2 gives the link.
 * After a refresh the program fetches host + the iframe's src once (the
 * warm-up), classifies the verification URL a second time, and prints
 * the href it gets, whatever the second classification says about refresh.
 */
module Resolver {
  import opened Strings
  import opened Patterns
  import opened Html
  import opened Site
  import opened Movies

  /** HandleVaPage's result: the link and whether a refresh is required. */
  datatype Link = Link(href: string, refresh: bool)

  /**
   * The decision HandleVaPage makes on a loaded page. An iframe wins over
   * everything else; without one, an h2 makes the first anchor's href the
   * link; a page with neither has no link (log.Fatal).
   */
  function Classify(doc: Document): (r: Option<Link>)
    ensures (r.Some? && r.value.refresh) <==> |doc.iframes| > 0
    ensures r.None? <==> (|doc.iframes| == 0 && |doc.headings| == 0)
    ensures r.Some? && r.value.refresh ==> r.value.href == Attr(doc.iframes, "src")
    ensures r.Some? && !r.value.refresh ==> r.value.href == Attr(doc.anchors, "href")
  {
    if |doc.iframes| > 0 then Some(Link(Attr(doc.iframes, "src"), true))
    else if |doc.headings| > 0 then Some(Link(Attr(doc.anchors, "href"), false))
    else None
  }

  /** HandleVaPage(url), given the response to loading `url`. */
  function HandleVaPage(page: Option<Document>, url: string): (r: Result<Link>)
    ensures page.None? ==> r == Fail(FetchFailed(url))
    ensures page.Some? ==> (r.Fail? <==> Classify(page.value).None?)
    ensures r.Fail? ==> r.error in {FetchFailed(url), NoDownloadLink}
    ensures page.Some? && r.Fail? ==> r.error == NoDownloadLink
    ensures page.Some? && r.Ok? ==> Classify(page.value) == Some(r.value)
  {
    match page
    case None => Fail(FetchFailed(url))
    case Some(doc) =>
      match Classify(doc)
      case None => Fail(NoDownloadLink)
      case Some(link) => Ok(link)
  }

  /** The verification URL: host followed by the VpiRegex match with its quotes trimmed. */
  function VerifyUrl(vpiMatch: string): string {
    Host + Trim(vpiMatch, IsQuote)
  }

  /**
   * Trimming the quotes of a text that opens with one quote followed by a
   * non-quote removes exactly that quote at the front, and keeps every
   * non-quote character at or after index 1.
   */
  lemma TrimOpeningQuote(c: string, d: nat)
    requires 1 <= d < |c|
    requires IsQuote(c[0]) && !IsQuote(c[1]) && !IsQuote(c[d])
    ensures var r := Trim(c, IsQuote);
      d < 1 + |r| <= |c| && r == c[1..1 + |r|]
  {
  }

  /** Putting any prefix `h` before the trimmed match keeps "/vp" right after `h`, and "do=d" inside. */
  lemma PrefixedMatch(h: string, c: string, r: string, k: nat)
    requires |c| >= 4 && c[..4] == VpiOpen
    requires 1 <= k && k + 3 < 1 + |r| <= |c| && r == c[1..1 + |r|]
    requires PrefixAt(c, k, DownloadParam)
    ensures PrefixAt(h + r, 0, h + "/vp")
    ensures PrefixAt(h + r, |h| + k - 1, DownloadParam)
  {
    assert r[..3] == c[1..4] == "/vp";
    assert (h + r)[..|h| + 3] == h + r[..3];
    SliceOfSlice(c, 1, 1 + |r|, k - 1, k + 3);
    assert (h + r)[|h| + k - 1..|h| + k + 3] == r[k - 1..k + 3];
  }

  /**
   * For any text the pattern matches, trimming removes exactly the opening
   * quote and the run of quotes at the end (the "d" of "do=d" stops it), so
   * the verification URL is the host, then "/vp", with "do=d" still inside.
   */
  lemma VerifyUrlShape(c: string)
    requires IsVpiShape(c)
    ensures Trim(c, IsQuote) == c[1..1 + |Trim(c, IsQuote)|]
    ensures var u := VerifyUrl(c);
      && PrefixAt(u, 0, Host + "/vp")
      && OccursWithin(u, DownloadParam, |Host| + 3, |u|)
  {
    var k: nat :| 5 <= k && k + |DownloadParam| <= |c| - 2 && PrefixAt(c, k, DownloadParam);
    assert c[k + 3] == c[k..k + 4][3];
    TrimOpeningQuote(c, k + 3);
    var r := Trim(c, IsQuote);
    PrefixedMatch(Host, c, r, k);
  }

  /** What one script contributes: the requests it makes, the line it prints, how it fails. */
  datatype Step = Step(requests: seq<Request>, printed: Option<string>, failure: Option<Error>)

  /**
   * The verification URL of a script: None when VpiRegex does not match its
   * text (FindString returns ""), the host plus the trimmed match otherwise.
   */
  function Target(script: string): (t: Option<string>)
    ensures t.Some? <==> FindVpi(script).Some?
  {
    match FindVpi(script)
    case None => None
    case Some(m) => Some(VerifyUrl(m))
  }

  /**
   * The body of GetDownloadLink's loop for one script, given the script's
   * verification URL (None when it has no match) and the requests made
   * before it.
   */
  function ResolveScript(web: Web, history: seq<Request>, target: Option<string>): (st: Step)
    ensures target.None? ==> st == Step([], None, None)
    ensures target.Some? ==>
      && 1 <= |st.requests| <= 3
      && st.requests[0] == Load(target.value)
      && (st.printed.Some? <==> st.failure.None?)
  {
    match target
    case None => Step([], None, None)
    case Some(url) =>
      match HandleVaPage(web(history, Load(url)), url)
      case Fail(e) => Step([Load(url)], None, Some(e))
      case Ok(first) =>
        if !first.refresh then Step([Load(url)], Some(first.href), None)
        else
          var warm := Ping(Host + first.href);
          if web(history + [Load(url)], warm).None? then
            Step([Load(url), warm], None, Some(FetchFailed(Host + first.href)))
          else
            match HandleVaPage(web(history + [Load(url), warm], Load(url)), url)
            case Fail(e) => Step([Load(url), warm, Load(url)], None, Some(e))
            case Ok(second) => Step([Load(url), warm, Load(url)], Some(second.href), None)
  }

  /**
   * A warm-up happens only after a first classification that asked for a
   * refresh, and goes to the host followed by that classification's link.
   */
  lemma WarmUpFollowsRefresh(web: Web, history: seq<Request>, target: Option<string>)
    ensures var st := ResolveScript(web, history, target);
      |st.requests| >= 2 ==>
        var u := st.requests[0].url;
        var first := HandleVaPage(web(history, Load(u)), u);
        && first.Ok? && first.value.refresh
        && st.requests[1] == Ping(Host + first.value.href)
  {
  }

  /**
   * The three ways one script with verification URL `u` goes, decided by its
   * first classification: a failure stops after the one load; a link without
   * refresh is printed after the one load; a refresh always leads to the
   * warm-up, and, when the warm-up gets an answer, to a second load whose
   * link is printed whatever its refresh flag, or whose error ends the script.
   */
  lemma RefreshCycle(web: Web, history: seq<Request>, u: string)
    ensures var st := ResolveScript(web, history, Some(u));
      var first := HandleVaPage(web(history, Load(u)), u);
      && (first.Fail? ==> st == Step([Load(u)], None, Some(first.error)))
      && (first.Ok? && !first.value.refresh ==>
            st.requests == [Load(u)] && st.printed == Some(first.value.href))
      && (first.Ok? && first.value.refresh ==>
            && |st.requests| >= 2
            && st.requests[1] == Ping(Host + first.value.href)
            && (web(history + [Load(u)], st.requests[1]).None? ==>
                  st == Step([Load(u), st.requests[1]], None, Some(FetchFailed(Host + first.value.href))))
            && (web(history + [Load(u)], st.requests[1]).Some? ==>
                  var second := HandleVaPage(web(history + [Load(u), st.requests[1]], Load(u)), u);
                  && (second.Ok? ==>
                        st == Step([Load(u), st.requests[1], Load(u)], Some(second.value.href), None))
                  && (second.Fail? ==>
                        st == Step([Load(u), st.requests[1], Load(u)], None, Some(second.error)))))
  {
  }

  /**
   * After the warm-up the same verification URL is loaded once more. When
   * that second classification succeeds its link is printed, whatever its
   * refresh flag says; when it fails, its error ends the script.
   */
  lemma ReloadAfterWarmUp(web: Web, history: seq<Request>, target: Option<string>)
    ensures var st := ResolveScript(web, history, target);
      |st.requests| == 3 ==>
        && st.requests[2] == st.requests[0]
        && var u := st.requests[0].url;
           var second := HandleVaPage(web(history + st.requests[..2], Load(u)), u);
           && (second.Ok? ==> st.printed == Some(second.value.href) && st.failure.None?)
           && (second.Fail? ==> st.printed.None? && st.failure == Some(second.error))
  {
    var st := ResolveScript(web, history, target);
    if |st.requests| == 3 {
      assert st.requests[..2] == [st.requests[0], st.requests[1]];
    }
  }

  /** Everything a run produces: all requests so far, the printed lines, the failure that ended it. */
  datatype Outcome = Outcome(trace: seq<Request>, printed: seq<string>, failure: Option<Error>)

  /** The verification URLs of the scripts, in document order. */
  function Targets(scripts: seq<Element>): (ts: seq<Option<string>>)
    ensures |ts| == |scripts|
  {
    seq(|scripts|, k requires 0 <= k < |scripts| => Target(scripts[k].text))
  }

  /** The scripts' verification URLs in order, each step seeing the requests of the ones before; a failure ends the run. */
  function Run(web: Web, trace: seq<Request>, printed: seq<string>, ms: seq<Option<string>>): Outcome
    decreases |ms|
  {
    if ms == [] then Outcome(trace, printed, None)
    else
      var st := ResolveScript(web, trace, ms[0]);
      var trace' := trace + st.requests;
      var printed' := if st.printed.Some? then printed + [st.printed.value] else printed;
      if st.failure.Some? then Outcome(trace', printed', st.failure)
      else Run(web, trace', printed', ms[1..])
  }

  /** GetDownloadLink for the movie at `url`: load its page, then Run over its scripts' verification URLs. */
  function DownloadLinks(web: Web, history: seq<Request>, url: string): Outcome {
    match web(history, Load(url))
    case None => Outcome(history + [Load(url)], [], Some(FetchFailed(url)))
    case Some(doc) => Run(web, history + [Load(url)], [], Targets(doc.scripts))
  }

  /**
   * GetDownloadLink as a whole: the movie's page is loaded first; then each
   * of its matching scripts costs at most two loads and one warm-up and
   * prints at most one line, exactly one when nothing fails.
   */
  lemma DownloadLinksBounds(web: Web, history: seq<Request>, url: string)
    ensures var o := DownloadLinks(web, history, url);
      var n := if web(history, Load(url)).Some? then Matching(Targets(web(history, Load(url)).value.scripts)) else 0;
      && |history| + 1 <= |o.trace| && o.trace[..|history| + 1] == history + [Load(url)]
      && WithinBudget(o.trace[|history| + 1..], n)
      && |o.printed| <= n
      && (o.failure.None? ==> |o.printed| == n)
  {
    var start := history + [Load(url)];
    var o := DownloadLinks(web, history, url);
    if web(history, Load(url)).Some? {
      var ts := Targets(web(history, Load(url)).value.scripts);
      RunExtends(web, start, [], ts);
      RunRequests(web, start, [], ts);
      RunPrints(web, start, [], ts);
      assert o.trace[..|start|] == start;
    } else {
      assert o.trace[|start|..] == [];
    }
  }

  /** How many of the scripts have a VpiRegex match. */
  function Matching(ms: seq<Option<string>>): (n: nat)
    ensures n <= |ms|
  {
    if ms == [] then 0
    else (if ms[0].Some? then 1 else 0) + Matching(ms[1..])
  }

  /** A run only adds to the trace and to the output. */
  lemma {:induction false} RunExtends(web: Web, trace: seq<Request>, printed: seq<string>, ms: seq<Option<string>>)
    ensures var o := Run(web, trace, printed, ms);
      && |trace| <= |o.trace| && o.trace == trace + o.trace[|trace|..]
      && |printed| <= |o.printed| && o.printed == printed + o.printed[|printed|..]
    decreases |ms|
  {
    if ms != [] {
      var st := ResolveScript(web, trace, ms[0]);
      if st.failure.None? {
        var printed' := if st.printed.Some? then printed + [st.printed.value] else printed;
        RunExtends(web, trace + st.requests, printed', ms[1..]);
      }
    }
  }

  /**
   * Over a whole run: each matching script prints at most one line and the
   * others print nothing; a run that does not fail prints exactly one line
   * per matching script.
   */
  lemma {:induction false} RunPrints(web: Web, trace: seq<Request>, printed: seq<string>, ms: seq<Option<string>>)
    ensures var o := Run(web, trace, printed, ms);
      && |printed| <= |o.printed| <= |printed| + Matching(ms)
      && (o.failure.None? ==> |o.printed| == |printed| + Matching(ms))
    decreases |ms|
  {
    if ms != [] {
      var st := ResolveScript(web, trace, ms[0]);
      if st.failure.None? {
        var printed' := if st.printed.Some? then printed + [st.printed.value] else printed;
        RunPrints(web, trace + st.requests, printed', ms[1..]);
      }
    }
  }

  /** The request budget of `n` matching scripts: at most 3n requests, 2n loads and n warm-ups. */
  predicate WithinBudget(rs: seq<Request>, n: nat) {
    |rs| <= 3 * n && Loads(rs) <= 2 * n && Pings(rs) <= n
  }

  lemma BudgetConcat(a: seq<Request>, n: nat, b: seq<Request>, m: nat)
    requires WithinBudget(a, n) && WithinBudget(b, m)
    ensures WithinBudget(a + b, n + m)
  {
    CountsConcat(a, b);
  }

  /**
   * One script stays within the budget of one matching script (two loads of
   * the verification URL and one warm-up), or of none when it has no match.
   */
  lemma StepBudget(web: Web, history: seq<Request>, target: Option<string>)
    ensures WithinBudget(ResolveScript(web, history, target).requests, if target.Some? then 1 else 0)
  {
  }

  /**
   * Over a whole run: each matching script makes at most three requests, of
   * which at most two loads and at most one warm-up; the others make none.
   */
  lemma {:induction false} RunRequests(web: Web, trace: seq<Request>, printed: seq<string>, ms: seq<Option<string>>)
    ensures var o := Run(web, trace, printed, ms);
      |trace| <= |o.trace| && WithinBudget(o.trace[|trace|..], Matching(ms))
    decreases |ms|
  {
    if ms == [] {
      assert Run(web, trace, printed, ms).trace[|trace|..] == [];
    } else {
      var st := ResolveScript(web, trace, ms[0]);
      var n := if ms[0].Some? then 1 else 0;
      assert Matching(ms) == n + Matching(ms[1..]);
      StepBudget(web, trace, ms[0]);
      RunTraceStep(web, trace, printed, ms);
      if st.failure.None? {
        var printed' := if st.printed.Some? then printed + [st.printed.value] else printed;
        var o' := Run(web, trace + st.requests, printed', ms[1..]);
        RunRequests(web, trace + st.requests, printed', ms[1..]);
        BudgetConcat(st.requests, n, o'.trace[|trace + st.requests|..], Matching(ms[1..]));
      }
    }
  }

  /** The requests one step of Run adds: the first script's, then those of the rest unless it failed. */
  lemma RunTraceStep(web: Web, trace: seq<Request>, printed: seq<string>, ms: seq<Option<string>>)
    requires ms != []
    ensures var st := ResolveScript(web, trace, ms[0]);
      var o := Run(web, trace, printed, ms);
      && |trace| <= |o.trace|
      && (st.failure.Some? ==> o.trace[|trace|..] == st.requests)
      && (st.failure.None? ==>
            var printed' := if st.printed.Some? then printed + [st.printed.value] else printed;
            var o' := Run(web, trace + st.requests, printed', ms[1..]);
            |trace + st.requests| <= |o'.trace| &&
            o.trace[|trace|..] == st.requests + o'.trace[|trace + st.requests|..])
  {
    var st := ResolveScript(web, trace, ms[0]);
    var o := Run(web, trace, printed, ms);
    RunStep(web, trace, printed, ms);
    if st.failure.None? {
      var trace' := trace + st.requests;
      var printed' := if st.printed.Some? then printed + [st.printed.value] else printed;
      RunExtends(web, trace', printed', ms[1..]);
      var rest := o.trace[|trace'|..];
      assert o.trace == trace + (st.requests + rest);
    }
  }

  /** One step of Run: the first script's contribution, then the rest unless it failed. */
  lemma RunStep(web: Web, trace: seq<Request>, printed: seq<string>, ts: seq<Option<string>>)
    requires ts != []
    ensures var st := ResolveScript(web, trace, ts[0]);
      var printed' := if st.printed.Some? then printed + [st.printed.value] else printed;
      Run(web, trace, printed, ts) ==
        if st.failure.Some? then Outcome(trace + st.requests, printed', st.failure)
        else Run(web, trace + st.requests, printed', ts[1..])
  {
  }

  /**
   * The body of GetDownloadLink's loop once a script has yielded the
   * verification URL `url`: the requests it makes after `trace`, the link
   * it prints and the failure that stops the run.
   */
  method ResolveMatch(web: Web, trace: seq<Request>, url: string)
    returns (requests: seq<Request>, link: Option<string>, failure: Option<Error>)
    ensures Step(requests, link, failure) == ResolveScript(web, trace, Some(url))
  {
    var first := HandleVaPage(web(trace, Load(url)), url);
    requests := [Load(url)];
    if first.Fail? {
      return requests, None, Some(first.error);
    }
    var href := first.value.href;
    if first.value.refresh {
      var warm := Host + href;
      var response := web(trace + requests, Ping(warm));
      requests := requests + [Ping(warm)];
      assert requests == [Load(url), Ping(warm)];
      if response.None? {
        return requests, None, Some(FetchFailed(warm));
      }
      var second := HandleVaPage(web(trace + requests, Load(url)), url);
      requests := requests + [Load(url)];
      if second.Fail? {
        return requests, None, Some(second.error);
      }
      href := second.value.href;
    }
    return requests, Some(href), None;
  }

  /**
   * GetDownloadLink: load the movie's page, then for each script with a
   * VpiRegex match classify the verification page, refresh at most once,
   * and print the link. Returns the trace of requests (`history` followed
   * by those this call makes), the printed lines, and the failure that
   * stopped the run, if any.
   */
  method GetDownloadLink(m: Movie, web: Web, history: seq<Request>)
    returns (trace: seq<Request>, printed: seq<string>, failure: Option<Error>)
    ensures Outcome(trace, printed, failure) == DownloadLinks(web, history, m.url)
  {
    trace := history + [Load(m.url)];
    printed := [];
    var page := web(history, Load(m.url));
    if page.None? {
      return trace, printed, Some(FetchFailed(m.url));
    }
    var scripts := page.value.scripts;
    ghost var ts := Targets(scripts);
    var i := 0;
    while i < |scripts|
      invariant i <= |scripts|
      invariant Run(web, trace, printed, ts[i..]) == DownloadLinks(web, history, m.url)
    {
      ghost var rest := ts[i..];
      assert rest[0] == ts[i] == Target(scripts[i].text);
      assert rest[1..] == ts[i + 1..];
      RunStep(web, trace, printed, rest);
      var vpiMatch := FindVpi(scripts[i].text);
      if vpiMatch.Some? {
        var url := VerifyUrl(vpiMatch.value);
        var requests, link, stop := ResolveMatch(web, trace, url);
        trace := trace + requests;
        if link.Some? {
          printed := printed + [link.value];
        }
        if stop.Some? {
          return trace, printed, stop;
        }
      } else {
        assert trace + [] == trace;
      }
      i := i + 1;
    }
    failure := None;
  }
}
