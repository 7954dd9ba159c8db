/**
 * The remote site as the program sees it: its host, the two kinds of
 * request the program makes, and the failures that end a run.
 *
 * The network is a parameter: `Web` answers a request given every request
 * made before it, so a server whose answer changes after a warm-up request
 * (the reason for the refresh step in GetDownloadLink) is expressible.
 */
module Site {
  import opened Strings
  import opened Html

  const Host := "http://veehd.com"

  datatype Request =
    | Load(url: string)   // goquery.NewDocument: fetch and parse a page
    | Ping(url: string)   // FetchUrl: http.Get, body closed unread

  /** The response to a request, given the requests made before it; None is a transport error. */
  type Web = (seq<Request>, Request) -> Option<Document>

  /**
   * Every way the modelled operations end early. In main.go each of these
   * terminates the process: log.Fatal for a failed fetch and for a page
   * with no link, an index-out-of-range panic (indexing a nil submatch
   * slice) for a missing pattern.
   */
  datatype Error =
    | FetchFailed(url: string)
    | MissingBitrate            // BitrateRegex.FindStringSubmatch(...) is nil
    | MissingResolution         // ResolutionRegex.FindStringSubmatch(...) is nil
    | MissingType               // TypeRegex.FindStringSubmatch(...) is nil
    | NoDownloadLink            // HandleVaPage found neither an iframe nor an h2

  datatype Result<T> = Ok(value: T) | Fail(error: Error)

  /** The number of warm-up requests among `rs`. */
  function Pings(rs: seq<Request>): (n: nat)
    ensures n <= |rs|
  {
    if rs == [] then 0 else (if rs[0].Ping? then 1 else 0) + Pings(rs[1..])
  }

  /** The number of page loads among `rs`. */
  function Loads(rs: seq<Request>): (n: nat)
    ensures n <= |rs|
    ensures n + Pings(rs) == |rs|
  {
    if rs == [] then 0 else (if rs[0].Load? then 1 else 0) + Loads(rs[1..])
  }

  lemma {:induction false} CountsConcat(a: seq<Request>, b: seq<Request>)
    ensures Pings(a + b) == Pings(a) + Pings(b)
    ensures Loads(a + b) == Loads(a) + Loads(b)
  {
    if a == [] {
      assert a + b == b;
    } else {
      assert (a + b)[0] == a[0];
      assert (a + b)[1..] == a[1..] + b;
      CountsConcat(a[1..], b);
    }
  }
}
