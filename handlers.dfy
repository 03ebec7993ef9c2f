/**
 * Request dispatch of `YouTubeHandler` in both servers: the downloader
 * (youtube_downloader_video.py) serves `/` and `/download`, the splitter
 * (youtube_downloader_test.py) serves `/`, `/split` and `/segment`; both
 * answer a POST only to `/fetch`. The handler bodies (the downloads, the
 * transcoding, the file streaming) are outside this module: a route says
 * which handler runs and with which arguments.
 */
module Handlers {
  import opened Text
  import opened Paths
  import opened PercentEncoding
  import opened UrlParsing
  import opened SegmentPlan
  import opened SegmentFiles
  import opened Segmenter

  /** The two servers of the repository. */
  datatype Server = Downloader | Splitter

  /** What `do_GET` does with a request: which page or handler, with its decoded arguments. */
  datatype GetRoute =
    | Index
    | Download(url: string, resolution: string)
    | Split(url: string, resolution: string, orientation: string)
    | Segment(path: string)
    | NotFound

  /** What `do_POST` does with a request. */
  datatype PostRoute = Fetch | PostNotFound

  /** The paths `do_GET` answers without a 404. */
  function ServedPaths(server: Server): set<string> {
    match server
    case Downloader => {"/", "/download"}
    case Splitter => {"/", "/split", "/segment"}
  }

  /**
   * `do_POST` compares `self.path`, the request target as the server hands
   * it over (query string included), with `/fetch`.
   */
  function RoutePost(rawPath: string): PostRoute {
    if rawPath == "/fetch" then Fetch else PostNotFound
  }

  /**
   * The argument `name` of the query: the first value `parse_qs` gave for it,
   * or `default`; with `twice`, passed through `unquote` once more, as the
   * handlers do with every argument except `orientation`.
   */
  function Arg(params: map<string, seq<string>>, name: string, default: string, twice: bool): string {
    var v := GetFirst(params, name, default);
    if twice then Unquote(v) else v
  }

  /** The `if p.path == ...` chain of `do_GET` on the parsed path and query arguments. */
  function Route(server: Server, path: string, params: map<string, seq<string>>, twice: bool): GetRoute {
    if path == "/" then Index
    else if server == Downloader && path == "/download" then
      Download(Arg(params, "url", "", twice), Arg(params, "resolution", "", twice))
    else if server == Splitter && path == "/split" then
      Split(Arg(params, "url", "", twice), Arg(params, "resolution", "", twice),
            GetFirst(params, "orientation", "vertical"))
    else if server == Splitter && path == "/segment" then
      Segment(Arg(params, "path", "", twice))
    else NotFound
  }

  /** `do_GET` on `self.path`: `urlparse`, then the `if` chain on its path and `parse_qs` of its query. */
  function Dispatch(server: Server, rawPath: string, twice: bool): GetRoute {
    var p := UrlParse(rawPath);
    Route(server, p.path, ParseQs(p.query), twice)
  }

  /** `do_GET` as written: `parse_qs` decodes each value and the handler unquotes it a second time. */
  function RouteGet(server: Server, rawPath: string): GetRoute {
    Dispatch(server, rawPath, true)
  }

  /** `do_GET` with each argument decoded once, by `parse_qs` alone. */
  function RouteGetDecodedOnce(server: Server, rawPath: string): GetRoute {
    Dispatch(server, rawPath, false)
  }

  // ---------------------------------------------------------------- the /split listing

  /** One entry of the JSON list `/split` answers with. */
  datatype Item = Item(name: string, url: string)

  /** `http://<address>:<port>`, the prefix of every segment link. */
  function Host(address: string, port: int): string {
    "http://" + address + ":" + IntToString(port)
  }

  /** The request target of the link to a segment file. */
  function SegmentLink(s: string): string {
    "/segment?" + SegmentQuery(s)
  }

  /** The query of a segment link: the quoted path as the `path` argument. */
  function SegmentQuery(s: string): string {
    "path=" + Quote(s)
  }

  /** The list comprehension over the segment paths in the `/split` handler. */
  function SplitItems(host: string, segs: seq<string>): (items: seq<Item>)
    ensures |items| == |segs|
  {
    seq(|segs|, i requires 0 <= i < |segs| => Item(BaseName(segs[i]), host + SegmentLink(segs[i])))
  }

  /** Item `k` describes path `k`. */
  lemma SplitItemAt(host: string, segs: seq<string>, k: nat)
    requires k < |segs|
    ensures SplitItems(host, segs)[k] == Item(BaseName(segs[k]), host + SegmentLink(segs[k]))
  {
  }

  // ---------------------------------------------------------------- routing lemmas

  /** A GET reaches a branch of the `if` chain exactly when its parsed path is one the server serves. */
  lemma ServedExactly(server: Server, path: string, params: map<string, seq<string>>, twice: bool)
    ensures Route(server, path, params, twice) != NotFound <==> path in ServedPaths(server)
  {
  }

  /**
   * Whether `do_GET` ends in `send_error(404)`: a path no branch serves, or a
   * `/segment` file that does not exist. `existing` stands for the files
   * `os.path.exists` finds; the other branches answer 200, or 400 when the
   * handler raises.
   */
  predicate Answers404(route: GetRoute, existing: set<string>) {
    route.NotFound? || (route.Segment? && route.path !in existing)
  }

  /** A GET gets a 404 exactly on a path the server does not serve, or on `/segment` for a missing file. */
  lemma NotFoundExactly(server: Server, path: string, params: map<string, seq<string>>, twice: bool, existing: set<string>)
    ensures Answers404(Route(server, path, params, twice), existing) <==>
      path !in ServedPaths(server)
      || (server == Splitter && path == "/segment" && Arg(params, "path", "", twice) !in existing)
  {
    ServedExactly(server, path, params, twice);
  }

  /** A browser's request target reaches the dispatch chain with its own path and query. */
  lemma DispatchOfPlainTarget(server: Server, p: string, q: string, twice: bool)
    requires IsPlainPath(p) && IsPlainQuery(q)
    ensures Dispatch(server, p + "?" + q, twice) == Route(server, p, ParseQs(q), twice)
  {
    UrlParseOfPlainTarget(p, q);
  }

  /** A request target without a query reaches the dispatch chain with an empty query. */
  lemma DispatchOfPlainPath(server: Server, p: string, twice: bool)
    requires IsPlainPath(p)
    ensures Dispatch(server, p, twice) == Route(server, p, ParseQs(""), twice)
  {
    UrlParseOfPlainPath(p);
  }

  lemma DispatchOfRootTarget(server: Server, q: string, twice: bool)
    requires IsPlainQuery(q)
    ensures Dispatch(server, "/?" + q, twice) == Route(server, "/", ParseQs(q), twice)
  {
    assert IsPlainPath("/");
    assert "/" + "?" + q == "/?" + q by {
      assert "/" + "?" == "/?";
    }
    DispatchOfPlainTarget(server, "/", q, twice);
  }

  /** The index page is served at `/`, with or without a query, on both servers. */
  lemma IndexAtRoot(server: Server, q: string)
    requires IsPlainQuery(q)
    ensures RouteGet(server, "/") == Index && RouteGet(server, "/?" + q) == Index
  {
    DispatchOfPlainPath(server, "/", true);
    DispatchOfRootTarget(server, q, true);
  }

  /** A query string sends a POST to `/fetch` to the 404 page. */
  lemma FetchTakesNoQuery(q: string)
    ensures RoutePost("/fetch") == Fetch
    ensures RoutePost("/fetch?" + q) == PostNotFound
  {
    assert |"/fetch?" + q| > |"/fetch"|;
  }

  /** `;parameters` after the last path segment are split off by `urlparse` and play no part in routing. */
  lemma ParametersIgnored(server: Server, p: string, x: string)
    requires IsPlainPath(p) && IsPlainParams(x)
    ensures RouteGet(server, p + ";" + x) == RouteGet(server, p)
  {
    UrlParseOfParams(p, x);
    UrlParseOfPlainPath(p);
  }

  /** The download route takes the first `url` and `resolution` values given, or empty strings. */
  lemma DownloadArguments(p: string, q: string)
    requires IsPlainPath(p) && IsPlainQuery(q)
    ensures var pairs := ParseQsl(q);
      var url := ValuesOf(pairs, "url");
      var res := ValuesOf(pairs, "resolution");
      RouteGet(Downloader, p + "?" + q) ==
        if p == "/" then Index
        else if p == "/download" then
          Download(Unquote(if |url| > 0 then url[0] else ""), Unquote(if |res| > 0 then res[0] else ""))
        else NotFound
  {
    DispatchOfPlainTarget(Downloader, p, q, true);
    GetFirstIsFirstValue(q, "url", "");
    GetFirstIsFirstValue(q, "resolution", "");
  }

  /** `/split` passes the first `orientation` value as it is, and `vertical` when there is none. */
  lemma SplitRoute(params: map<string, seq<string>>, twice: bool)
    ensures Route(Splitter, "/split", params, twice)
      == Split(Arg(params, "url", "", twice), Arg(params, "resolution", "", twice),
               if "orientation" in params && |params["orientation"]| > 0 then params["orientation"][0] else "vertical")
  {
  }

  lemma DispatchOfSplitTarget(q: string, twice: bool)
    requires IsPlainQuery(q)
    ensures Dispatch(Splitter, "/split?" + q, twice) == Route(Splitter, "/split", ParseQs(q), twice)
  {
    assert IsPlainPath("/split");
    assert "/split" + "?" + q == "/split?" + q by {
      assert "/split" + "?" == "/split?";
    }
    DispatchOfPlainTarget(Splitter, "/split", q, twice);
  }

  /** Without an `orientation` field, `/split` asks for the vertical cut. */
  lemma SplitDefaultsToVertical(q: string)
    requires IsPlainQuery(q)
    requires |ValuesOf(ParseQsl(q), "orientation")| == 0
    ensures RouteGet(Splitter, "/split?" + q).Split?
    ensures RouteGet(Splitter, "/split?" + q).orientation == "vertical"
  {
    DispatchOfSplitTarget(q, true);
    SplitRoute(ParseQs(q), true);
    CollectHoldsValues(ParseQsl(q), "orientation");
  }

  /** The two decodings agree whenever the decoded arguments hold no `%`. */
  lemma DecodingsAgreeWithoutPercent(server: Server, path: string, params: map<string, seq<string>>)
    requires forall name :: name in params && |params[name]| > 0 ==> Find(params[name][0], '%') < 0
    ensures Route(server, path, params, true) == Route(server, path, params, false)
  {
  }

  // ---------------------------------------------------------------- segment links

  /**
   * `quote` writes no `&`, `#`, space or control character, so the segment
   * query is plain, and no `+` or `=` inside the quoted path.
   */
  lemma SegmentQueryIsPlain(s: string)
    ensures IsPlainQuery(SegmentQuery(s))
    ensures forall i :: 0 <= i < |SegmentQuery(s)| ==> SegmentQuery(s)[i] != '&' && !IsC0OrSpace(SegmentQuery(s)[i])
    ensures forall i :: 0 <= i < |Quote(s)| ==> Quote(s)[i] != '+' && Quote(s)[i] != '='
  {
    var q := Quote(s);
    var x := SegmentQuery(s);
    forall i | 0 <= i < |x|
      ensures x[i] != '#' && !IsUnsafeUrlChar(x[i]) && x[i] != '&' && !IsC0OrSpace(x[i])
    {
      if i >= 5 {
        assert x[i] == q[i - 5];
      }
    }
  }

  /** The one field of a segment query decodes to the name `path` and the segment path. */
  lemma SegmentField(s: string)
    requires s != ""
    ensures QsField(SegmentQuery(s)) == [("path", s)]
  {
    var q := Quote(s);
    var x := SegmentQuery(s);
    SegmentQueryIsPlain(s);
    assert |Utf8Encode(s)| >= |s| > 0;
    assert x == "path" + "=" + q;
    FindAfterPrefix("path", '=', q);
    assert x[..4] == "path" && x[5..] == q;
    assert ReplaceChar("path", '+', ' ') == "path";
    assert ReplaceChar(q, '+', ' ') == q;
    assert Find("path", '%') < 0;
    UnquoteOfQuote(s);
  }

  /** The query of the link to an empty path is the blank field `path=`, which `parse_qs` drops. */
  lemma EmptySegmentField()
    ensures QsField(SegmentQuery("")) == []
  {
    assert Quote("") == "";
    assert SegmentQuery("") == "path" + "=" + "";
    FindAfterPrefix("path", '=', "");
  }

  /** `parse_qs` of a segment link's query gives the segment path back, once decoded. */
  lemma ParseSegmentQuery(s: string)
    ensures s != "" ==> ParseQsl(SegmentQuery(s)) == [("path", s)]
    ensures GetFirst(ParseQs(SegmentQuery(s)), "path", "") == s
  {
    var x := SegmentQuery(s);
    SegmentQueryIsPlain(s);
    FindAbsent(x, '&');
    assert SplitOn(x, '&') == [x];
    assert QsFields([x]) == QsField(x) + QsFields([]);
    if s == "" {
      EmptySegmentField();
    } else {
      SegmentField(s);
      CollectHoldsValues([("path", s)], "path");
    }
  }

  /** A segment link reaches the dispatch chain as `/segment` with its own query. */
  lemma DispatchOfSegmentLink(s: string, twice: bool)
    ensures Dispatch(Splitter, SegmentLink(s), twice) == Route(Splitter, "/segment", ParseQs(SegmentQuery(s)), twice)
  {
    SegmentQueryIsPlain(s);
    assert IsPlainPath("/segment");
    assert "/segment" + "?" + SegmentQuery(s) == SegmentLink(s) by {
      assert "/segment" + "?" == "/segment?";
    }
    DispatchOfPlainTarget(Splitter, "/segment", SegmentQuery(s), twice);
  }

  /** `/segment` serves the file named by its `path` argument. */
  lemma SegmentRoute(params: map<string, seq<string>>, twice: bool)
    ensures Route(Splitter, "/segment", params, twice) == Segment(Arg(params, "path", "", twice))
  {
  }

  /** With a single decoding, following a `/split` link serves exactly the listed segment file. */
  lemma SegmentLinkRoutesBack(s: string)
    ensures RouteGetDecodedOnce(Splitter, SegmentLink(s)) == Segment(s)
  {
    DispatchOfSegmentLink(s, false);
    SegmentRoute(ParseQs(SegmentQuery(s)), false);
    ParseSegmentQuery(s);
  }

  /** As written, following a `/split` link serves the segment path unquoted a second time. */
  lemma SegmentLinkDecodedTwice(s: string)
    ensures RouteGet(Splitter, SegmentLink(s)) == Segment(Unquote(s))
  {
    DispatchOfSegmentLink(s, true);
    SegmentRoute(ParseQs(SegmentQuery(s)), true);
    ParseSegmentQuery(s);
  }

  lemma PercentPathParts()
    ensures IsPlainAscii("/d") && IsPlainAscii("/v.mp4") && IsHexChar('4') && IsHexChar('1')
    ensures HexValue('4') == 4 && HexValue('1') == 1
    ensures "/d" + ['%', '4', '1'] + "/v.mp4" == "/d%41/v.mp4"
    ensures "/d" + [65 as char] + "/v.mp4" == "/dA/v.mp4"
  {
  }

  /** `unquote` reads the `%41` in a directory name as `A`. */
  lemma UnquotePercentPath()
    ensures Unquote("/d%41/v.mp4") == "/dA/v.mp4"
  {
    PercentPathParts();
    UnquoteOfEscape("/d", '4', '1', "/v.mp4");
  }

  /** A segment stored under a directory whose name holds `%41` is looked up under `A` instead. */
  lemma SegmentLinkMissesPercentPath()
    ensures RouteGet(Splitter, SegmentLink("/d%41/v.mp4")) == Segment("/dA/v.mp4")
  {
    UnquotePercentPath();
    SegmentLinkDecodedTwice("/d%41/v.mp4");
  }

  /**
   * The `/split` listing: one item per segment in segment order, named by
   * the segment's file name, linking to a target that (decoded once) serves
   * that very file.
   */
  lemma SplitItemsDescribeSegments(address: string, port: int, downloadDir: string, filepath: string, d: real, k: nat)
    requires k < NumSegs(d)
    ensures var items := SplitItems(Host(address, port), SegmentPaths(downloadDir, filepath, d, NumSegs(d)));
      |items| == NumSegs(d)
      && items[k].name == SegmentName(BaseOf(filepath), SegStart(d, k), SegEnd(d, k))
      && items[k].url == Host(address, port) + SegmentLink(SegmentPath(downloadDir, filepath, d, k))
      && RouteGetDecodedOnce(Splitter, SegmentLink(SegmentPath(downloadDir, filepath, d, k)))
           == Segment(SegmentPath(downloadDir, filepath, d, k))
  {
    var segs := SegmentPaths(downloadDir, filepath, d, NumSegs(d));
    SegmentPathsAt(downloadDir, filepath, d, NumSegs(d), k);
    SplitItemAt(Host(address, port), segs, k);
    var name := SegmentName(BaseOf(filepath), SegStart(d, k), SegEnd(d, k));
    SegmentNameNoSlash(BaseOf(filepath), SegStart(d, k), SegEnd(d, k));
    BaseNameOfJoin(downloadDir, name);
    assert |PathJoin(downloadDir, name)| > 0;
    SegmentLinkRoutesBack(SegmentPath(downloadDir, filepath, d, k));
  }
}
