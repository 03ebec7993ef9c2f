/**
 * The two `urllib.parse` functions the handlers call on a request target:
 * `urlparse` (scheme, network location, path, parameters, query, fragment)
 * and `parse_qs` (the query as a dictionary from names to lists of values),
 * both with their default arguments, as CPython 3.12 implements them.
 */
module UrlParsing {
  import opened Text
  import opened PercentEncoding

  // ---------------------------------------------------------------- small string helpers

  /** `s.replace(a, b)` for single characters. */
  function ReplaceChar(s: string, a: char, b: char): (r: string)
    ensures |r| == |s|
    ensures forall i :: 0 <= i < |s| ==> r[i] == if s[i] == a then b else s[i]
  {
    seq(|s|, i requires 0 <= i < |s| => if s[i] == a then b else s[i])
  }

  function ToLowerChar(c: char): char {
    if 'A' <= c <= 'Z' then (c as int + 32) as char else c
  }

  /** `s.lower()` on the scheme, which holds only ASCII characters. */
  function ToLower(s: string): (r: string)
    ensures |r| == |s|
  {
    seq(|s|, i requires 0 <= i < |s| => ToLowerChar(s[i]))
  }

  /** Index of the first character of `s` in `cs` at or after `from`, or `|s|`. */
  function FirstOf(s: string, cs: set<char>, from: nat): (k: nat)
    requires from <= |s|
    ensures from <= k <= |s|
    ensures k < |s| ==> s[k] in cs
    ensures forall i :: from <= i < k ==> s[i] !in cs
    decreases |s| - from
  {
    if from == |s| || s[from] in cs then from else FirstOf(s, cs, from + 1)
  }

  // ---------------------------------------------------------------- urlparse

  datatype ParsedUrl = ParsedUrl(scheme: string, netloc: string, path: string, params: string,
                                 query: string, fragment: string)

  /** `_WHATWG_C0_CONTROL_OR_SPACE`: stripped from the front of the URL. */
  predicate IsC0OrSpace(c: char) { c as int <= 0x20 }

  function LStripC0(s: string): (r: string)
    ensures r <= s || (|r| <= |s| && r == s[|s| - |r|..])
    ensures |r| > 0 ==> !IsC0OrSpace(r[0])
    decreases |s|
  {
    if |s| > 0 && IsC0OrSpace(s[0]) then LStripC0(s[1..]) else s
  }

  /** `_UNSAFE_URL_BYTES_TO_REMOVE`: tab, carriage return and line feed are deleted anywhere. */
  predicate IsUnsafeUrlChar(c: char) { c == '\t' || c == '\r' || c == '\n' }

  function RemoveUnsafe(s: string): (r: string)
    ensures forall i :: 0 <= i < |r| ==> !IsUnsafeUrlChar(r[i])
    decreases |s|
  {
    if |s| == 0 then ""
    else if IsUnsafeUrlChar(s[0]) then RemoveUnsafe(s[1..])
    else [s[0]] + RemoveUnsafe(s[1..])
  }

  predicate IsSchemeChar(c: char) { IsAsciiLetter(c) || IsDigit(c) || c == '+' || c == '-' || c == '.' }

  /** The schemes whose last path segment may carry `;parameters` (`uses_params`). */
  const UsesParams: set<string> := {"", "ftp", "hdl", "prospero", "http", "imap", "https", "shttp",
                                    "rtsp", "rtsps", "rtspu", "sip", "sips", "mms", "sftp", "tel"}

  /** The scheme and the rest: a scheme is a letter then scheme characters up to the first `:`. */
  function SplitScheme(url: string): (string, string) {
    var i := Find(url, ':');
    if i > 0 && IsAsciiLetter(url[0]) && forall j :: 0 <= j < i ==> IsSchemeChar(url[j]) then
      (ToLower(url[..i]), url[i + 1..])
    else ("", url)
  }

  /** `_splitnetloc(url, 2)` when the URL starts with `//`: the authority runs to the first `/`, `?` or `#`. */
  function SplitNetloc(url: string): (string, string) {
    if |url| >= 2 && url[..2] == "//" then
      var delim := FirstOf(url, {'/', '?', '#'}, 2);
      (url[2..delim], url[delim..])
    else ("", url)
  }

  /** `s.split(c, 1)` when `c` occurs; `(s, "")` when it does not. */
  function SplitFirst(s: string, c: char): (string, string) {
    var k := Find(s, c);
    if k < 0 then (s, "") else (s[..k], s[k + 1..])
  }

  /** `_splitparams`: the parameters start at the first `;` of the last path segment. */
  function SplitParams(path: string): (string, string) {
    var slash := RFind(path, '/');
    var i := if slash >= 0 then (var k := Find(path[slash..], ';'); if k < 0 then -1 else slash + k)
             else Find(path, ';');
    if i < 0 then (path, "") else (path[..i], path[i + 1..])
  }

  /** `urlparse(url)`. IPv6 bracket validation of the network location is not modelled. */
  function UrlParse(raw: string): ParsedUrl {
    var url0 := RemoveUnsafe(LStripC0(raw));
    var (scheme, url1) := SplitScheme(url0);
    var (netloc, url2) := SplitNetloc(url1);
    var (url3, fragment) := SplitFirst(url2, '#');
    var (path0, query) := SplitFirst(url3, '?');
    var (path, params) := if scheme in UsesParams && Find(path0, ';') >= 0 then SplitParams(path0) else (path0, "");
    ParsedUrl(scheme, netloc, path, params, query, fragment)
  }

  /**
   * The form a browser sends: a path starting with a single `/`, free of
   * `?`, `#`, `;` and control characters, then optionally `?` and a query
   * free of `#` and control characters. `urlparse` hands back exactly the two
   * parts.
   */
  predicate IsPlainPath(p: string) {
    |p| >= 1 && p[0] == '/' && (|p| == 1 || p[1] != '/')
    && forall i :: 0 <= i < |p| ==> p[i] != '?' && p[i] != '#' && p[i] != ';' && !IsC0OrSpace(p[i])
  }

  predicate IsPlainQuery(q: string) {
    forall i :: 0 <= i < |q| ==> q[i] != '#' && !IsUnsafeUrlChar(q[i])
  }

  lemma {:induction false} RemoveUnsafeOfSafe(s: string)
    requires forall i :: 0 <= i < |s| ==> !IsUnsafeUrlChar(s[i])
    ensures RemoveUnsafe(s) == s
    decreases |s|
  {
    if |s| > 0 {
      RemoveUnsafeOfSafe(s[1..]);
      assert s == [s[0]] + s[1..];
    }
  }

  /** The characters of `p + "?" + q` are those of `p`, the `?` and those of `q`. */
  lemma TargetChars(p: string, q: string)
    requires IsPlainPath(p) && IsPlainQuery(q)
    ensures var s := p + "?" + q;
      forall i :: 0 <= i < |s| ==> s[i] != '#' && !IsUnsafeUrlChar(s[i])
  {
    var s := p + "?" + q;
    forall i | 0 <= i < |s|
      ensures s[i] != '#' && !IsUnsafeUrlChar(s[i])
    {
      if i < |p| {
        assert s[i] == p[i];
      } else if i > |p| {
        assert s[i] == q[i - |p| - 1];
      }
    }
  }

  /** Neither a scheme nor a network location is found in a target that starts with a single `/`. */
  lemma NoSchemeNoNetloc(s: string)
    requires |s| >= 2 && s[0] == '/' && s[1] != '/'
    ensures SplitScheme(s) == ("", s) && SplitNetloc(s) == ("", s)
  {
    assert s[..2][1] == s[1];
  }

  /** The form a browser sends: `urlparse` splits it into exactly its path and query. */
  lemma UrlParseOfPlainTarget(p: string, q: string)
    requires IsPlainPath(p) && IsPlainQuery(q)
    ensures UrlParse(p + "?" + q) == ParsedUrl("", "", p, "", q, "")
  {
    var s := p + "?" + q;
    TargetChars(p, q);
    RemoveUnsafeOfSafe(s);
    assert !IsC0OrSpace(s[0]);
    assert LStripC0(s) == s;
    assert s[1] != '/' by {
      if |p| == 1 { assert s[1] == '?'; } else { assert s[1] == p[1]; }
    }
    NoSchemeNoNetloc(s);
    FindAbsent(s, '#');
    FindAfterPrefix(p, '?', q);
    assert s[..|p|] == p && s[|p| + 1..] == q;
    FindAbsent(p, ';');
  }

  /** A target without a query: the path is the whole target and the query is empty. */
  lemma UrlParseOfPlainPath(p: string)
    requires IsPlainPath(p)
    ensures UrlParse(p) == ParsedUrl("", "", p, "", "", "")
  {
    RemoveUnsafeOfSafe(p);
    assert LStripC0(p) == p;
    assert SplitScheme(p) == ("", p);
    assert |p| < 2 || p[..2] != "//" by {
      if |p| >= 2 { assert p[..2][1] == p[1]; }
    }
    FindAbsent(p, '#');
    FindAbsent(p, '?');
    FindAbsent(p, ';');
  }

  /** Parameter text: no `/`, `?`, `#` or character `urlparse` deletes. */
  predicate IsPlainParams(x: string) {
    forall i :: 0 <= i < |x| ==> x[i] != '/' && x[i] != '?' && x[i] != '#' && !IsUnsafeUrlChar(x[i])
  }

  lemma {:induction false} RFindPastAbsent(a: string, b: string, c: char)
    requires forall i :: 0 <= i < |b| ==> b[i] != c
    ensures RFind(a + b, c) == RFind(a, c)
    decreases |b|
  {
    if |b| == 0 {
      assert a + b == a;
    } else {
      var b' := b[..|b| - 1];
      assert (a + b)[..|a + b| - 1] == a + b';
      RFindPastAbsent(a, b', c);
    }
  }

  /** The parameters start at the `;` that ends a plain path. */
  /** In `p;x` the last `/` is the last one of `p`, and the first `;` after it ends `p`. */
  lemma LastSegmentOfParams(p: string, x: string)
    requires IsPlainPath(p) && IsPlainParams(x)
    ensures var s := p + ";" + x;
      var slash := RFind(s, '/');
      0 <= slash < |p| && Find(s[slash..], ';') == |p| - slash
  {
    var s := p + ";" + x;
    var tail := ";" + x;
    assert s == p + tail;
    assert forall i :: 0 <= i < |x| ==> tail[i + 1] == x[i];
    RFindPastAbsent(p, tail, '/');
    var slash := RFind(p, '/');
    assert p[0] == '/';
    assert s[slash..] == p[slash..] + [';'] + x;
    assert forall i :: 0 <= i < |p| - slash ==> p[slash..][i] == p[slash + i];
    FindAfterPrefix(p[slash..], ';', x);
  }

  lemma SplitParamsAfterPath(p: string, x: string)
    requires IsPlainPath(p) && IsPlainParams(x)
    ensures SplitParams(p + ";" + x) == (p, x)
  {
    var s := p + ";" + x;
    LastSegmentOfParams(p, x);
    assert s[..|p|] == p && s[|p| + 1..] == x;
  }

  /** A path with `;parameters`: `urlparse` splits the parameters off and leaves the path alone. */
  lemma UrlParseOfParams(p: string, x: string)
    requires IsPlainPath(p) && IsPlainParams(x)
    ensures UrlParse(p + ";" + x) == ParsedUrl("", "", p, x, "", "")
  {
    var s := p + ";" + x;
    assert forall i :: 0 <= i < |s| ==> s[i] != '#' && s[i] != '?' && !IsUnsafeUrlChar(s[i]) by {
      assert forall i :: 0 <= i < |p| ==> s[i] == p[i];
      assert forall i :: 0 <= i < |x| ==> s[|p| + 1 + i] == x[i];
    }
    RemoveUnsafeOfSafe(s);
    assert LStripC0(s) == s;
    assert s[1] != '/' by {
      if |p| == 1 { assert s[1] == ';'; } else { assert s[1] == p[1]; }
    }
    NoSchemeNoNetloc(s);
    FindAbsent(s, '#');
    FindAbsent(s, '?');
    FindAfterPrefix(p, ';', x);
    SplitParamsAfterPath(p, x);
  }

  // ---------------------------------------------------------------- parse_qs

  /**
   * One `name=value` field of `parse_qsl` with blank values dropped: nothing
   * for an empty field, a field without `=` or an empty value; otherwise the
   * name and value with `+` read as a space, then unquoted.
   */
  function QsField(f: string): seq<(string, string)> {
    var k := Find(f, '=');
    if |f| == 0 || k < 0 || k == |f| - 1 then []
    else [(Unquote(ReplaceChar(f[..k], '+', ' ')), Unquote(ReplaceChar(f[k + 1..], '+', ' ')))]
  }

  function QsFields(fields: seq<string>): seq<(string, string)> {
    if |fields| == 0 then [] else QsField(fields[0]) + QsFields(fields[1..])
  }

  /** `parse_qsl(qs)`: the fields between `&`s, in order. */
  function ParseQsl(qs: string): seq<(string, string)> {
    if |qs| == 0 then [] else QsFields(SplitOn(qs, '&'))
  }

  /** The values given for `name`, in order. */
  function ValuesOf(pairs: seq<(string, string)>, name: string): seq<string> {
    if |pairs| == 0 then []
    else (if pairs[0].0 == name then [pairs[0].1] else []) + ValuesOf(pairs[1..], name)
  }

  /** The loop of `parse_qs`: append each value to its name's list, creating the list on first sight. */
  function Collect(pairs: seq<(string, string)>): (m: map<string, seq<string>>)
    ensures forall name :: name in m ==> |m[name]| > 0
  {
    if |pairs| == 0 then map[]
    else
      var m := Collect(pairs[..|pairs| - 1]);
      var (name, value) := pairs[|pairs| - 1];
      m[name := (if name in m then m[name] else []) + [value]]
  }

  /** `parse_qs(qs)`. */
  function ParseQs(qs: string): map<string, seq<string>> {
    Collect(ParseQsl(qs))
  }

  /** `params.get(name, [default])[0]`. */
  function GetFirst(params: map<string, seq<string>>, name: string, default: string): string {
    if name in params && |params[name]| > 0 then params[name][0] else default
  }

  lemma {:induction false} ValuesOfAppend(pairs: seq<(string, string)>, last: (string, string), name: string)
    ensures ValuesOf(pairs + [last], name) == ValuesOf(pairs, name) + (if last.0 == name then [last.1] else [])
    decreases |pairs|
  {
    if |pairs| == 0 {
      assert [last][1..] == [];
    } else {
      var h := if pairs[0].0 == name then [pairs[0].1] else [];
      var t := if last.0 == name then [last.1] else [];
      assert (pairs + [last])[0] == pairs[0];
      assert (pairs + [last])[1..] == pairs[1..] + [last];
      assert ValuesOf(pairs + [last], name) == h + ValuesOf(pairs[1..] + [last], name);
      ValuesOfAppend(pairs[1..], last, name);
      assert h + (ValuesOf(pairs[1..], name) + t) == (h + ValuesOf(pairs[1..], name)) + t;
    }
  }

  /** The dictionary `parse_qs` builds holds, for each name seen, every value given for it, in order. */
  lemma {:induction false} CollectHoldsValues(pairs: seq<(string, string)>, name: string)
    ensures name in Collect(pairs) <==> |ValuesOf(pairs, name)| > 0
    ensures name in Collect(pairs) ==> Collect(pairs)[name] == ValuesOf(pairs, name)
    decreases |pairs|
  {
    if |pairs| > 0 {
      var prefix := pairs[..|pairs| - 1];
      var last := pairs[|pairs| - 1];
      assert pairs == prefix + [last];
      CollectHoldsValues(prefix, name);
      ValuesOfAppend(prefix, last, name);
    }
  }

  /** `parse_qs(qs).get(name, [d])[0]` is the first value given for `name`, or `d` if there is none. */
  lemma GetFirstIsFirstValue(qs: string, name: string, default: string)
    ensures var vs := ValuesOf(ParseQsl(qs), name);
      GetFirst(ParseQs(qs), name, default) == if |vs| > 0 then vs[0] else default
  {
    CollectHoldsValues(ParseQsl(qs), name);
  }
}
