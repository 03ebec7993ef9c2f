/**
 * `parse_video_id`: tries the patterns `v=`, `youtu.be/` and `embed/`, each
 * followed by exactly eleven characters from `[0-9A-Za-z_-]`, in that order,
 * and returns the eleven characters after the leftmost match of the first
 * pattern that matches anywhere; with no match it raises ValueError. There is
 * no end anchor, so further identifier characters may follow the eleven.
 */
module VideoId {
  import opened Results

  const IdLength: nat := 11

  /** The literal text before the identifier in each pattern, in the order tried. */
  const Prefixes: seq<string> := ["v=", "youtu.be/", "embed/"]

  datatype Error = ValueError(message: string)

  /** The character class `[0-9A-Za-z_-]`. */
  predicate IsIdChar(c: char) {
    ('0' <= c <= '9') || ('A' <= c <= 'Z') || ('a' <= c <= 'z') || c == '_' || c == '-'
  }

  predicate IsVideoId(s: string) {
    |s| == IdLength && forall i :: 0 <= i < |s| ==> IsIdChar(s[i])
  }

  /** The pattern `prefix([0-9A-Za-z_-]{11})` matches `url` starting at position `k`. */
  predicate MatchesAt(url: string, prefix: string, k: nat) {
    && k + |prefix| + IdLength <= |url|
    && url[k..k + |prefix|] == prefix
    && forall j :: k + |prefix| <= j < k + |prefix| + IdLength ==> IsIdChar(url[j])
  }

  /** Group 1 of a match at `k`. */
  function IdAt(url: string, prefix: string, k: nat): (id: string)
    requires MatchesAt(url, prefix, k)
    ensures IsVideoId(id)
  {
    url[k + |prefix|..k + |prefix| + IdLength]
  }

  /** `re.search` scanning from position `from`: the leftmost start of a match, if any. */
  function Search(url: string, prefix: string, from: nat): (r: Option<nat>)
    ensures r.Some? ==> from <= r.value && MatchesAt(url, prefix, r.value)
    ensures r.Some? ==> forall j :: from <= j < r.value ==> !MatchesAt(url, prefix, j)
    ensures r.None? ==> forall j :: from <= j ==> !MatchesAt(url, prefix, j)
    decreases |url| - from
  {
    if from + |prefix| + IdLength > |url| then None
    else if MatchesAt(url, prefix, from) then Some(from)
    else Search(url, prefix, from + 1)
  }

  /** The loop over the patterns, starting at pattern `p`. */
  function ParseFrom(url: string, p: nat): Result<string, Error>
    requires p <= |Prefixes|
    decreases |Prefixes| - p
  {
    if p == |Prefixes| then Err(ValueError("Invalid YouTube URL: " + url))
    else match Search(url, Prefixes[p], 0)
      case Some(k) => Ok(IdAt(url, Prefixes[p], k))
      case None => ParseFrom(url, p + 1)
  }

  /** Some pattern matches `url` somewhere. */
  ghost predicate AnyMatch(url: string) {
    exists p, k :: 0 <= p < |Prefixes| && MatchesAt(url, Prefixes[p], k)
  }

  /** Pattern `p` is the first that matches anywhere, and `k` is its leftmost match. */
  ghost predicate IsFirstMatch(url: string, p: nat, k: nat) {
    && p < |Prefixes|
    && MatchesAt(url, Prefixes[p], k)
    && (forall q, j :: 0 <= q < p ==> !MatchesAt(url, Prefixes[q], j))
    && (forall j :: 0 <= j < k ==> !MatchesAt(url, Prefixes[p], j))
  }

  function ParseVideoId(url: string): (r: Result<string, Error>)
    ensures r.Ok? ==> IsVideoId(r.value)
    ensures r.Ok? ==> exists p: nat, k: nat :: IsFirstMatch(url, p, k) && r.value == IdAt(url, Prefixes[p], k)
    ensures r.Err? <==> !AnyMatch(url)
    ensures r.Err? ==> r.error == ValueError("Invalid YouTube URL: " + url)
  {
    ParseFromSpec(url, 0);
    ParseFrom(url, 0)
  }

  lemma {:induction false} ParseFromSpec(url: string, p: nat)
    requires p <= |Prefixes|
    requires forall q, j :: 0 <= q < p ==> !MatchesAt(url, Prefixes[q], j)
    ensures var r := ParseFrom(url, p);
      && (r.Ok? ==> exists p': nat, k: nat :: IsFirstMatch(url, p', k) && r.value == IdAt(url, Prefixes[p'], k))
      && (r.Err? <==> !AnyMatch(url))
      && (r.Err? ==> r.error == ValueError("Invalid YouTube URL: " + url))
    decreases |Prefixes| - p
  {
    if p < |Prefixes| {
      match Search(url, Prefixes[p], 0)
      case Some(k) =>
        assert IsFirstMatch(url, p, k);
      case None =>
        ParseFromSpec(url, p + 1);
    }
  }

  /** At most one (pattern, position) pair is the first match. */
  lemma FirstMatchUnique(url: string, p1: nat, k1: nat, p2: nat, k2: nat)
    requires IsFirstMatch(url, p1, k1) && IsFirstMatch(url, p2, k2)
    ensures p1 == p2 && k1 == k2
  {
  }

  /** Conversely, whenever a first match exists, the parser returns its identifier. */
  lemma ParseVideoIdOfFirstMatch(url: string, p: nat, k: nat)
    requires IsFirstMatch(url, p, k)
    ensures ParseVideoId(url) == Ok(IdAt(url, Prefixes[p], k))
  {
    var r := ParseVideoId(url);
    var p': nat, k': nat :| IsFirstMatch(url, p', k') && r.value == IdAt(url, Prefixes[p'], k');
    FirstMatchUnique(url, p, k, p', k');
  }

  /** A pattern cannot start where its first character does not occur. */
  lemma NoMatchBetween(url: string, prefix: string, from: nat, to: nat)
    requires 0 < |prefix| && from <= to <= |url| && prefix[0] !in url[from..to]
    ensures forall j :: from <= j < to ==> !MatchesAt(url, prefix, j)
  {
  }

  /**
   * `v=` followed by eleven identifier characters at the very start wins,
   * whatever follows: a twelfth identifier character, or a second `v=`.
   */
  lemma NoEndAnchor(id: string, rest: string)
    requires IsVideoId(id)
    ensures ParseVideoId("v=" + id + rest) == Ok(id)
  {
    var url := "v=" + id + rest;
    assert url[..2] == "v=";
    assert MatchesAt(url, Prefixes[0], 0);
    assert IsFirstMatch(url, 0, 0);
    ParseVideoIdOfFirstMatch(url, 0, 0);
    assert IdAt(url, Prefixes[0], 0) == id;
  }

  /** The watch form of a video address gives its identifier. */
  lemma WatchForm()
    ensures ParseVideoId("https://www.youtube.com/watch?v=dQw4w9WgXcQ") == Ok("dQw4w9WgXcQ")
  {
    var watch := "https://www.youtube.com/watch?v=dQw4w9WgXcQ";
    assert 'v' !in watch[..30];
    NoMatchBetween(watch, Prefixes[0], 0, 30);
    assert watch[30..32] == "v=";
    assert watch[32..43] == "dQw4w9WgXcQ";
    assert IsFirstMatch(watch, 0, 30);
    ParseVideoIdOfFirstMatch(watch, 0, 30);
  }

  const ShortUrl := "https://youtu.be/dQw4w9WgXcQ"

  lemma ShortLinkHasNoWatch()
    ensures forall j :: !MatchesAt(ShortUrl, Prefixes[0], j)
  {
    var short := ShortUrl;
    assert 'v' !in short[..17];
    assert 'v' !in short[17..];
    NoMatchBetween(short, Prefixes[0], 0, 17);
    NoMatchBetween(short, Prefixes[0], 17, |short|);
  }

  lemma ShortLinkMatch()
    ensures MatchesAt(ShortUrl, Prefixes[1], 8)
    ensures IdAt(ShortUrl, Prefixes[1], 8) == "dQw4w9WgXcQ"
    ensures forall j :: 0 <= j < 8 ==> !MatchesAt(ShortUrl, Prefixes[1], j)
  {
    var short := ShortUrl;
    assert 'y' !in short[..8];
    NoMatchBetween(short, Prefixes[1], 0, 8);
    assert short[8..17] == "youtu.be/";
    assert |short| == 28 && short[17..28] == short[17..];
    assert short[17..] == "dQw4w9WgXcQ";
  }

  /** The short-link form gives the same identifier. */
  lemma ShortLinkForm()
    ensures ParseVideoId("https://youtu.be/dQw4w9WgXcQ") == Ok("dQw4w9WgXcQ")
  {
    ShortLinkHasNoWatch();
    ShortLinkMatch();
    assert IsFirstMatch(ShortUrl, 1, 8);
    ParseVideoIdOfFirstMatch(ShortUrl, 1, 8);
  }

  const EmbedUrl := "https://www.youtube.com/embed/dQw4w9WgXcQ"

  lemma EmbedHasNoShortLinkAfterHost()
    ensures forall j :: 13 <= j < |EmbedUrl| ==> !MatchesAt(EmbedUrl, Prefixes[1], j)
  {
    var embed := EmbedUrl;
    assert 'y' !in embed[13..24];
    assert 'y' !in embed[24..30];
    assert 'y' !in embed[30..];
    NoMatchBetween(embed, Prefixes[1], 13, 24);
    NoMatchBetween(embed, Prefixes[1], 24, 30);
    NoMatchBetween(embed, Prefixes[1], 30, |embed|);
  }

  lemma EmbedHasNoShortLink()
    ensures forall j :: !MatchesAt(EmbedUrl, Prefixes[1], j)
  {
    var embed := EmbedUrl;
    assert 'y' !in embed[..12];
    NoMatchBetween(embed, Prefixes[1], 0, 12);
    EmbedHasNoShortLinkAfterHost();
    assert embed[17] == 'b';
    assert !MatchesAt(embed, Prefixes[1], 12) by {
      assert embed[12..21][5] == embed[17];
    }
  }

  lemma EmbedHasNoEarlierEmbed()
    ensures forall j :: 0 <= j < 24 ==> !MatchesAt(EmbedUrl, Prefixes[2], j)
  {
    var embed := EmbedUrl;
    assert 'e' !in embed[..18] && 'e' !in embed[19..24];
    NoMatchBetween(embed, Prefixes[2], 0, 18);
    NoMatchBetween(embed, Prefixes[2], 19, 24);
    assert embed[18..24][1] == embed[19] == '.';
  }

  lemma EmbedHasNoWatch()
    ensures forall j :: !MatchesAt(EmbedUrl, Prefixes[0], j)
  {
    var embed := EmbedUrl;
    assert 'v' !in embed[..12];
    assert 'v' !in embed[12..24];
    assert 'v' !in embed[24..30];
    assert 'v' !in embed[30..];
    NoMatchBetween(embed, Prefixes[0], 0, 12);
    NoMatchBetween(embed, Prefixes[0], 12, 24);
    NoMatchBetween(embed, Prefixes[0], 24, 30);
    NoMatchBetween(embed, Prefixes[0], 30, |embed|);
  }

  lemma EmbedMatch()
    ensures MatchesAt(EmbedUrl, Prefixes[2], 24)
    ensures IdAt(EmbedUrl, Prefixes[2], 24) == "dQw4w9WgXcQ"
  {
    var embed := EmbedUrl;
    assert embed[24..30] == "embed/";
    assert |embed| == 41 && embed[30..41] == embed[30..];
    assert embed[30..] == "dQw4w9WgXcQ";
  }

  /** The embed form gives the same identifier. */
  lemma EmbedForm()
    ensures ParseVideoId("https://www.youtube.com/embed/dQw4w9WgXcQ") == Ok("dQw4w9WgXcQ")
  {
    EmbedHasNoWatch();
    EmbedHasNoShortLink();
    EmbedHasNoEarlierEmbed();
    EmbedMatch();
    assert forall q, j :: 0 <= q < 2 ==> !MatchesAt(EmbedUrl, Prefixes[q], j) by {
      forall q, j | 0 <= q < 2
        ensures !MatchesAt(EmbedUrl, Prefixes[q], j)
      {
        if q == 1 {
          assert !MatchesAt(EmbedUrl, Prefixes[1], j);
        }
      }
    }
    assert IsFirstMatch(EmbedUrl, 2, 24);
    ParseVideoIdOfFirstMatch(EmbedUrl, 2, 24);
  }

  /** Text that matches none of the patterns is rejected with ValueError. */
  lemma NotAUrl()
    ensures ParseVideoId("not a url") == Err(ValueError("Invalid YouTube URL: not a url"))
  {
    assert !AnyMatch("not a url");
    assert "Invalid YouTube URL: " + "not a url" == "Invalid YouTube URL: not a url";
  }

  /** An earlier pattern wins over a later one even when the later one occurs first in the text. */
  lemma WatchParameterBeatsShortLink()
    ensures ParseVideoId("https://youtu.be/xxxxxxxxxxx?v=dQw4w9WgXcQ") == Ok("dQw4w9WgXcQ")
  {
    var url := "https://youtu.be/xxxxxxxxxxx?v=dQw4w9WgXcQ";
    assert 'v' !in url[..29];
    NoMatchBetween(url, Prefixes[0], 0, 29);
    assert url[29..31] == "v=";
    assert url[31..42] == "dQw4w9WgXcQ";
    assert IsFirstMatch(url, 0, 29);
    ParseVideoIdOfFirstMatch(url, 0, 29);
  }
}
