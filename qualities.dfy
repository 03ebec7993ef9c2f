/**
 * `get_video_info`: the metadata answer built from what the extractor
 * reports. Its quality list is
 * `sorted({f"{fmt.get('height')}p" for fmt in formats if fmt.get('height')})`:
 * every format with a truthy height gives the label "<height>p", duplicates
 * collapse in the set, and `sorted` orders the labels as strings.
 */
module Qualities {
  import opened Results
  import opened Text

  /** One entry of the extractor's format list; only its height is used. */
  datatype Format = Format(height: Option<int>)

  /** The extraction library that served the request (`using_module`). */
  datatype Backend = YtDlp | YoutubeDl {
    function Name(): string {
      match this
      case YtDlp => "yt_dlp"
      case YoutubeDl => "youtube_dl"
    }
  }

  /**
   * What the extractor returned. The title is `None` when the key is missing
   * or holds null, which `get` does not tell apart. The thumbnail tells them
   * apart: `None` for a missing key, `Some(None)` for a key holding null.
   * A missing format list is the empty one.
   */
  datatype ExtractedInfo = ExtractedInfo(title: Option<string>, thumbnail: Option<Option<string>>, formats: seq<Format>)

  /** The JSON object sent back for `/fetch`; `None` is JSON null. */
  datatype VideoInfo = VideoInfo(title: Option<string>, thumbnailUrl: Option<string>, qualities: seq<string>, backendName: string)

  /** Python truthiness of `fmt.get('height')`: a missing height and 0 are falsy. */
  predicate HasHeight(f: Format) {
    f.height.Some? && f.height.value != 0
  }

  function Label(h: int): string {
    IntToString(h) + "p"
  }

  /** The set comprehension: the labels of all formats with a truthy height. */
  ghost function LabelSet(formats: seq<Format>): set<string> {
    set i | 0 <= i < |formats| && HasHeight(formats[i]) :: Label(formats[i].height.value)
  }

  /** Python's `<` on str: code point by code point, a proper prefix first. */
  predicate StrLess(a: string, b: string)
    decreases |a|
  {
    |b| > 0 && (|a| == 0 || a[0] < b[0] || (a[0] == b[0] && StrLess(a[1..], b[1..])))
  }

  lemma {:induction false} StrLessIrreflexive(a: string)
    ensures !StrLess(a, a)
    decreases |a|
  {
    if |a| > 0 {
      StrLessIrreflexive(a[1..]);
    }
  }

  lemma {:induction false} StrLessTransitive(a: string, b: string, c: string)
    requires StrLess(a, b) && StrLess(b, c)
    ensures StrLess(a, c)
    decreases |a|
  {
    if |a| > 0 && a[0] == b[0] && b[0] == c[0] {
      StrLessTransitive(a[1..], b[1..], c[1..]);
    }
  }

  lemma {:induction false} StrLessTotal(a: string, b: string)
    requires a != b
    ensures StrLess(a, b) || StrLess(b, a)
    decreases |a|
  {
    if |a| > 0 && |b| > 0 && a[0] == b[0] {
      assert a == [a[0]] + a[1..] && b == [b[0]] + b[1..];
      StrLessTotal(a[1..], b[1..]);
    }
  }

  lemma StrLessAsymmetric(a: string, b: string)
    requires StrLess(a, b)
    ensures !StrLess(b, a)
  {
    if StrLess(b, a) {
      StrLessTransitive(a, b, a);
      StrLessIrreflexive(a);
    }
  }

  function Elems(s: seq<string>): set<string> {
    set y | y in s
  }

  lemma ElemsOfEmpty(s: seq<string>)
    ensures Elems(s) == {} <==> s == []
  {
    if s != [] {
      assert s[0] in Elems(s);
    }
  }

  predicate StrictlyAscending(s: seq<string>) {
    forall i, j :: 0 <= i < j < |s| ==> StrLess(s[i], s[j])
  }

  lemma AscendingHasNoDuplicates(s: seq<string>)
    requires StrictlyAscending(s)
    ensures forall i, j :: 0 <= i < j < |s| ==> s[i] != s[j]
  {
    forall i, j | 0 <= i < j < |s|
      ensures s[i] != s[j]
    {
      StrLessIrreflexive(s[i]);
    }
  }

  /** Adds `x` to a strictly ascending list, keeping it strictly ascending. */
  function Insert(x: string, s: seq<string>): (r: seq<string>)
    requires StrictlyAscending(s)
    ensures StrictlyAscending(r)
    ensures Elems(r) == Elems(s) + {x}
    decreases |s|
  {
    if s == [] then [x]
    else if x == s[0] then s
    else if StrLess(x, s[0]) then
      assert forall j :: 0 < j < |s| ==> StrLess(x, s[j]) by {
        forall j | 0 < j < |s| ensures StrLess(x, s[j]) { StrLessTransitive(x, s[0], s[j]); }
      }
      [x] + s
    else
      StrLessTotal(x, s[0]);
      var t := Insert(x, s[1..]);
      InsertAboveHead(x, s, t);
      [s[0]] + t
  }

  /** Putting the head of `s` in front of `t`, the tail with `x` added, when `x` sorts after the head. */
  lemma InsertAboveHead(x: string, s: seq<string>, t: seq<string>)
    requires StrictlyAscending(s) && |s| > 0 && StrLess(s[0], x)
    requires StrictlyAscending(t) && Elems(t) == Elems(s[1..]) + {x}
    ensures StrictlyAscending([s[0]] + t)
    ensures Elems([s[0]] + t) == Elems(s) + {x}
  {
    forall y | y in t ensures StrLess(s[0], y) {
      assert y in Elems(t);
      if y != x {
        assert y in Elems(s[1..]);
        var j :| 0 <= j < |s[1..]| && s[1..][j] == y;
        assert s[j + 1] == y;
      }
    }
    assert s == [s[0]] + s[1..];
    assert Elems(s) == {s[0]} + Elems(s[1..]);
    assert Elems([s[0]] + t) == {s[0]} + Elems(t);
  }

  /** `sorted` of the label set, built one format at a time. */
  function SortedLabels(formats: seq<Format>): (r: seq<string>)
    ensures StrictlyAscending(r)
    ensures Elems(r) == LabelSet(formats)
    decreases |formats|
  {
    if formats == [] then []
    else
      var rest := SortedLabels(formats[1..]);
      assert LabelSet(formats) == LabelSet(formats[1..]) + (if HasHeight(formats[0]) then {Label(formats[0].height.value)} else {}) by {
        forall y | y in LabelSet(formats) ensures y in LabelSet(formats[1..]) + (if HasHeight(formats[0]) then {Label(formats[0].height.value)} else {}) {
          var i :| 0 <= i < |formats| && HasHeight(formats[i]) && y == Label(formats[i].height.value);
          if i > 0 { assert formats[1..][i - 1] == formats[i]; }
        }
        forall y | y in LabelSet(formats[1..]) ensures y in LabelSet(formats) {
          var i :| 0 <= i < |formats[1..]| && HasHeight(formats[1..][i]) && y == Label(formats[1..][i].height.value);
          assert formats[i + 1] == formats[1..][i];
        }
      }
      if HasHeight(formats[0]) then Insert(Label(formats[0].height.value), rest) else rest
  }

  /** A finite set has exactly one strictly ascending listing. */
  lemma {:induction false} AscendingListingUnique(a: seq<string>, b: seq<string>)
    requires StrictlyAscending(a) && StrictlyAscending(b)
    requires Elems(a) == Elems(b)
    ensures a == b
    decreases |a|
  {
    ElemsOfEmpty(a);
    ElemsOfEmpty(b);
    if a != [] && b != [] {
      assert a[0] in Elems(a) && b[0] in Elems(b);
      if a[0] != b[0] {
        var i :| 0 <= i < |a| && a[i] == b[0];
        var j :| 0 <= j < |b| && b[j] == a[0];
        StrLessAsymmetric(a[0], b[0]);
      }
      assert a[0] == b[0];
      assert Elems(a[1..]) == Elems(a) - {a[0]} by {
        AscendingHasNoDuplicates(a);
        assert a == [a[0]] + a[1..];
      }
      assert Elems(b[1..]) == Elems(b) - {b[0]} by {
        AscendingHasNoDuplicates(b);
        assert b == [b[0]] + b[1..];
      }
      AscendingListingUnique(a[1..], b[1..]);
      assert a[1..] == b[1..];
      assert a == [a[0]] + a[1..] && b == [b[0]] + b[1..];
    }
  }

  function GetVideoInfo(info: ExtractedInfo, backend: Backend): (r: VideoInfo)
    ensures r.title == info.title
    ensures info.thumbnail.None? ==> r.thumbnailUrl == Some("")
    ensures info.thumbnail.Some? ==> r.thumbnailUrl == info.thumbnail.value
    ensures r.backendName == backend.Name()
    ensures StrictlyAscending(r.qualities)
    ensures Elems(r.qualities) == LabelSet(info.formats)
  {
    VideoInfo(info.title, info.thumbnail.GetOr(Some("")), SortedLabels(info.formats), backend.Name())
  }

  /** The quality list is the one ascending, duplicate-free listing of the label set. */
  lemma QualitiesAreSortedLabelSet(info: ExtractedInfo, backend: Backend, listing: seq<string>)
    requires StrictlyAscending(listing) && Elems(listing) == LabelSet(info.formats)
    ensures GetVideoInfo(info, backend).qualities == listing
  {
    AscendingListingUnique(GetVideoInfo(info, backend).qualities, listing);
  }

  const ExampleFormats := [Format(Some(720)), Format(Some(480)), Format(None), Format(Some(720)), Format(Some(0)), Format(Some(1080))]

  lemma ExampleLabelSet()
    ensures LabelSet(ExampleFormats) == {"720p", "480p", "1080p"}
  {
    var formats := ExampleFormats;
    assert Label(720) == "720p";
    assert Label(480) == "480p";
    assert Label(1080) == "1080p";
    assert Label(formats[0].height.value) == "720p";
    assert Label(formats[1].height.value) == "480p";
    assert Label(formats[5].height.value) == "1080p";
  }

  lemma ExampleListing()
    ensures StrictlyAscending(["1080p", "480p", "720p"])
    ensures Elems(["1080p", "480p", "720p"]) == {"720p", "480p", "1080p"}
  {
  }

  /**
   * Heights 720, 480, none, 720, 0 and 1080 give the three labels in string
   * order, which puts "1080p" first.
   */
  lemma ExampleQualities(backend: Backend)
    ensures GetVideoInfo(ExtractedInfo(None, None, [Format(Some(720)), Format(Some(480)), Format(None),
      Format(Some(720)), Format(Some(0)), Format(Some(1080))]), backend).qualities == ["1080p", "480p", "720p"]
  {
    ExampleLabelSet();
    ExampleListing();
    QualitiesAreSortedLabelSet(ExtractedInfo(None, None, ExampleFormats), backend, ["1080p", "480p", "720p"]);
  }
}
