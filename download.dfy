/**
 * `download_and_merge`, apart from the extractor call and the filesystem:
 * the requested height parsed from the quality label, the format selector
 * and options handed to the extractor, and the choice of the output file
 * afterwards. The temporary directory, the extractor's answer (the video id)
 * and the directory's state are inputs.
 */
module Download {
  import opened Results
  import opened Text
  import opened Paths
  import Qualities

  /** `int()` rejecting the label that remains after stripping 'p'. */
  datatype Error = ValueError(literal: string)

  /** The option dictionary passed to the extractor for the download. */
  datatype YdlOptions = YdlOptions(quiet: bool, format: string, outputTemplate: string, mergeOutputFormat: string)

  const SelectorHead := "bestvideo[height<="
  const SelectorTail := "]+bestaudio/best"

  /** `int(resolution.rstrip('p'))`. */
  function ParseHeight(resolution: string): (r: Result<int, Error>)
    ensures r.Ok? <==> ParseInt(RStrip(resolution, 'p')).Some?
    ensures r.Ok? ==> Some(r.value) == ParseInt(RStrip(resolution, 'p'))
    ensures r.Err? ==> r.error == ValueError(RStrip(resolution, 'p'))
  {
    match ParseInt(RStrip(resolution, 'p'))
    case Some(h) => Ok(h)
    case None => Err(ValueError(RStrip(resolution, 'p')))
  }

  /** `f"bestvideo[height<={height}]+bestaudio/best"`. */
  function Selector(height: int): string {
    SelectorHead + IntToString(height) + SelectorTail
  }

  /** Reads the height back out of a selector of the shape `Selector` builds. */
  function SelectorHeight(sel: string): Option<int> {
    if |sel| >= |SelectorHead| + |SelectorTail|
      && sel[..|SelectorHead|] == SelectorHead
      && sel[|sel| - |SelectorTail|..] == SelectorTail
    then ParseInt(sel[|SelectorHead|..|sel| - |SelectorTail|])
    else None
  }

  /** The selector names exactly the requested height: reading it back gives that height. */
  lemma SelectorHeightOfSelector(height: int)
    ensures SelectorHeight(Selector(height)) == Some(height)
  {
    var sel := Selector(height);
    assert sel[..|SelectorHead|] == SelectorHead;
    assert sel[|sel| - |SelectorTail|..] == SelectorTail;
    assert sel[|SelectorHead|..|sel| - |SelectorTail|] == IntToString(height);
    ParseIntOfIntToString(height);
  }

  /** The options built before the download; a malformed label fails before anything else happens. */
  function DownloadOptions(resolution: string, tmpdir: string): (r: Result<YdlOptions, Error>)
    ensures r.Ok? <==> ParseHeight(resolution).Ok?
    ensures r.Ok? ==> r.value.quiet && r.value.format == Selector(ParseHeight(resolution).value)
    ensures r.Ok? ==> SelectorHeight(r.value.format) == Some(ParseHeight(resolution).value)
    ensures r.Ok? ==> r.value.outputTemplate == PathJoin(tmpdir, "%(id)s.%(ext)s") && r.value.mergeOutputFormat == "mp4"
  {
    match ParseHeight(resolution)
    case Ok(h) =>
      SelectorHeightOfSelector(h);
      Ok(YdlOptions(true, Selector(h), PathJoin(tmpdir, "%(id)s.%(ext)s"), "mp4"))
    case Err(e) => Err(e)
  }

  /** Stripping ignores how many 'p's end the label. */
  lemma {:induction false} RStripTrailing(s: string, c: char, k: nat)
    ensures RStrip(s + Repeat(c, k), c) == RStrip(s, c)
    decreases k
  {
    if k > 0 {
      assert (s + Repeat(c, k))[..|s| + k - 1] == s + Repeat(c, k - 1);
      RStripTrailing(s, c, k - 1);
    } else {
      assert s + Repeat(c, 0) == s;
    }
  }

  /** Every quality label offered by `get_video_info` parses back to its height. */
  lemma ParseHeightOfLabel(h: int)
    ensures ParseHeight(Qualities.Label(h)) == Ok(h)
  {
    var digits := IntToString(h);
    assert Qualities.Label(h) == digits + Repeat('p', 1);
    RStripTrailing(digits, 'p', 1);
    assert digits[|digits| - 1] != 'p' by {
      if h < 0 { assert digits[|digits| - 1] == NatToString(-h)[|NatToString(-h)| - 1]; }
    }
    assert RStrip(digits, 'p') == digits;
    ParseIntOfIntToString(h);
  }

  /** Any number of trailing 'p's, including none, gives the same height. */
  lemma ParseHeightIgnoresSuffix(s: string, k: nat)
    ensures ParseHeight(s + Repeat('p', k)) == ParseHeight(s)
  {
    RStripTrailing(s, 'p', k);
  }

  /**
   * The file reported back: `<tmpdir>/<id>.mp4` when it exists, otherwise the
   * first entry of the directory listing, otherwise the expected path anyway.
   */
  function OutputPath(tmpdir: string, vid: string, existing: set<string>, listing: seq<string>): (path: string)
    ensures PathJoin(tmpdir, vid + ".mp4") in existing ==> path == PathJoin(tmpdir, vid + ".mp4")
    ensures PathJoin(tmpdir, vid + ".mp4") !in existing && |listing| > 0 ==> path == PathJoin(tmpdir, listing[0])
    ensures PathJoin(tmpdir, vid + ".mp4") !in existing && |listing| == 0 ==> path == PathJoin(tmpdir, vid + ".mp4")
  {
    var expected := PathJoin(tmpdir, vid + ".mp4");
    if expected !in existing && |listing| > 0 then PathJoin(tmpdir, listing[0]) else expected
  }

  /**
   * The chosen file lies directly in the temporary directory, and its name
   * (the name the download is offered under) is `<id>.mp4` or the first listed name.
   */
  lemma OutputPathInTmpdir(tmpdir: string, vid: string, existing: set<string>, listing: seq<string>)
    requires NoSlash(vid)
    requires forall i :: 0 <= i < |listing| ==> NoSlash(listing[i])
    ensures var path := OutputPath(tmpdir, vid, existing, listing);
      && path == PathJoin(tmpdir, BaseName(path))
      && (BaseName(path) == vid + ".mp4" || (|listing| > 0 && BaseName(path) == listing[0]))
  {
    assert NoSlash(vid + ".mp4");
    BaseNameOfJoin(tmpdir, vid + ".mp4");
    if |listing| > 0 {
      BaseNameOfJoin(tmpdir, listing[0]);
    }
  }
}
