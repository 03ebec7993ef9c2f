/**
 * What `split_and_resize` produces for one segment: the video filter, the
 * segment's file name and final path, and the transcoder run that writes it.
 */
module SegmentFiles {
  import opened Text
  import opened Paths
  import opened SegmentPlan

  /** The `-vf` argument for any orientation other than "vertical". */
  const HorizontalFilter := "transpose=1,scale=1280:720"

  /** `int(a / b)` for integers with `b > 0`: true division truncated toward zero. */
  function TruncDiv(a: int, b: int): (q: int)
    requires b > 0
    ensures a >= 0 ==> 0 <= q * b <= a < q * b + b
    ensures a < 0 ==> q * b - b < a <= q * b <= 0
  {
    if a >= 0 then
      FloorDivBounds(a, b);
      a / b
    else
      FloorDivBounds(-a, b);
      NegateProduct((-a) / b, b);
      -((-a) / b)
  }

  /** Floor division of a non-negative number leaves a remainder below the divisor. */
  lemma FloorDivBounds(a: int, b: int)
    requires a >= 0 && b > 0
    ensures 0 <= (a / b) * b <= a < (a / b) * b + b
  {
    var q, r := a / b, a % b;
    assert a == q * b + r && 0 <= r < b;
    assert q >= 0;
  }

  lemma NegateProduct(m: int, b: int)
    ensures (-m) * b == -(m * b)
  {
  }

  /** The rectangle passed to the transcoder's crop filter. */
  datatype Crop = Crop(width: int, height: int, x: int, y: int)

  /** The vertical crop: full height, width `int(in_h * 9/16)`, centred with floor division. */
  function VerticalCrop(inW: int, inH: int): Crop {
    var cropH := inH;
    var cropW := TruncDiv(inH * 9, 16);
    // Python's `//` rounds toward negative infinity; so does Dafny's `/` for a positive divisor.
    Crop(cropW, cropH, (inW - cropW) / 2, (inH - cropH) / 2)
  }

  /**
   * The crop keeps the full height from the top, is 9:16 up to truncation,
   * leaves margins differing by at most one pixel, and lies inside the frame
   * when the frame is at least as wide as the crop.
   */
  lemma VerticalCropGeometry(inW: int, inH: int)
    requires inH >= 0
    ensures var c := VerticalCrop(inW, inH);
      && c.height == inH && c.y == 0
      && 16 * c.width <= 9 * inH < 16 * c.width + 16
      && 0 <= c.width <= inH
      && 0 <= (inW - c.width - c.x) - c.x <= 1
      && (inW >= c.width ==> 0 <= c.x && c.x + c.width <= inW)
  {
  }

  function CropFilter(c: Crop): string {
    "crop=" + IntToString(c.width) + ":" + IntToString(c.height) + ":" + IntToString(c.x) + ":" + IntToString(c.y)
      + ",scale=720:1280"
  }

  /** The `-vf` argument: a centred 9:16 crop for "vertical", a fixed rotation for anything else. */
  function VideoFilter(orientation: string, inW: int, inH: int): string {
    if orientation == "vertical" then CropFilter(VerticalCrop(inW, inH)) else HorizontalFilter
  }

  /** `f"{base}_{start}_{end}.mp4"`. */
  function SegmentName(base: string, start: int, end: int): string {
    base + "_" + IntToString(start) + "_" + IntToString(end) + ".mp4"
  }

  /** `os.path.splitext(os.path.basename(filepath))[0]`. */
  function BaseOf(filepath: string): (base: string)
    ensures NoSlash(base)
  {
    var name := BaseName(filepath);
    var base := StripExtension(name);
    assert forall k :: 0 <= k < |base| ==> base[k] == name[k];
    base
  }

  /** Where segment `i` ends up: `<download dir>/<base>_<start>_<end>.mp4`. */
  function SegmentPath(downloadDir: string, filepath: string, d: real, i: int): string {
    PathJoin(downloadDir, SegmentName(BaseOf(filepath), SegStart(d, i), SegEnd(d, i)))
  }

  /** One transcoder run: cut `[start, end]` out of `input`, filter it and write `output`. */
  datatype Transcode = Transcode(input: string, start: int, end: int, filter: string, output: string)
  {
    /** The argument list passed to the transcoder. */
    function Args(): seq<string> {
      ["ffmpeg", "-y", "-i", input, "-ss", IntToString(start), "-to", IntToString(end),
       "-vf", filter, "-preset", "ultrafast", "-c:a", "copy", output]
    }
  }

  /** The transcoder run for segment `i`, writing next to the source file. */
  function SegmentCommand(filepath: string, orientation: string, d: real, w: int, h: int, i: int): Transcode {
    var name := SegmentName(BaseOf(filepath), SegStart(d, i), SegEnd(d, i));
    Transcode(filepath, SegStart(d, i), SegEnd(d, i), VideoFilter(orientation, w, h), PathJoin(DirName(filepath), name))
  }

  /** The base name of the downloaded `<tmpdir>/<id>.mp4` is the video id. */
  lemma BaseOfDownload(tmpdir: string, vid: string)
    requires NoSlash(vid) && exists k :: 0 <= k < |vid| && vid[k] != '.'
    ensures BaseOf(PathJoin(tmpdir, vid + ".mp4")) == vid
  {
    assert NoSlash(vid + ".mp4");
    BaseNameOfJoin(tmpdir, vid + ".mp4");
    StripExtensionOfMp4(vid);
  }

  /** A segment is first written next to the downloaded file, in its temporary directory. */
  lemma SegmentWrittenBesideDownload(tmpdir: string, name: string, orientation: string, d: real, w: int, h: int, i: int)
    requires NoSlash(name) && |tmpdir| > 0 && tmpdir[|tmpdir| - 1] != '/'
    ensures var filepath := PathJoin(tmpdir, name);
      SegmentCommand(filepath, orientation, d, w, h, i).output
        == PathJoin(tmpdir, SegmentName(BaseOf(filepath), SegStart(d, i), SegEnd(d, i)))
  {
    DirNameOfJoin(tmpdir, name);
  }

  lemma IntToStringNoSlash(n: int)
    ensures NoSlash(IntToString(n))
    ensures forall k :: 0 <= k < |IntToString(n)| ==> IntToString(n)[k] != '_'
  {
    if n < 0 {
      assert IntToString(n) == "-" + NatToString(-n);
    }
  }

  lemma SegmentNameNoSlash(base: string, start: int, end: int)
    requires NoSlash(base)
    ensures NoSlash(SegmentName(base, start, end))
  {
    IntToStringNoSlash(start);
    IntToStringNoSlash(end);
  }

  /** The last `c` in `x + [c] + e` is the one right before `e` when `e` holds none. */
  lemma RFindBeforeField(x: string, e: string, c: char)
    requires forall k :: 0 <= k < |e| ==> e[k] != c
    ensures RFind(x + [c] + e, c) == |x|
  {
    var s := x + [c] + e;
    assert s[|x|] == c;
    assert forall k :: 0 <= k < |e| ==> s[|x| + 1 + k] == e[k];
  }

  /** A trailing field free of `c`, and what precedes its separator, are read back unambiguously. */
  lemma SameFieldAfterSeparator(x1: string, e1: string, x2: string, e2: string, c: char)
    requires forall k :: 0 <= k < |e1| ==> e1[k] != c
    requires forall k :: 0 <= k < |e2| ==> e2[k] != c
    requires x1 + [c] + e1 == x2 + [c] + e2
    ensures x1 == x2 && e1 == e2
  {
    var s := x1 + [c] + e1;
    RFindBeforeField(x1, e1, c);
    RFindBeforeField(x2, e2, c);
    assert x1 == s[..|x1|] == x2;
    assert e1 == s[|x1| + 1..] == e2;
  }

  lemma DropCommonPrefix(p: string, x: string, y: string)
    requires p + x == p + y
    ensures x == y
  {
    assert x == (p + x)[|p|..];
    assert y == (p + y)[|p|..];
  }

  lemma DropCommonSuffix(x: string, y: string, q: string)
    requires x + q == y + q
    ensures x == y
  {
    assert x == (x + q)[..|x|];
    assert y == (y + q)[..|y|];
  }

  /** The decimal rendering of an integer determines the integer. */
  lemma IntToStringInjective(x: int, y: int)
    requires IntToString(x) == IntToString(y)
    ensures x == y
  {
    ParseIntOfIntToString(x);
    ParseIntOfIntToString(y);
  }

  /**
   * Within one base name, the segment file name determines the segment's
   * start and end: the two numbers are read back between the underscores.
   */
  lemma SegmentNameInjective(base: string, s1: int, e1: int, s2: int, e2: int)
    requires SegmentName(base, s1, e1) == SegmentName(base, s2, e2)
    ensures s1 == s2 && e1 == e2
  {
    var p := base + "_";
    var y1 := p + IntToString(s1) + "_" + IntToString(e1);
    var y2 := p + IntToString(s2) + "_" + IntToString(e2);
    DropCommonSuffix(y1, y2, ".mp4");
    IntToStringNoSlash(e1);
    IntToStringNoSlash(e2);
    SameFieldAfterSeparator(p + IntToString(s1), IntToString(e1), p + IntToString(s2), IntToString(e2), '_');
    DropCommonPrefix(p, IntToString(s1), IntToString(s2));
    IntToStringInjective(s1, s2);
    IntToStringInjective(e1, e2);
  }

  /** Different segments of one video never write the same final path. */
  lemma SegmentPathsDistinct(downloadDir: string, filepath: string, d: real, i: int, j: int)
    requires d >= 0.0 && 0 <= i < j < NumSegs(d)
    ensures SegmentPath(downloadDir, filepath, d, i) != SegmentPath(downloadDir, filepath, d, j)
  {
    var base := BaseOf(filepath);
    SegmentNameNoSlash(base, SegStart(d, i), SegEnd(d, i));
    SegmentNameNoSlash(base, SegStart(d, j), SegEnd(d, j));
    StartsIncrease(d, i, j);
    if SegmentPath(downloadDir, filepath, d, i) == SegmentPath(downloadDir, filepath, d, j) {
      PathJoinInjective(downloadDir, SegmentName(base, SegStart(d, i), SegEnd(d, i)),
        SegmentName(base, SegStart(d, j), SegEnd(d, j)));
      SegmentNameInjective(base, SegStart(d, i), SegEnd(d, i), SegStart(d, j), SegEnd(d, j));
    }
  }
}
