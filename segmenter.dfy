/**
 * `split_and_resize`: cut the downloaded file into equal segments of at most
 * sixty seconds, build the crop (vertical) or rotate (horizontal) filter, run
 * the transcoder once per segment and move each result into the output
 * directory. The probes, the transcoder and the move are outside the model:
 * the probed duration and frame size are inputs, and the method returns the
 * transcoder runs it would make along with the final paths.
 */
module Segmenter {
  import opened Results
  import opened Text
  import opened Paths
  import opened SegmentPlan
  import opened SegmentFiles

  /**
   * One pass of the per-segment loop of `split_and_resize`: the transcoder
   * command for segment `i` and the path the segment is moved to.
   */
  method TranscodeSegment(filepath: string, orientation: string, inW: int, inH: int,
                          duration: real, segLen: real, downloadDir: string, i: int)
    returns (final: string, cmd: Transcode)
    requires segLen == SegLen(duration)
    ensures final == SegmentPath(downloadDir, filepath, duration, i)
    ensures cmd == SegmentCommand(filepath, orientation, duration, inW, inH, i)
  {
    var base := BaseOf(filepath);
    var tmpdir := DirName(filepath);
    var start := Round(i as real * segLen);
    var end := Round(Min((i + 1) as real * segLen, duration));
    RoundedStart(duration, segLen, i);
    RoundedEnd(duration, segLen, i);
    var vf;
    if orientation == "vertical" {
      var cropH := inH;
      var cropW := TruncDiv(inH * 9, 16);
      var cropX := (inW - cropW) / 2;
      var cropY := (inH - cropH) / 2;
      assert Crop(cropW, cropH, cropX, cropY) == VerticalCrop(inW, inH);
      vf := CropFilter(Crop(cropW, cropH, cropX, cropY));
    } else {
      vf := HorizontalFilter;
    }
    var inter := PathJoin(tmpdir, SegmentName(base, start, end));
    cmd := Transcode(filepath, start, end, vf, inter);
    SegmentNameNoSlash(base, start, end);
    BaseNameOfJoin(tmpdir, SegmentName(base, start, end));
    final := PathJoin(downloadDir, BaseName(inter));
  }

  /** `[f(0), ..., f(n - 1)]`, the list a loop over `range(n)` builds by appending. */
  function Tabulate<T>(f: nat -> T, n: nat): (r: seq<T>)
    ensures |r| == n
  {
    if n == 0 then [] else Tabulate(f, n - 1) + [f(n - 1)]
  }

  lemma {:induction false} TabulateAt<T>(f: nat -> T, n: nat, k: nat)
    requires k < n
    ensures Tabulate(f, n)[k] == f(k)
  {
    if k < n - 1 {
      TabulateAt(f, n - 1, k);
    }
  }

  /** The final paths of the first `n` segments, in order. */
  function SegmentPaths(downloadDir: string, filepath: string, d: real, n: nat): seq<string> {
    Tabulate((k: nat) => SegmentPath(downloadDir, filepath, d, k), n)
  }

  /** The transcoder runs for the first `n` segments, in order. */
  function SegmentCommands(filepath: string, orientation: string, d: real, w: int, h: int, n: nat): seq<Transcode> {
    Tabulate((k: nat) => SegmentCommand(filepath, orientation, d, w, h, k), n)
  }

  /** Entry `k` of the path listing is the path of segment `k`. */
  lemma SegmentPathsAt(downloadDir: string, filepath: string, d: real, n: nat, k: nat)
    requires k < n
    ensures |SegmentPaths(downloadDir, filepath, d, n)| == n
    ensures SegmentPaths(downloadDir, filepath, d, n)[k] == SegmentPath(downloadDir, filepath, d, k)
  {
    TabulateAt((k: nat) => SegmentPath(downloadDir, filepath, d, k), n, k);
  }

  /** Entry `k` of the command listing is the run for segment `k`. */
  lemma SegmentCommandsAt(filepath: string, orientation: string, d: real, w: int, h: int, n: nat, k: nat)
    requires k < n
    ensures |SegmentCommands(filepath, orientation, d, w, h, n)| == n
    ensures SegmentCommands(filepath, orientation, d, w, h, n)[k] == SegmentCommand(filepath, orientation, d, w, h, k)
  {
    TabulateAt((k: nat) => SegmentCommand(filepath, orientation, d, w, h, k), n, k);
  }

  /** The listing `split_and_resize` returns names every segment once: no two entries coincide. */
  lemma SegmentPathsUnique(downloadDir: string, filepath: string, d: real)
    requires d >= 0.0
    ensures var paths := SegmentPaths(downloadDir, filepath, d, NumSegs(d));
      forall i, j :: 0 <= i < j < |paths| ==> paths[i] != paths[j]
  {
    var paths := SegmentPaths(downloadDir, filepath, d, NumSegs(d));
    forall i, j | 0 <= i < j < |paths|
      ensures paths[i] != paths[j]
    {
      SegmentPathsAt(downloadDir, filepath, d, NumSegs(d), i);
      SegmentPathsAt(downloadDir, filepath, d, NumSegs(d), j);
      SegmentPathsDistinct(downloadDir, filepath, d, i, j);
    }
  }

  /** Appending segment `i`'s path extends the listing of the first `i`. */
  lemma PathsStep(downloadDir: string, filepath: string, d: real, i: nat, paths: seq<string>, final: string)
    requires paths == SegmentPaths(downloadDir, filepath, d, i)
    requires final == SegmentPath(downloadDir, filepath, d, i)
    ensures paths + [final] == SegmentPaths(downloadDir, filepath, d, i + 1)
  {
  }

  /** Appending segment `i`'s run extends the listing of the first `i`. */
  lemma CommandsStep(filepath: string, orientation: string, d: real, w: int, h: int, i: nat,
                     commands: seq<Transcode>, cmd: Transcode)
    requires commands == SegmentCommands(filepath, orientation, d, w, h, i)
    requires cmd == SegmentCommand(filepath, orientation, d, w, h, i)
    ensures commands + [cmd] == SegmentCommands(filepath, orientation, d, w, h, i + 1)
  {
  }

  /**
   * The per-segment loop of `split_and_resize`. Returns the final paths, in
   * segment order, and the transcoder run for each segment.
   */
  method SplitAndResize(filepath: string, orientation: string, durationProbe: Option<real>,
                        sizeProbe: Option<(int, int)>, downloadDir: string)
    returns (segPaths: seq<string>, commands: seq<Transcode>)
    ensures segPaths == SegmentPaths(downloadDir, filepath, ProbedDuration(durationProbe), NumSegs(ProbedDuration(durationProbe)))
    ensures commands == SegmentCommands(filepath, orientation, ProbedDuration(durationProbe),
      ProbedSize(sizeProbe).0, ProbedSize(sizeProbe).1, NumSegs(ProbedDuration(durationProbe)))
  {
    var duration := ProbedDuration(durationProbe);
    var (inW, inH) := ProbedSize(sizeProbe);
    var numSegs := NumSegs(duration);
    var segLen := SegLen(duration);
    segPaths, commands := [], [];
    var i := 0;
    while i < numSegs
      invariant 0 <= i <= numSegs
      invariant segPaths == SegmentPaths(downloadDir, filepath, duration, i)
      invariant commands == SegmentCommands(filepath, orientation, duration, inW, inH, i)
    {
      var final, cmd := TranscodeSegment(filepath, orientation, inW, inH, duration, segLen, downloadDir, i);
      PathsStep(downloadDir, filepath, duration, i, segPaths, final);
      CommandsStep(filepath, orientation, duration, inW, inH, i, commands, cmd);
      segPaths := segPaths + [final];
      commands := commands + [cmd];
      i := i + 1;
    }
  }
}
