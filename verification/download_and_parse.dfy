/** The video downloader and frame extractor: the name the download gets,
    and the loop that resizes the extracted frames one by one into an
    output directory, counting the frames that made it. */
module DownloadAndParse {
  import opened Wrappers
  import opened Text
  import opened Files

  /** `int(dim * percentage / 100)`: true division, then truncation toward
      zero. */
  function ScaledDim(dim: nat, percentage: int): int
  {
    var p := dim * percentage;
    if p >= 0 then p / 100 else -((-p) / 100)
  }

  /** The scaled size is the exact quotient rounded toward zero: below it by
      less than one for a non-negative product, above it by less than one
      for a negative product. */
  lemma ScaledDimTruncates(dim: nat, percentage: int)
    ensures var r, p := ScaledDim(dim, percentage), dim * percentage;
      && (p >= 0 ==> 0 <= r && r * 100 <= p < r * 100 + 100)
      && (p < 0 ==> r <= 0 && r * 100 - 100 < p <= r * 100)
  {
  }

  /** For a non-negative percentage the truncated size is Euclidean
      division; it never exceeds the original at 100% or below, and 100%
      keeps the size. */
  lemma ScaledDimProperties(dim: nat, percentage: int)
    requires percentage >= 0
    ensures ScaledDim(dim, percentage) == dim * percentage / 100
    ensures percentage <= 100 ==> ScaledDim(dim, percentage) <= dim
    ensures percentage == 100 ==> ScaledDim(dim, percentage) == dim
  {
    var r := ScaledDim(dim, percentage);
    assert dim * percentage >= 0;
    if percentage <= 100 {
      assert dim * percentage <= dim * 100;
    }
  }

  /** Resizing by a percentage is monotone in the original dimension. */
  lemma ScaledDimMonotone(d1: nat, d2: nat, percentage: int)
    requires d1 <= d2 && percentage >= 0
    ensures ScaledDim(d1, percentage) <= ScaledDim(d2, percentage)
  {
    assert d1 * percentage <= d2 * percentage;
  }

  /** `f'{timestamp}_frame{i:04d}.png'`: the name of the resized frame
      with 0-based index `i`. */
  function FrameName(timestamp: string, i: nat): string
  {
    timestamp + "_frame" + ZeroPad(i, 4) + ".png"
  }

  lemma FrameNameSplit(timestamp: string, i: nat)
    ensures FrameName(timestamp, i) == (timestamp + "_frame") + (ZeroPad(i, 4) + ".png")
  {
  }

  /** Frames with different indices get different names. */
  lemma FrameNamesDistinct(timestamp: string, i: nat, j: nat)
    requires i != j
    ensures FrameName(timestamp, i) != FrameName(timestamp, j)
  {
    var pi, pj := ZeroPad(i, 4), ZeroPad(j, 4);
    if FrameName(timestamp, i) == FrameName(timestamp, j) {
      var n := |timestamp| + 6;
      assert |pi| == |pj|;
      assert FrameName(timestamp, i)[n..n + |pi|] == pi;
      assert FrameName(timestamp, j)[n..n + |pj|] == pj;
      ZeroPadInjective(i, j, 4);
    }
  }

  /** Below 10000 frames, names sort by their frame index. */
  lemma FrameNamesSortByIndex(timestamp: string, i: nat, j: nat)
    requires i < 10000 && j < 10000
    ensures LexLe(FrameName(timestamp, i), FrameName(timestamp, j)) <==> i <= j
  {
    var pi, pj := ZeroPad(i, 4), ZeroPad(j, 4);
    assert Pow10(4) == 10000;
    ZeroPadOrder(i, j, 4);
    ZeroPadExactWidth(i, 4);
    ZeroPadExactWidth(j, 4);
    var prefix := timestamp + "_frame";
    FrameNameSplit(timestamp, i);
    FrameNameSplit(timestamp, j);
    LexLeCommonPrefix(prefix, pi + ".png", pj + ".png");
    if i == j {
      LexLeTotal(pi + ".png", pi + ".png");
    } else {
      FrameNamesDistinct(timestamp, i, j);
      LexLeDecidedEarly(pi, pj, ".png", ".png");
    }
  }

  lemma PadOf10000()
    ensures ZeroPad(10000, 4) == "10000"
  {
    assert Decimal(1) == "1";
    assert Decimal(10) == "10";
    assert Decimal(100) == "100";
    assert Decimal(1000) == "1000";
    assert Decimal(10000) == "10000";
  }

  lemma PadOf9999()
    ensures ZeroPad(9999, 4) == "9999"
  {
    assert Decimal(9) == "9";
    assert Decimal(99) == "99";
    assert Decimal(999) == "999";
    assert Decimal(9999) == "9999";
  }

  /** From the 10001st frame on, names no longer sort by index: frame 10000
      sorts before frame 9999. */
  lemma FrameName10000SortsBefore9999(timestamp: string)
    ensures LexLe(FrameName(timestamp, 10000), FrameName(timestamp, 9999))
    ensures !LexLe(FrameName(timestamp, 9999), FrameName(timestamp, 10000))
  {
    PadOf10000();
    PadOf9999();
    FrameNameSplit(timestamp, 10000);
    FrameNameSplit(timestamp, 9999);
    var prefix := timestamp + "_frame";
    var a, b := ZeroPad(10000, 4) + ".png", ZeroPad(9999, 4) + ".png";
    LexLeCommonPrefix(prefix, a, b);
    LexLeCommonPrefix(prefix, b, a);
    assert a[0] == '1' && b[0] == '9';
  }

  /** The width and height PIL reports for an image it could open. */
  datatype Size = Size(width: nat, height: nat)

  /** What the per-frame step of one `parse_video` run depends on: whether
      the output name is a directory, the run's timestamp, the percentage,
      and the image library as an oracle. `open` gives the size of a frame
      that opens and None when opening raises; `save` tells whether
      resizing to the given width and height and saving under the given
      name succeed. */
  datatype FrameStep = FrameStep(outputIsDir: bool, timestamp: string, percentage: int,
                                 open: string -> Option<Size>,
                                 save: (string, int, int) -> bool)

  /** Whether the frame at index `i` was opened, resized and saved; a save
      lands only in a directory. */
  predicate FrameResized(step: FrameStep, frame: string, i: nat)
  {
    var size := step.open(frame);
    && step.outputIsDir
    && size.Some?
    && step.save(FrameName(step.timestamp, i), ScaledDim(size.value.width, step.percentage),
                 ScaledDim(size.value.height, step.percentage))
  }

  /** The outcome of every frame's try block, by index. */
  function Outcomes(step: FrameStep, frames: seq<string>): (oks: seq<bool>)
    ensures |oks| == |frames|
    ensures forall i :: 0 <= i < |frames| ==> oks[i] == FrameResized(step, frames[i], i)
  {
    seq(|frames|, i requires 0 <= i < |frames| => FrameResized(step, frames[i], i))
  }

  /** The indices below `n` whose try block succeeded. */
  function Succeeded(oks: seq<bool>, n: nat): (done: set<nat>)
    requires n <= |oks|
    ensures forall i: nat :: i in done <==> i < n && oks[i]
    ensures |done| <= n
  {
    if n == 0 then {}
    else
      var earlier := Succeeded(oks, n - 1);
      if oks[n - 1] then earlier + {n - 1} else earlier
  }

  /** Different indices get different names. */
  ghost predicate Injective(name: nat -> string)
  {
    forall i: nat, j: nat :: i != j ==> name(i) != name(j)
  }

  /** The frame names of one run, by index. */
  function FrameNames(timestamp: string): (name: nat -> string)
    ensures forall i: nat :: name(i) == FrameName(timestamp, i)
    ensures Injective(name)
  {
    forall i: nat, j: nat | i != j
      ensures FrameName(timestamp, i) != FrameName(timestamp, j)
    {
      FrameNamesDistinct(timestamp, i, j);
    }
    (i: nat) => FrameName(timestamp, i)
  }

  /** The names of the frames below `n` that were saved, in the order the
      loop saved them; `name(i)` is the name of frame `i`. */
  function SavedNames(name: nat -> string, oks: seq<bool>, n: nat): (names: seq<string>)
    requires n <= |oks|
    ensures |names| <= n
  {
    if n == 0 then []
    else SavedNames(name, oks, n - 1) + (if oks[n - 1] then [name(n - 1)] else [])
  }

  /** A frame's name is among the saved ones exactly when its try block
      succeeded, and every saved name is such a frame's. */
  lemma {:induction false} SavedNamesMembers(name: nat -> string, oks: seq<bool>, n: nat)
    requires n <= |oks| && Injective(name)
    ensures forall i: nat :: i < n ==> (name(i) in SavedNames(name, oks, n) <==> oks[i])
    ensures forall m :: m in SavedNames(name, oks, n) ==> exists i: nat :: i < n && oks[i] && m == name(i)
  {
    if n > 0 {
      SavedNamesMembers(name, oks, n - 1);
    }
  }

  /** The saved names are pairwise different and as many as the frames
      whose try block succeeded: the count `parse_video` returns is the
      number of files it wrote. */
  lemma {:induction false} SavedNamesCount(name: nat -> string, oks: seq<bool>, n: nat)
    requires n <= |oks| && Injective(name)
    ensures Distinct(SavedNames(name, oks, n))
    ensures |SavedNames(name, oks, n)| == |Succeeded(oks, n)|
  {
    if n > 0 {
      SavedNamesCount(name, oks, n - 1);
      var earlier := SavedNames(name, oks, n - 1);
      if oks[n - 1] {
        var last := name(n - 1);
        SavedNamesMembers(name, oks, n - 1);
        assert last !in earlier;
        DistinctSnoc(earlier, last);
        assert n - 1 !in Succeeded(oks, n - 1);
        assert Succeeded(oks, n) == Succeeded(oks, n - 1) + {n - 1};
      }
    }
  }

  /** `parse_video(input_file, output_dir, percentage)` once the scratch
      directory has been filled: `extracted` is what `os.listdir` lists
      there, in its order. The output directory name is lower-cased and
      created when absent; each ".png" frame is opened, resized and saved
      under its index, a failure skips that frame only, and the result
      counts the frames saved. */
  method ParseVideo(wd: WorkingDir, outputDir: string, percentage: int, timestamp: string,
                    extracted: seq<string>, open: string -> Option<Size>,
                    save: (string, int, int) -> bool)
    returns (frameCount: nat)
    modifies wd
    ensures var dir := Lower(outputDir);
      var frames := EndingWith(extracted, ".png");
      var outputIsDir := !old(wd.Exists(dir)) || old(wd.IsDir(dir));
      var oks := Outcomes(FrameStep(outputIsDir, timestamp, percentage, open, save), frames);
      var names := SavedNames(FrameNames(timestamp), oks, |frames|);
      && frameCount == |names| == |Succeeded(oks, |frames|)|
      && frameCount <= |frames|
      && (!outputIsDir ==> wd.entries == old(wd.entries))
      && (outputIsDir ==>
            var before := if old(wd.Exists(dir)) then old(wd.entries)[dir].children else map[];
            wd.entries == old(wd.entries)[dir := Dir(AddFiles(before, names))])
  {
    var dir := Lower(outputDir);
    ghost var start := wd.entries;
    var existed := wd.Exists(dir);
    if !existed {
      wd.MakeDir(dir);
    }
    var frames := EndingWith(extracted, ".png");
    var step := FrameStep(wd.IsDir(dir), timestamp, percentage, open, save);
    ghost var names := SavedNames(FrameNames(timestamp), Outcomes(step, frames), |frames|);
    ghost var before := if existed && step.outputIsDir then start[dir].children else map[];
    ghost var made := wd.entries;
    frameCount := ResizeFrames(wd, dir, step, frames);
    SavedNamesCount(FrameNames(timestamp), Outcomes(step, frames), |frames|);
    if step.outputIsDir && !existed {
      assert made[dir := Dir(AddFiles(before, names))] == start[dir := Dir(AddFiles(before, names))];
    }
  }

  /** The loop of `parse_video`: one try block per frame, counting the
      frames that were saved. */
  method ResizeFrames(wd: WorkingDir, dir: string, step: FrameStep, frames: seq<string>)
    returns (frameCount: nat)
    requires wd.IsDir(dir) == step.outputIsDir
    modifies wd
    ensures var names := SavedNames(FrameNames(step.timestamp), Outcomes(step, frames), |frames|);
      && frameCount == |names|
      && (!step.outputIsDir ==> wd.entries == old(wd.entries))
      && (step.outputIsDir ==>
            wd.entries == old(wd.entries)[dir := Dir(AddFiles(old(wd.entries)[dir].children, names))])
  {
    ghost var start := wd.entries;
    ghost var before := if step.outputIsDir then start[dir].children else map[];
    ghost var oks := Outcomes(step, frames);
    ghost var written: seq<string> := [];
    ghost var name := FrameNames(step.timestamp);
    frameCount := 0;
    if step.outputIsDir {
      assert start[dir := Dir(before)] == start;
    }
    for i := 0 to |frames|
      invariant wd.IsDir(dir) == step.outputIsDir
      invariant written == SavedNames(name, oks, i)
      invariant frameCount == |written|
      invariant !step.outputIsDir ==> wd.entries == start
      invariant step.outputIsDir ==> wd.entries == start[dir := Dir(AddFiles(before, written))]
    {
      var ok := TryFrame(wd, dir, step, frames, i, name(i));
      if ok {
        AddFilesSnoc(before, written, name(i));
        written := written + [name(i)];
        frameCount := frameCount + 1;
      }
    }
  }

  /** The try block of `parse_video` for the frame at index `i`: open it,
      resize it, save it under its name. Any failure is caught and leaves
      nothing behind. */
  method TryFrame(wd: WorkingDir, dir: string, step: FrameStep, frames: seq<string>, i: nat,
                  ghost saved: string)
    returns (ok: bool)
    requires wd.IsDir(dir) == step.outputIsDir && i < |frames|
    requires saved == FrameName(step.timestamp, i)
    modifies wd
    ensures ok == Outcomes(step, frames)[i]
    ensures ok ==> wd.entries == old(wd.entries)[dir := Dir(old(wd.entries)[dir].children[saved := File])]
    ensures !ok ==> wd.entries == old(wd.entries)
  {
    ok := false;
    var size := step.open(frames[i]);
    if size.Some? {
      var newWidth := ScaledDim(size.value.width, step.percentage);
      var newHeight := ScaledDim(size.value.height, step.percentage);
      var name := FrameName(step.timestamp, i);
      if step.outputIsDir && step.save(name, newWidth, newHeight) {
        wd.WriteFile(dir, name);
        ok := true;
      }
    }
  }

  /** The name of the `__main__` block's output directory. */
  function OutputDirectoryName(timestamp: string): string
  {
    timestamp + "_parsed_frames"
  }

  /** Lower-casing leaves the `__main__` output directory name as it is, so
      the directory `parse_video` creates is the one the caller named. */
  lemma OutputDirectoryNameIsLowerCase(timestamp: string)
    requires IsTimestamp(timestamp)
    ensures Lower(OutputDirectoryName(timestamp)) == OutputDirectoryName(timestamp)
  {
    var s := OutputDirectoryName(timestamp);
    forall i | 0 <= i < |s|
      ensures LowerChar(s[i]) == s[i]
    {
      if i < 8 {
        assert IsDigit(timestamp[..8][i]);
      } else if 8 < i < 15 {
        assert IsDigit(timestamp[9..][i - 9]);
      }
    }
  }

  datatype Error = NoMp4Streams(url: string)

  /** `download_video`'s naming branch: the file is called after the video
      id when a progressive mp4 stream exists; otherwise it raises. */
  function DownloadVideo(url: string, videoId: string, hasStream: bool): (r: Result<string, Error>)
    ensures r.Ok? <==> hasStream
    ensures r.Ok? ==> EndsWith(r.value, ".mp4") && r.value[..|r.value| - 4] == videoId
    ensures r.Err? ==> r.error == NoMp4Streams(url)
  {
    if hasStream then
      EndsWithAppend(videoId, ".mp4");
      Ok(videoId + ".mp4")
    else Err(NoMp4Streams(url))
  }
}
