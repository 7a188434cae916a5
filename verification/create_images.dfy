/** The frame stylizer: picks the most recently modified directory as its
    input, prepares an empty "_processed" directory next to it, and runs
    every ".png" frame of the input, in the order of the lower-cased paths,
    through an image-editing model, saving each result under a 1-based
    index. */
module CreateImages {
  import opened Wrappers
  import opened Text
  import opened Sorting
  import opened Files

  const OutputSuffix: string := "_processed"

  datatype Error =
    | NoDirectories
    | OutputNotEmpty(dir: string)
    | NotADirectory(dir: string)

  // ---------------------------------------------------------------------
  // Module-level setup

  /** The entries of a listing that are directories, in listing order:
      `filter(os.path.isdir, listing)`. */
  function Directories(entries: map<string, Node>, listing: seq<string>): (dirs: seq<string>)
    ensures forall n :: n in dirs <==> n in listing && n in entries && entries[n].Dir?
  {
    if listing == [] then []
    else
      var init, last := listing[..|listing| - 1], listing[|listing| - 1];
      assert listing == init + [last];
      Directories(entries, init) + (if last in entries && entries[last].Dir? then [last] else [])
  }

  /** The input directory: of the directories in the current directory, the
      one modified last; an error when there is none. */
  method SelectInputDir(wd: WorkingDir, mtime: string -> int) returns (r: Result<string, Error>)
    ensures r.Err? <==> forall n :: n in wd.entries ==> !wd.entries[n].Dir?
    ensures r.Err? ==> r.error == NoDirectories
    ensures r.Ok? ==> wd.IsDir(r.value)
    ensures r.Ok? ==> forall n :: wd.IsDir(n) ==> mtime(n) <= mtime(r.value)
  {
    var listing := wd.ListRoot();
    var dirs := Directories(wd.entries, listing);
    var last := LastByKey(dirs, mtime);
    if last.None? {
      return Err(NoDirectories);
    }
    r := Ok(last.value);
  }

  /** `OUTPUT_DIR`: the input directory's name with "_processed" added. */
  function OutputDirFor(inputDir: string): string
  {
    inputDir + OutputSuffix
  }

  /** The output directory is never the input directory, and its name marks
      it as processed frames, which is what the video assembler looks for. */
  lemma OutputDirIsProcessed(inputDir: string)
    ensures OutputDirFor(inputDir) != inputDir
    ensures EndsWith(OutputDirFor(inputDir), "_processed")
  {
    assert |OutputDirFor(inputDir)| == |inputDir| + 10;
    EndsWithAppend(inputDir, OutputSuffix);
  }

  /** The check on the output directory before any frame is processed: a
      non-empty directory is an error; an empty one is removed and created
      again; an absent one is created. A file of that name makes listing
      it fail. */
  method PrepareOutputDir(wd: WorkingDir, outputDir: string) returns (r: Result<string, Error>)
    modifies wd
    ensures old(wd.IsFile(outputDir)) ==> r == Err(NotADirectory(outputDir)) && wd.entries == old(wd.entries)
    ensures old(wd.IsDir(outputDir)) && old(wd.entries)[outputDir].children != map[] ==>
              r == Err(OutputNotEmpty(outputDir)) && wd.entries == old(wd.entries)
    ensures !old(wd.IsFile(outputDir)) && !(old(wd.IsDir(outputDir)) && old(wd.entries)[outputDir].children != map[]) ==>
              r == Ok(outputDir) && wd.entries == old(wd.entries)[outputDir := Dir(map[])]
    ensures r.Ok? ==> wd.IsDir(outputDir) && wd.entries[outputDir].children == map[]
  {
    if wd.Exists(outputDir) {
      if wd.IsFile(outputDir) {
        return Err(NotADirectory(outputDir));
      }
      var listing := wd.ListDir(outputDir);
      if listing != [] {
        assert listing[0] in wd.entries[outputDir].children;
        return Err(OutputNotEmpty(outputDir));
      }
      assert wd.entries[outputDir].children == map[] by {
        assert forall n :: n !in wd.entries[outputDir].children;
      }
      wd.RemoveDir(outputDir);
    }
    wd.MakeDir(outputDir);
    r := Ok(outputDir);
  }

  // ---------------------------------------------------------------------
  // `process_images`

  /** The paths `glob` returns for the pattern "*.png" inside `folder`,
      for the listed names: one path per matched name, in listing order,
      and no path twice when the listing names every entry once. */
  function PngPaths(folder: string, listing: seq<string>): (paths: seq<string>)
    ensures |paths| == |Glob(listing, ".png")|
    ensures forall i :: 0 <= i < |paths| ==> paths[i] == Join(folder, Glob(listing, ".png")[i])
    ensures Distinct(listing) ==> Distinct(paths)
  {
    var names := Glob(listing, ".png");
    var paths := seq(|names|, i requires 0 <= i < |names| => Join(folder, names[i]));
    assert Distinct(listing) ==> Distinct(paths) by {
      if Distinct(listing) {
        GlobKeepsDistinct(listing, ".png");
        forall i, j | 0 <= i < j < |paths|
          ensures paths[i] != paths[j]
        {
          if paths[i] == paths[j] {
            JoinInjective(folder, names[i], names[j]);
          }
        }
      }
    }
    paths
  }

  /** A listed entry's path is matched exactly when its name does not start
      with a dot and ends in ".png" (case-sensitively). */
  lemma PngPathsMembers(folder: string, listing: seq<string>)
    ensures forall n :: n in listing ==>
              (Join(folder, n) in PngPaths(folder, listing) <==> Visible(n) && EndsWith(n, ".png"))
  {
    var names := Glob(listing, ".png");
    var paths := PngPaths(folder, listing);
    forall n | n in listing && Join(folder, n) in paths
      ensures Visible(n) && EndsWith(n, ".png")
    {
      var i :| 0 <= i < |paths| && paths[i] == Join(folder, n);
      JoinInjective(folder, n, names[i]);
    }
    forall n | n in listing && Visible(n) && EndsWith(n, ".png")
      ensures Join(folder, n) in paths
    {
      var i :| 0 <= i < |names| && names[i] == n;
      assert paths[i] == Join(folder, n);
    }
  }

  /** The processing order: the matched paths sorted by their lower-cased
      text; paths equal up to case keep their `glob` order. */
  function ProcessingOrder(folder: string, listing: seq<string>): (paths: seq<string>)
    ensures multiset(paths) == multiset(PngPaths(folder, listing))
    ensures SortedBy(paths, Lower, LexLe)
    ensures Distinct(listing) ==> Distinct(paths)
  {
    LexLeTotalPreorder();
    var matched := PngPaths(folder, listing);
    SortBySorted(matched, Lower, LexLe);
    var paths := SortBy(matched, Lower, LexLe);
    if Distinct(listing) then
      DistinctPermutation(paths, matched);
      paths
    else paths
  }

  /** `f"{timestamp}_{idx+1:04d}.png"`: the output name at 0-based
      position `idx`. */
  function OutputName(timestamp: string, idx: nat): string
  {
    timestamp + "_" + ZeroPad(idx + 1, 4) + ".png"
  }

  /** Outputs at different positions get different names whenever the
      timestamps have one length, even when they are read in the same
      second. */
  lemma OutputNameInjective(t1: string, i: nat, t2: string, j: nat)
    requires |t1| == |t2| && OutputName(t1, i) == OutputName(t2, j)
    ensures i == j && t1 == t2
  {
    var a, b := OutputName(t1, i), OutputName(t2, j);
    var pi, pj := ZeroPad(i + 1, 4), ZeroPad(j + 1, 4);
    assert |pi| == |pj|;
    var k := |t1| + 1;
    assert a[k..k + |pi|] == pi;
    assert b[k..k + |pj|] == pj;
    ZeroPadInjective(i + 1, j + 1, 4);
    assert a[..|t1|] == t1;
    assert b[..|t2|] == t2;
  }

  /** The names written by the first `n` positions; `clock(k)` is the
      timestamp read at position `k`. */
  function OutputNames(clock: nat -> string, n: nat): (names: seq<string>)
    ensures |names| == n
  {
    if n == 0 then [] else OutputNames(clock, n - 1) + [OutputName(clock(n - 1), n - 1)]
  }

  /** One distinct output per processed frame when every timestamp has the
      `%Y%m%d_%H%M%S` shape. */
  lemma {:induction false} OutputNamesDistinct(clock: nat -> string, n: nat)
    requires forall k: nat :: k < n ==> IsTimestamp(clock(k))
    ensures Distinct(OutputNames(clock, n))
  {
    if n > 0 {
      OutputNamesDistinct(clock, n - 1);
      var names := OutputNames(clock, n);
      assert names[..n - 1] == OutputNames(clock, n - 1);
      forall i, j | 0 <= i < j < n
        ensures names[i] != names[j]
      {
        if j < n - 1 {
          assert names[i] == OutputNames(clock, n - 1)[i];
          assert names[j] == OutputNames(clock, n - 1)[j];
        } else {
          OutputNamesAt(clock, n, i);
          OutputNamesAt(clock, n, j);
          if names[i] == names[j] {
            OutputNameInjective(clock(i), i, clock(j), j);
          }
        }
      }
    }
  }

  lemma {:induction false} OutputNamesPrefix(clock: nat -> string, n: nat, k: nat)
    requires k <= n
    ensures OutputNames(clock, n)[..k] == OutputNames(clock, k)
  {
    if k < n {
      OutputNamesPrefix(clock, n - 1, k);
      assert OutputNames(clock, n)[..k] == OutputNames(clock, n - 1)[..k];
    } else {
      assert OutputNames(clock, n)[..n] == OutputNames(clock, n);
    }
  }

  lemma {:induction false} OutputNamesAt(clock: nat -> string, n: nat, k: nat)
    requires k < n
    ensures OutputNames(clock, n)[k] == OutputName(clock(k), k)
  {
    if k < n - 1 {
      OutputNamesAt(clock, n - 1, k);
    }
  }

  /** `process_images(input_dir, output_dir, ...)`. The frames are the
      ".png" paths of `inputDir`, in the order of `ProcessingOrder`;
      `render(path)` tells whether opening the frame, running the model
      and saving the result succeed, and `clock(idx)` is the timestamp read
      at position `idx`. The first failure ends the run; each success
      writes one file into `outputDir` and logs the images remaining. */
  method ProcessImages(wd: WorkingDir, inputDir: string, outputDir: string,
                       clock: nat -> string, render: string -> bool)
    returns (paths: seq<string>, completed: nat, remaining: seq<int>)
    modifies wd
    ensures var children := if old(wd.IsDir(inputDir)) then old(wd.entries)[inputDir].children else map[];
      && (forall n :: n in children ==>
            (Join(inputDir, n) in paths <==> Visible(n) && EndsWith(n, ".png")))
      && (forall p :: p in paths ==> exists n :: n in children && p == Join(inputDir, n))
      && SortedBy(paths, Lower, LexLe)
    ensures Distinct(paths)
    ensures completed <= |paths|
    ensures completed > 0 ==> old(wd.IsDir(outputDir))
    ensures forall k :: 0 <= k < completed ==> render(paths[k])
    ensures completed < |paths| ==> !(old(wd.IsDir(outputDir)) && render(paths[completed]))
    ensures |remaining| == completed
    ensures forall k :: 0 <= k < completed ==> remaining[k] == |paths| - (k + 1)
    ensures !old(wd.IsDir(outputDir)) ==> wd.entries == old(wd.entries)
    ensures old(wd.IsDir(outputDir)) ==>
              wd.entries == old(wd.entries)[outputDir := Dir(AddFiles(old(wd.entries)[outputDir].children,
                                                                       OutputNames(clock, completed)))]
  {
    var listing: seq<string> := [];
    if wd.IsDir(inputDir) {
      listing := wd.ListDir(inputDir);
    }
    paths := ProcessingOrder(inputDir, listing);
    PathsOfListing(inputDir, listing, paths);
    var succeeds := seq(|paths|, i requires 0 <= i < |paths| => render(paths[i]));
    assert forall k :: 0 <= k < |paths| ==> succeeds[k] == render(paths[k]);
    completed, remaining := StylizeFrames(wd, outputDir, paths, succeeds, clock);
  }

  /** The loop of `process_images` over the ordered frame paths;
      `succeeds[k]` tells whether the steps for `paths[k]` succeed. */
  method StylizeFrames(wd: WorkingDir, outputDir: string, paths: seq<string>, succeeds: seq<bool>,
                       clock: nat -> string)
    returns (completed: nat, remaining: seq<int>)
    requires |succeeds| == |paths|
    modifies wd
    ensures completed <= |paths|
    ensures completed > 0 ==> old(wd.IsDir(outputDir))
    ensures forall k :: 0 <= k < completed ==> succeeds[k]
    ensures completed < |paths| ==> !(old(wd.IsDir(outputDir)) && succeeds[completed])
    ensures |remaining| == completed
    ensures forall k :: 0 <= k < completed ==> remaining[k] == |paths| - (k + 1)
    ensures !old(wd.IsDir(outputDir)) ==> wd.entries == old(wd.entries)
    ensures old(wd.IsDir(outputDir)) ==>
              wd.entries == old(wd.entries)[outputDir := Dir(AddFiles(old(wd.entries)[outputDir].children,
                                                                       OutputNames(clock, completed)))]
  {
    completed, remaining := 0, [];
    if wd.IsDir(outputDir) {
      var names := OutputNames(clock, |paths|);
      completed, remaining := SaveOutputs(wd, outputDir, names, succeeds);
      OutputNamesPrefix(clock, |paths|, completed);
    }
  }

  /** The loop body of `process_images` once the output directory exists:
      the output for position `k` is saved under `names[k]` while the steps
      keep succeeding. */
  method SaveOutputs(wd: WorkingDir, outputDir: string, names: seq<string>, succeeds: seq<bool>)
    returns (completed: nat, remaining: seq<int>)
    requires |succeeds| == |names| && wd.IsDir(outputDir)
    modifies wd
    ensures completed <= |names|
    ensures forall k :: 0 <= k < completed ==> succeeds[k]
    ensures completed < |names| ==> !succeeds[completed]
    ensures |remaining| == completed
    ensures forall k :: 0 <= k < completed ==> remaining[k] == |names| - (k + 1)
    ensures wd.entries == old(wd.entries)[outputDir := Dir(AddFiles(old(wd.entries)[outputDir].children,
                                                                     names[..completed]))]
  {
    ghost var start := wd.entries;
    ghost var before := start[outputDir].children;
    assert start[outputDir := Dir(before)] == start;
    completed, remaining := 0, [];
    // an exception in any step ends the run
    while completed < |names| && succeeds[completed]
      invariant completed <= |names|
      invariant wd.IsDir(outputDir)
      invariant false !in succeeds[..completed]
      invariant |remaining| == completed
      invariant forall k :: 0 <= k < completed ==> remaining[k] == |names| - (k + 1)
      invariant wd.entries == start[outputDir := Dir(AddFiles(before, names[..completed]))]
    {
      var name := names[completed];
      AddFilesSnoc(before, names[..completed], name);
      assert names[..completed + 1] == names[..completed] + [name];
      assert succeeds[..completed + 1] == succeeds[..completed] + [succeeds[completed]];
      wd.WriteFile(outputDir, name);
      remaining := remaining + [|names| - (completed + 1)];
      completed := completed + 1;
    }
    assert forall k :: 0 <= k < completed ==> succeeds[..completed][k] == succeeds[k];
  }

  // ---------------------------------------------------------------------
  // The script as a whole

  /** What a run that got past the setup did: the directories it used, the
      ordered frame paths and how many of them were stylized before the
      first failure (all of them when none failed). */
  datatype Summary = Summary(inputDir: string, outputDir: string, paths: seq<string>, completed: nat)

  /** The module-level code: choose the input, prepare the output, then
      `process_images`, whose exceptions are caught and reported. A setup
      error leaves the working directory as it was; otherwise the output
      directory holds exactly the saved outputs. */
  method Run(wd: WorkingDir, mtime: string -> int, clock: nat -> string, render: string -> bool)
    returns (r: Result<Summary, Error>)
    modifies wd
    ensures r == Err(NoDirectories) <==> forall n :: n in old(wd.entries) ==> !old(wd.entries)[n].Dir?
    ensures r.Err? ==> wd.entries == old(wd.entries)
    ensures r.Err? && r.error.OutputNotEmpty? ==>
              old(wd.IsDir(r.error.dir)) && old(wd.entries)[r.error.dir].children != map[]
    ensures r.Err? && r.error.NotADirectory? ==> old(wd.IsFile(r.error.dir))
    ensures r.Err? && r.error != NoDirectories ==> EndsWith(r.error.dir, OutputSuffix)
    ensures r.Err? && r.error != NoDirectories ==>
              exists d :: old(wd.IsDir(d)) && (forall n :: old(wd.IsDir(n)) ==> mtime(n) <= mtime(d)) &&
                          r.error.dir == OutputDirFor(d)
    ensures r.Ok? ==> !old(wd.IsFile(r.value.outputDir))
    ensures r.Ok? ==> !(old(wd.IsDir(r.value.outputDir)) && old(wd.entries)[r.value.outputDir].children != map[])
    ensures r.Ok? ==> old(wd.IsDir(r.value.inputDir))
    ensures r.Ok? ==> forall n :: old(wd.IsDir(n)) ==> mtime(n) <= mtime(r.value.inputDir)
    ensures r.Ok? ==> r.value.outputDir == OutputDirFor(r.value.inputDir)
    ensures r.Ok? ==> r.value.completed <= |r.value.paths|
    ensures r.Ok? ==> forall k :: 0 <= k < r.value.completed ==> render(r.value.paths[k])
    ensures r.Ok? && r.value.completed < |r.value.paths| ==> !render(r.value.paths[r.value.completed])
    ensures r.Ok? ==> forall n :: n in old(wd.entries)[r.value.inputDir].children ==>
              (Join(r.value.inputDir, n) in r.value.paths <==> Visible(n) && EndsWith(n, ".png"))
    ensures r.Ok? ==> forall p :: p in r.value.paths ==>
              exists n :: n in old(wd.entries)[r.value.inputDir].children && p == Join(r.value.inputDir, n)
    ensures r.Ok? ==> SortedBy(r.value.paths, Lower, LexLe) && Distinct(r.value.paths)
    ensures r.Ok? ==> wd.IsDir(r.value.outputDir)
    ensures r.Ok? ==> wd.entries[r.value.outputDir].children == AddFiles(map[], OutputNames(clock, r.value.completed))
    ensures r.Ok? ==> forall n :: n in old(wd.entries) && n != r.value.outputDir ==>
              n in wd.entries && wd.entries[n] == old(wd.entries)[n]
    ensures r.Ok? ==> forall n :: n in wd.entries ==> n in old(wd.entries) || n == r.value.outputDir
  {
    var input := SelectInputDir(wd, mtime);
    if input.Err? {
      return Err(input.error);
    }
    var inputDir := input.value;
    var outputDir := OutputDirFor(inputDir);
    OutputDirIsProcessed(inputDir);
    var prepared := PrepareOutputDir(wd, outputDir);
    if prepared.Err? {
      return Err(prepared.error);
    }
    var paths, completed, remaining := ProcessImages(wd, inputDir, outputDir, clock, render);
    r := Ok(Summary(inputDir, outputDir, paths, completed));
  }

  /** After `n` frames the fresh output directory holds `n` files, one per
      position, named by that position and the timestamp read there. */
  lemma OutputDirContents(clock: nat -> string, n: nat)
    requires forall k: nat :: k < n ==> IsTimestamp(clock(k))
    ensures var saved := AddFiles(map[], OutputNames(clock, n));
      && |saved.Keys| == n
      && (forall m :: m in saved ==> saved[m] == File)
      && (forall m :: m in saved <==> exists k: nat :: k < n && m == OutputName(clock(k), k))
  {
    var names := OutputNames(clock, n);
    var saved := AddFiles(map[], names);
    AddFilesContents(map[], names);
    OutputNamesDistinct(clock, n);
    DistinctCount(names);
    forall m
      ensures m in saved <==> exists k: nat :: k < n && m == OutputName(clock(k), k)
    {
      if m in saved {
        var k :| 0 <= k < n && names[k] == m;
        OutputNamesAt(clock, n, k);
      }
      if exists k: nat :: k < n && m == OutputName(clock(k), k) {
        var k: nat :| k < n && m == OutputName(clock(k), k);
        OutputNamesAt(clock, n, k);
        assert names[k] == m;
      }
    }
  }

  /** The sorted paths are those of the listed ".png" entries. */
  lemma PathsOfListing(folder: string, listing: seq<string>, paths: seq<string>)
    requires multiset(paths) == multiset(PngPaths(folder, listing))
    ensures forall n :: n in listing ==> (Join(folder, n) in paths <==> Visible(n) && EndsWith(n, ".png"))
    ensures forall p :: p in paths ==> exists n :: n in listing && p == Join(folder, n)
  {
    PngPathsMembers(folder, listing);
    var names := Glob(listing, ".png");
    forall p
      ensures p in paths <==> p in PngPaths(folder, listing)
    {
      assert p in paths <==> p in multiset(paths);
      assert p in PngPaths(folder, listing) <==> p in multiset(PngPaths(folder, listing));
    }
    forall p | p in paths
      ensures exists n :: n in listing && p == Join(folder, n)
    {
      var i :| 0 <= i < |PngPaths(folder, listing)| && PngPaths(folder, listing)[i] == p;
      assert names[i] in listing;
    }
  }

  /** The remaining count drops by one per processed frame and reaches 0
      after the last one. */
  lemma RemainingCountsDown(remaining: seq<int>, total: nat)
    requires forall k :: 0 <= k < |remaining| ==> remaining[k] == total - (k + 1)
    ensures forall k :: 0 < k < |remaining| ==> remaining[k] == remaining[k - 1] - 1
    ensures |remaining| == total && total > 0 ==> remaining[|remaining| - 1] == 0
    ensures forall k :: 0 <= k < |remaining| && |remaining| <= total ==> remaining[k] >= 0
  {
  }
}
