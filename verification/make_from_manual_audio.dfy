/** The video assembler: picks the latest processed frames directory and an
    audio source, turns the images of that directory into a clip whose
    images share the audio's duration equally, names the output after a
    timestamp, and (in a helper the script does not call) gathers the
    assets of a run into one folder. */
module MakeFromManualAudio {
  import opened Wrappers
  import opened Text
  import opened Sorting
  import opened Files

  const FramesDirSuffix: string := "_processed"
  const OutputVideoPrefix: string := "final_video"

  /** The allowed image extensions, in the order the error message lists
      them. */
  const Extensions: seq<string> := [".jpg", ".jpeg", ".png", ".gif"]

  datatype Error =
    | NoProcessedDirectories
    | NoVideoFiles
    | NoImageFiles(folder: string, extensions: seq<string>)
    | DestinationIsFile(dest: string)
    | VideoAlreadyInDestination(videoFile: string)
    | VideoFileMissing(videoFile: string)
    | OutputVideoNotAFile(outputVideo: string)

  // ---------------------------------------------------------------------
  // Inputs chosen at module level

  /** The frames directory: of the current directory's entries ending in
      "_processed", the one modified last; an error when there is none. */
  function InputFramesDir(listing: seq<string>, mtime: string -> int): (r: Result<string, Error>)
    ensures r.Err? <==> forall n :: n in listing ==> !EndsWith(n, FramesDirSuffix)
    ensures r.Err? ==> r.error == NoProcessedDirectories
    ensures r.Ok? ==> r.value in listing && EndsWith(r.value, FramesDirSuffix)
    ensures r.Ok? ==> forall n :: n in listing && EndsWith(n, FramesDirSuffix) ==> mtime(n) <= mtime(r.value)
  {
    match LastByKey(EndingWith(listing, FramesDirSuffix), mtime)
    case None => Err(NoProcessedDirectories)
    case Some(dir) => Ok(dir)
  }

  /** The audio source: `useThisVideo` (the script's `USE_THIS_VIDEO`
      setting, shipped as "output_video.mp4" and meant to be emptied to fall
      back) when it is non-empty and names an existing file; otherwise the
      ".mp4" entry that `glob` finds and that was modified last; an error
      when there is none. */
  method SelectAudioSource(wd: WorkingDir, useThisVideo: string, mtime: string -> int)
    returns (r: Result<string, Error>)
    ensures useThisVideo != [] && wd.IsFile(useThisVideo) ==> r == Ok(useThisVideo)
    ensures !(useThisVideo != [] && wd.IsFile(useThisVideo)) ==>
      && (r.Err? <==> forall n :: n in wd.entries && Visible(n) ==> !EndsWith(n, ".mp4"))
      && (r.Err? ==> r.error == NoVideoFiles)
      && (r.Ok? ==> r.value in wd.entries && Visible(r.value) && EndsWith(r.value, ".mp4"))
      && (r.Ok? ==> forall n :: n in wd.entries && Visible(n) && EndsWith(n, ".mp4") ==>
                      mtime(n) <= mtime(r.value))
  {
    if useThisVideo != [] && wd.IsFile(useThisVideo) {
      return Ok(useThisVideo);
    }
    var listing := wd.ListRoot();
    var videoFiles := Glob(listing, ".mp4");
    var last := LastByKey(videoFiles, mtime);
    if last.None? {
      return Err(NoVideoFiles);
    }
    r := Ok(last.value);
  }

  /** `f"{timestamp}_{OUTPUT_VIDEO_PREFIX}.mp4"` */
  function OutputVideoName(timestamp: string): string
  {
    timestamp + "_" + OutputVideoPrefix + ".mp4"
  }

  /** Runs at different timestamps of one length write different videos. */
  lemma OutputVideoNameInjective(t1: string, t2: string)
    requires |t1| == |t2| && OutputVideoName(t1) == OutputVideoName(t2)
    ensures t1 == t2
  {
    assert OutputVideoName(t1)[..|t1|] == t1;
    assert OutputVideoName(t2)[..|t2|] == t2;
  }

  /** The output video is itself a name that `glob('*.mp4')` matches: with
      the configured video absent, a later run takes its audio from the
      latest output when that is the newest ".mp4" entry. */
  lemma OutputVideoIsAnAudioCandidate(timestamp: string)
    requires IsTimestamp(timestamp)
    ensures Visible(OutputVideoName(timestamp)) && EndsWith(OutputVideoName(timestamp), ".mp4")
  {
    assert OutputVideoName(timestamp)[0] == timestamp[..8][0];
    EndsWithAppend(timestamp + "_" + OutputVideoPrefix, ".mp4");
  }

  // ---------------------------------------------------------------------
  // `generate_video`: the images and their durations

  /** An image file: the lower-cased extension is one of the allowed ones. */
  predicate IsImage(path: string)
  {
    Lower(Extension(path)) in Extensions
  }

  /** The paths in `folder` of the listed names whose extension marks them
      as images, in listing order. */
  function ImagePaths(folder: string, names: seq<string>): (paths: seq<string>)
    ensures forall p :: p in paths ==> IsImage(p) && exists n :: n in names && p == Join(folder, n)
    ensures forall n :: n in names && IsImage(Join(folder, n)) ==> Join(folder, n) in paths
  {
    if names == [] then []
    else
      var init, last := names[..|names| - 1], names[|names| - 1];
      assert names == init + [last];
      var path := Join(folder, last);
      ImagePaths(folder, init) + (if IsImage(path) then [path] else [])
  }

  /** A path of another folder entry is kept only when it is an image. */
  lemma ImagePathsExact(folder: string, names: seq<string>, n: string)
    requires Join(folder, n) in ImagePaths(folder, names)
    ensures n in names && IsImage(Join(folder, n))
  {
    var m :| m in names && Join(folder, n) == Join(folder, m);
    JoinInjective(folder, n, m);
  }

  /** The image list of `generate_video`: the paths `glob` finds in the
      folder whose extension is allowed, case-insensitively, sorted by
      their base name. `listing` is the folder's entries. */
  function ImageFiles(folder: string, listing: seq<string>): (images: seq<string>)
    ensures multiset(images) == multiset(ImagePaths(folder, Glob(listing, "")))
    ensures SortedBy(images, Basename, LexLe)
  {
    LexLeTotalPreorder();
    SortBySorted(ImagePaths(folder, Glob(listing, "")), Basename, LexLe);
    SortBy(ImagePaths(folder, Glob(listing, "")), Basename, LexLe)
  }

  /** A listed entry's path is among the images exactly when `glob` sees
      it and its extension is allowed; nothing else is. */
  lemma ImageFilesMembers(folder: string, listing: seq<string>)
    ensures forall n :: n in listing ==>
              (Join(folder, n) in ImageFiles(folder, listing) <==> Visible(n) && IsImage(Join(folder, n)))
    ensures forall p :: p in ImageFiles(folder, listing) ==>
              IsImage(p) && exists n :: n in listing && Visible(n) && p == Join(folder, n)
  {
    var images := ImageFiles(folder, listing);
    var names := Glob(listing, "");
    assert forall p :: p in images <==> p in ImagePaths(folder, names) by {
      forall p
        ensures p in images <==> p in ImagePaths(folder, names)
      {
        assert p in images <==> p in multiset(images);
        assert p in ImagePaths(folder, names) <==> p in multiset(ImagePaths(folder, names));
      }
    }
    forall n | n in listing && Join(folder, n) in images
      ensures Visible(n) && IsImage(Join(folder, n))
    {
      ImagePathsExact(folder, names, n);
    }
    forall n | n in listing && Visible(n)
      ensures EndsWith(n, "")
    {
      assert n[|n| - 0..] == [];
    }
  }

  /** The extension test ignores case: "A.PNG" is an image. */
  lemma UpperCaseExtensionIsImage()
    ensures IsImage("frames/A.PNG")
  {
    var path := "frames/A.PNG";
    assert path[6] == '/' && forall i :: 6 < i < |path| ==> path[i] != '/';
    assert path[8] == '.' && forall i :: 8 < i < |path| ==> path[i] != '.';
    assert LastIndexOf(path, '/') == 6 && LastIndexOf(path, '.') == 8 && path[7] != '.';
    assert Extension(path) == ".PNG";
    assert Lower(".PNG") == ".png";
  }

  lemma ExtensionOfWebp()
    ensures Extension("frames/a.webp") == ".webp"
  {
    var path := "frames/a.webp";
    assert path[6] == '/' && forall i :: 6 < i < |path| ==> path[i] != '/';
    assert path[8] == '.' && forall i :: 8 < i < |path| ==> path[i] != '.';
    assert LastIndexOf(path, '/') == 6 && LastIndexOf(path, '.') == 8 && path[7] != '.';
  }

  lemma ExtensionOfBareName()
    ensures Extension("frames/png") == []
  {
    var bare := "frames/png";
    assert forall i :: 0 <= i < |bare| ==> bare[i] != '.';
  }

  /** Other extensions, and names without one, are not images. */
  lemma OtherExtensionsAreNotImages()
    ensures !IsImage("frames/a.webp")
    ensures !IsImage("frames/png")
  {
    ExtensionOfWebp();
    ExtensionOfBareName();
    assert Lower(".webp")[1] == 'w';
  }

  /** What `generate_video` hands to the clip: the image paths and one
      display duration per image. */
  datatype Clip = Clip(images: seq<string>, durations: seq<real>)

  /** `generate_video` up to the encoder: the images of `folder` (whose
      entries are `listing`), each shown for an equal share of the audio's
      duration; an error naming the folder and the allowed extensions when
      there is no image. */
  function GenerateVideo(folder: string, listing: seq<string>, audioDuration: real): (r: Result<Clip, Error>)
    ensures r.Err? <==> ImageFiles(folder, listing) == []
    ensures r.Err? ==> r.error == NoImageFiles(folder, Extensions)
    ensures r.Ok? ==> r.value.images == ImageFiles(folder, listing)
    ensures r.Ok? ==> |r.value.durations| == |r.value.images|
    ensures r.Ok? ==> forall i :: 0 <= i < |r.value.durations| ==>
                        r.value.durations[i] == audioDuration / |r.value.images| as real
  {
    var images := ImageFiles(folder, listing);
    if images == [] then Err(NoImageFiles(folder, Extensions))
    else
      var imageDuration := audioDuration / |images| as real;
      Ok(Clip(images, seq(|images|, _ => imageDuration)))
  }

  function Total(ds: seq<real>): real
  {
    if ds == [] then 0.0 else ds[0] + Total(ds[1..])
  }

  lemma {:induction false} TotalOfEqual(ds: seq<real>, d: real)
    requires forall i :: 0 <= i < |ds| ==> ds[i] == d
    ensures Total(ds) == |ds| as real * d
  {
    if ds != [] {
      TotalOfEqual(ds[1..], d);
    }
  }

  /** The image durations add up to the audio's duration, so the clip is
      exactly as long as the audio. */
  lemma DurationsCoverAudio(folder: string, listing: seq<string>, audioDuration: real)
    requires GenerateVideo(folder, listing, audioDuration).Ok?
    ensures Total(GenerateVideo(folder, listing, audioDuration).value.durations) == audioDuration
  {
    var clip := GenerateVideo(folder, listing, audioDuration).value;
    EqualSharesTotal(clip.durations, audioDuration);
  }

  /** Equal shares of a total add up to the total. */
  lemma EqualSharesTotal(ds: seq<real>, total: real)
    requires |ds| > 0 && forall i :: 0 <= i < |ds| ==> ds[i] == total / |ds| as real
    ensures Total(ds) == total
  {
    TotalOfEqual(ds, total / |ds| as real);
    ShareTimesCount(|ds| as real, total);
  }

  lemma ShareTimesCount(n: real, total: real)
    requires n > 0.0
    ensures n * (total / n) == total
  {
  }

  // ---------------------------------------------------------------------
  // `move_assets_to_single_folder`

  /** Entries that belong to a run's assets: frame and processed-frame
      directories. */
  predicate IsAsset(name: string)
  {
    EndsWith(name, "_frames") || EndsWith(name, "_processed")
  }

  /** `f"{video_id}_{stamp}"` with the video id taken as the text before
      the first underscore of the video file's name. */
  function DestinationFolder(videoFile: string, stamp: string): string
  {
    BeforeFirst(videoFile, '_') + "_" + stamp
  }

  /** Splitting the destination at its first underscore gives back the
      video id. */
  lemma DestinationKeepsVideoId(videoFile: string, stamp: string)
    ensures BeforeFirst(DestinationFolder(videoFile, stamp), '_') == BeforeFirst(videoFile, '_')
  {
    BeforeFirstOfJoined(BeforeFirst(videoFile, '_'), '_', stamp);
  }

  /** A destination stamped with a timestamp ends in a digit, so it is not
      itself one of the assets. */
  lemma DestinationIsNotAsset(videoFile: string, stamp: string)
    requires IsTimestamp(stamp)
    ensures !IsAsset(DestinationFolder(videoFile, stamp))
  {
    var dest := DestinationFolder(videoFile, stamp);
    assert dest[|dest| - 1] == stamp[9..][5];
  }

  /** `os.makedirs(dest)` when `dest` does not exist yet. */
  function Made(e: map<string, Node>, dest: string): map<string, Node>
  {
    if dest in e then e else e[dest := Dir(map[])]
  }

  /** The entries after each name of `moved` has left the top level for
      the directory `dest`, replacing an entry of the same name there. */
  function GatherSet(e: map<string, Node>, moved: set<string>, dest: string): map<string, Node>
    requires dest in e && e[dest].Dir?
  {
    (e - moved)[dest := Dir(e[dest].children + map n | n in moved && n in e :: e[n])]
  }

  function AssetNames(e: map<string, Node>): set<string>
  {
    set n | n in e && IsAsset(n)
  }

  /** The entries after every asset has been moved into `dest`. */
  function Gathered(e: map<string, Node>, dest: string): map<string, Node>
    requires dest in e && e[dest].Dir?
  {
    GatherSet(e, AssetNames(e), dest)
  }

  lemma GatherSetEmpty(e: map<string, Node>, dest: string)
    requires dest in e && e[dest].Dir?
    ensures GatherSet(e, {}, dest) == e
  {
    var none: set<string> := {};
    assert (map n | n in none && n in e :: e[n]) == map[];
    assert e[dest].children + map[] == e[dest].children;
  }

  /** Moving one more name into `dest` is one `shutil.move`. */
  lemma GatherSetStep(e: map<string, Node>, moved: set<string>, dest: string, n: string)
    requires dest in e && e[dest].Dir? && dest !in moved
    requires n in e && n !in moved && n != dest
    ensures var g := GatherSet(e, moved, dest);
      && n in g && dest in g && g[dest].Dir? && g[n] == e[n]
      && (g - {n})[dest := Dir(g[dest].children[n := g[n]])] == GatherSet(e, moved + {n}, dest)
  {
    var g := GatherSet(e, moved, dest);
    var before := map m | m in moved && m in e :: e[m];
    var after := map m | m in moved + {n} && m in e :: e[m];
    assert after == before[n := e[n]];
    assert (e[dest].children + before)[n := e[n]] == e[dest].children + after;
    assert (g - {n}) - {dest} == (e - (moved + {n})) - {dest};
  }

  /** The assets among the names of a listing. */
  ghost function AssetsIn(listing: seq<string>): set<string>
  {
    if listing == [] then {}
    else
      var last := listing[|listing| - 1];
      AssetsIn(listing[..|listing| - 1]) + (if IsAsset(last) then {last} else {})
  }

  lemma {:induction false} AssetsInMembers(listing: seq<string>)
    ensures forall n :: n in AssetsIn(listing) <==> n in listing && IsAsset(n)
  {
    if listing != [] {
      var init := listing[..|listing| - 1];
      AssetsInMembers(init);
      assert listing == init + [listing[|listing| - 1]];
    }
  }

  /** The next name of a listing without repetitions has not been moved
      yet, and moving it when it is an asset extends the moved set. */
  lemma AssetsInNext(listing: seq<string>, i: nat)
    requires Distinct(listing) && i < |listing|
    ensures listing[i] !in AssetsIn(listing[..i])
    ensures AssetsIn(listing[..i + 1]) ==
            AssetsIn(listing[..i]) + (if IsAsset(listing[i]) then {listing[i]} else {})
  {
    assert listing[..i + 1][..i] == listing[..i];
    AssetsInMembers(listing[..i]);
  }

  /** The loop of `move_assets_to_single_folder`: every entry of a snapshot
      listing whose name marks it as an asset is moved into `dest`. The
      result does not depend on the listing's order. */
  method GatherAssets(wd: WorkingDir, dest: string)
    requires wd.IsDir(dest) && !IsAsset(dest)
    modifies wd
    ensures wd.entries == Gathered(old(wd.entries), dest)
  {
    var listing := wd.ListRoot();
    ghost var start := wd.entries;
    ghost var moved: set<string> := {};
    GatherSetEmpty(start, dest);
    for i := 0 to |listing|
      invariant moved == AssetsIn(listing[..i])
      invariant dest !in moved
      invariant wd.entries == GatherSet(start, moved, dest)
    {
      var name := listing[i];
      AssetsInNext(listing, i);
      if IsAsset(name) {
        GatherSetStep(start, moved, dest, name);
        wd.MoveInto(name, dest);
        moved := moved + {name};
      }
    }
    assert listing[..|listing|] == listing;
    AssetsInMembers(listing);
    assert moved == AssetNames(start);
  }

  /** The outcome of gathering a run's assets: the result and the entries
      of the current directory afterwards. */
  datatype Gathering = Gathering(result: Result<string, Error>, entries: map<string, Node>)

  /** `move_assets_to_single_folder(video_file, output_video)` on the
      entries `e`: create the destination when absent, move the assets
      into it, move the video file into it, copy the output video into it.
      Each failing step stops the run and keeps the changes made so far. */
  function Consolidated(e: map<string, Node>, videoFile: string, outputVideo: string, stamp: string): Gathering
  {
    var dest := DestinationFolder(videoFile, stamp);
    if dest in e && e[dest].File? then Gathering(Err(DestinationIsFile(dest)), e)
    else
      var g := Gathered(Made(e, dest), dest);
      if videoFile != dest && videoFile in g[dest].children then
        Gathering(Err(VideoAlreadyInDestination(videoFile)), g)
      else if videoFile != dest && videoFile !in g then
        Gathering(Err(VideoFileMissing(videoFile)), g)
      else
        var v := if videoFile == dest then g
                 else (g - {videoFile})[dest := Dir(g[dest].children[videoFile := g[videoFile]])];
        if outputVideo !in v || !v[outputVideo].File? then
          Gathering(Err(OutputVideoNotAFile(outputVideo)), v)
        else
          Gathering(Ok(dest), v[dest := Dir(v[dest].children[outputVideo := File])])
  }

  /** `move_assets_to_single_folder`; `stamp` is the time of the call. */
  method MoveAssets(wd: WorkingDir, videoFile: string, outputVideo: string, stamp: string)
    returns (r: Result<string, Error>)
    requires IsTimestamp(stamp)
    modifies wd
    ensures Gathering(r, wd.entries) == Consolidated(old(wd.entries), videoFile, outputVideo, stamp)
  {
    var dest := DestinationFolder(videoFile, stamp);
    if wd.IsFile(dest) {
      return Err(DestinationIsFile(dest));
    }
    if !wd.Exists(dest) {
      wd.MakeDir(dest);
    }
    DestinationIsNotAsset(videoFile, stamp);
    GatherAssets(wd, dest);
    if videoFile != dest {
      if videoFile in wd.entries[dest].children {
        return Err(VideoAlreadyInDestination(videoFile));
      }
      if !wd.Exists(videoFile) {
        return Err(VideoFileMissing(videoFile));
      }
      wd.MoveInto(videoFile, dest);
    }
    if !wd.IsFile(outputVideo) {
      return Err(OutputVideoNotAFile(outputVideo));
    }
    wd.CopyInto(outputVideo, dest);
    r := Ok(dest);
  }

  /** After a successful run no asset is left at the top level and each
      sits in the destination as it was; the video file has moved there;
      the output video stays and has a copy there; every other entry is
      untouched. (When the video file's name is the destination itself,
      `shutil.move` leaves it in place.) */
  lemma ConsolidatedContents(e: map<string, Node>, videoFile: string, outputVideo: string, stamp: string)
    requires IsTimestamp(stamp)
    requires Consolidated(e, videoFile, outputVideo, stamp).result.Ok?
    ensures var after := Consolidated(e, videoFile, outputVideo, stamp).entries;
      var dest := DestinationFolder(videoFile, stamp);
      && dest in after && after[dest].Dir?
      && (forall n :: n in after ==> !IsAsset(n))
      && (forall n :: n in e && IsAsset(n) ==> n in after[dest].children && after[dest].children[n] == e[n])
      && (videoFile != dest ==> videoFile !in after && after[dest].children[videoFile] == e[videoFile])
      && outputVideo in after && after[outputVideo] == File
      && after[dest].children[outputVideo] == File
      && (forall n :: n in e && !IsAsset(n) && n != dest && n != videoFile ==> n in after && after[n] == e[n])
  {
    var dest := DestinationFolder(videoFile, stamp);
    DestinationIsNotAsset(videoFile, stamp);
    var g := Gathered(Made(e, dest), dest);
  }
}
