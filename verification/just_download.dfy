/** The best-format downloader: among the renditions yt-dlp lists for a
    video, pick the one with the greatest integer height and download only
    that one, to a fixed file name. */
module JustDownload {
  import opened Wrappers

  /** The value under a format's 'height' key: missing or None, an integer,
      or a value of some other type. */
  datatype Height = NoHeight | IntHeight(n: int) | OtherHeight

  /** One entry of the 'formats' list; keys that may be absent are options. */
  datatype Format = Format(formatId: Option<string>, ext: Option<string>, height: Height)

  /** A format that can win the selection: its height is an integer above
      the starting best resolution of 0. */
  predicate Eligible(f: Format)
  {
    f.height.IntHeight? && f.height.n > 0
  }

  /** The greatest integer height in `fs`, or 0 when no integer height is
      above 0. */
  function MaxHeight(fs: seq<Format>): (m: int)
    ensures m >= 0
  {
    if fs == [] then 0
    else
      var m := MaxHeight(fs[..|fs| - 1]);
      var h := fs[|fs| - 1].height;
      if h.IntHeight? && h.n > m then h.n else m
  }

  /** `MaxHeight` bounds every integer height, is attained when positive,
      and is 0 exactly when no format is eligible. */
  lemma {:induction false} MaxHeightSpec(fs: seq<Format>)
    ensures forall i :: 0 <= i < |fs| && fs[i].height.IntHeight? ==> fs[i].height.n <= MaxHeight(fs)
    ensures MaxHeight(fs) > 0 ==> exists i :: 0 <= i < |fs| && fs[i].height == IntHeight(MaxHeight(fs))
    ensures MaxHeight(fs) == 0 <==> forall i :: 0 <= i < |fs| ==> !Eligible(fs[i])
  {
    if fs != [] {
      var init := fs[..|fs| - 1];
      MaxHeightSpec(init);
      assert forall i :: 0 <= i < |init| ==> fs[i] == init[i];
      if MaxHeight(fs) > 0 && MaxHeight(fs) == MaxHeight(init) {
        var i :| 0 <= i < |init| && init[i].height == IntHeight(MaxHeight(init));
        assert fs[i] == init[i];
      }
    }
  }

  /** The first index whose height is the integer `h`. */
  function FirstWithHeight(fs: seq<Format>, h: int): (k: nat)
    requires exists i :: 0 <= i < |fs| && fs[i].height == IntHeight(h)
    ensures k < |fs| && fs[k].height == IntHeight(h)
    ensures forall j :: 0 <= j < k ==> fs[j].height != IntHeight(h)
  {
    if fs[0].height == IntHeight(h) then 0
    else
      assert exists i :: 0 <= i < |fs[1..]| && fs[1..][i].height == IntHeight(h) by {
        var i :| 0 <= i < |fs| && fs[i].height == IntHeight(h);
        assert fs[1..][i - 1] == fs[i];
      }
      1 + FirstWithHeight(fs[1..], h)
  }

  /** Which format `get_best_format` returns, by index; `BestIndexSpec`
      says which one that is. */
  function BestIndex(fs: seq<Format>): (r: Option<nat>)
    ensures r.Some? ==> r.value < |fs|
  {
    var m := MaxHeight(fs);
    MaxHeightSpec(fs);
    if m == 0 then None else Some(FirstWithHeight(fs, m))
  }

  /** The chosen format is the first one whose integer height is the
      greatest, provided that height is above 0; there is none when no
      format has a positive integer height. */
  lemma BestIndexSpec(fs: seq<Format>)
    ensures BestIndex(fs).None? <==> forall i :: 0 <= i < |fs| ==> !Eligible(fs[i])
    ensures BestIndex(fs).Some? ==> Eligible(fs[BestIndex(fs).value])
    ensures BestIndex(fs).Some? ==> forall i :: 0 <= i < |fs| && fs[i].height.IntHeight? ==>
                                      fs[i].height.n <= fs[BestIndex(fs).value].height.n
    ensures BestIndex(fs).Some? ==> forall j :: 0 <= j < BestIndex(fs).value && fs[j].height.IntHeight? ==>
                                      fs[j].height.n < fs[BestIndex(fs).value].height.n
  {
    MaxHeightSpec(fs);
  }

  function FormatAt(fs: seq<Format>, k: Option<nat>): Option<Format>
  {
    if k.Some? && k.value < |fs| then Some(fs[k.value]) else None
  }

  /** What `get_best_format` promises of the format it returns. */
  lemma BestFormatSpec(fs: seq<Format>)
    ensures var best := FormatAt(fs, BestIndex(fs));
      && (best.None? <==> forall i :: 0 <= i < |fs| ==> !Eligible(fs[i]))
      && (best.Some? ==> best.value in fs && Eligible(best.value))
      && (best.Some? ==> forall i :: 0 <= i < |fs| && fs[i].height.IntHeight? ==>
                           fs[i].height.n <= best.value.height.n)
  {
    BestIndexSpec(fs);
  }

  lemma MaxHeightSnoc(fs: seq<Format>, f: Format)
    ensures MaxHeight(fs + [f]) ==
            if f.height.IntHeight? && f.height.n > MaxHeight(fs) then f.height.n else MaxHeight(fs)
  {
    assert (fs + [f])[..|fs + [f]| - 1] == fs;
  }

  /** Extending the list keeps the earlier winner unless the new format is
      strictly higher. */
  lemma {:induction false} BestIndexSnoc(fs: seq<Format>, f: Format)
    ensures BestIndex(fs + [f]) ==
            if f.height.IntHeight? && f.height.n > MaxHeight(fs) then Some(|fs|) else BestIndex(fs)
  {
    var gs := fs + [f];
    MaxHeightSnoc(fs, f);
    MaxHeightSpec(fs);
    var m := MaxHeight(fs);
    if f.height.IntHeight? && f.height.n > m {
      assert gs[|fs|] == f;
      assert forall j :: 0 <= j < |fs| ==> gs[j] == fs[j];
    } else if m > 0 {
      var k := FirstWithHeight(fs, m);
      assert gs[k] == fs[k];
      assert forall j :: 0 <= j < |fs| ==> gs[j] == fs[j];
    }
  }

  /** `get_best_format`: a linear scan that keeps the first format with
      the strictly greatest integer height seen so far. */
  method GetBestFormat(formats: seq<Format>) returns (best: Option<Format>)
    ensures best == FormatAt(formats, BestIndex(formats))
  {
    best := None;
    var bestResolution := 0;
    for i := 0 to |formats|
      invariant bestResolution == MaxHeight(formats[..i])
      invariant best == FormatAt(formats, BestIndex(formats[..i]))
    {
      BestIndexSnoc(formats[..i], formats[i]);
      assert formats[..i + 1] == formats[..i] + [formats[i]];
      MaxHeightSnoc(formats[..i], formats[i]);
      var height := formats[i].height;
      if height.IntHeight? {
        if height.n > bestResolution {
          bestResolution := height.n;
          best := Some(formats[i]);
        }
      }
    }
    assert formats[..|formats|] == formats;
  }

  /** The fixed output template of the download. */
  const OutputTemplate: string := "./downloaded_video.mp4"

  /** The options of the second `YoutubeDL`: the chosen format and the
      output template. */
  datatype DownloadRequest = DownloadRequest(format: string, outtmpl: string)

  datatype Outcome =
    | NoSuitableFormat
    | Download(request: DownloadRequest)
    | MissingKey(key: string)   // a KeyError, caught by the generic handler

  /** `download_best_resolution` after the format listing: `formats` is the
      'formats' entry of the info dictionary, None when it is absent. */
  method DownloadBestResolution(formats: Option<seq<Format>>) returns (outcome: Outcome)
    ensures var fs := if formats.Some? then formats.value else [];
      && (outcome.NoSuitableFormat? <==> forall i :: 0 <= i < |fs| ==> !Eligible(fs[i]))
      && (outcome.Download? ==>
            BestIndex(fs).Some? &&
            Some(outcome.request.format) == fs[BestIndex(fs).value].formatId &&
            fs[BestIndex(fs).value].ext.Some? &&
            outcome.request.outtmpl == "./downloaded_video.mp4")
      && (outcome.MissingKey? ==>
            BestIndex(fs).Some? &&
            (fs[BestIndex(fs).value].formatId.None? || fs[BestIndex(fs).value].ext.None?))
  {
    var fs := if formats.Some? then formats.value else [];
    BestIndexSpec(fs);
    var best := GetBestFormat(fs);
    if best.None? {
      return NoSuitableFormat;
    }
    // the progress line reads both 'format_id' and 'ext'
    if best.value.formatId.None? {
      return MissingKey("format_id");
    }
    if best.value.ext.None? {
      return MissingKey("ext");
    }
    outcome := Download(DownloadRequest(best.value.formatId.value, OutputTemplate));
  }

  /** The renditions 480, 720, None, 720: the first 720 wins. */
  lemma FirstOfEqualHeightsWins()
    ensures var fs := [Format(Some("a"), Some("mp4"), IntHeight(480)),
                       Format(Some("b"), Some("mp4"), IntHeight(720)),
                       Format(Some("c"), Some("mp4"), NoHeight),
                       Format(Some("d"), Some("mp4"), IntHeight(720))];
            BestIndex(fs) == Some(1)
  {
    var fs := [Format(Some("a"), Some("mp4"), IntHeight(480)),
               Format(Some("b"), Some("mp4"), IntHeight(720)),
               Format(Some("c"), Some("mp4"), NoHeight),
               Format(Some("d"), Some("mp4"), IntHeight(720))];
    var r := BestIndex(fs);
    BestIndexSpec(fs);
    assert r.Some? by { assert Eligible(fs[1]); }
    assert fs[r.value].height.n == 720 by {
      assert fs[r.value].height.n >= fs[1].height.n;
    }
  }
}
