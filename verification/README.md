# A video-stylizing pipeline, modelled in Dafny

The repository is a set of four scripts that run one after the other:

- `just_download.py` picks the rendition with the greatest integer height among the formats yt-dlp lists for a video, and downloads only that one to a fixed file name.
- `download_and_parse.py` downloads a video, names it after its id, extracts its frames, and resizes them one by one into an output directory. Each frame is named by a timestamp and a zero-padded 0-based index, and the script counts the frames it saved.
- `create_images.py` takes the most recently modified directory as input and prepares an empty `<input>_processed` directory. It then runs every `.png` frame, in the order of the lower-cased paths, through an image-editing model. Each result is saved under a timestamp and a 1-based index, and the script logs how many images remain.
- `make_from_manual_audio.py` picks the latest `_processed` directory and an audio source. It builds a clip whose images share the audio's duration equally and names the output after a timestamp. A helper, not called by the script, gathers a run's assets into one folder.

The model covers the deterministic parts around the external libraries: selection, naming, ordering, counting, and the changes each script makes to the working directory.

- **The working directory** is the class `Files.WorkingDir`. Its one field maps each top-level name to a file or to a directory of named entries. The methods that change it are `os.makedirs`, `os.rmdir`, saving a file, `shutil.move` and `shutil.copy`. Each one states the new state exactly.
- **Oracles.** Everything the scripts get from outside is passed in as a function parameter:
  - the modification time of a name;
  - the timestamp read at each step;
  - whether PIL opens a frame, and its size;
  - whether a save succeeds;
  - whether the diffusion model's run on a frame succeeds.
- **Loops.** Each loop in the source is a method with a loop, proved against a pure function, and the lemmas about that function state the promised properties:
  - `get_best_format`, against `BestIndex`;
  - the resize loop of `parse_video`, against `SavedNames` and `AddFiles`;
  - the loop of `process_images`, against `OutputNames`;
  - the move loop of `move_assets_to_single_folder`, against `Gathered`.
- **Python semantics** are written out explicitly:
  - `{n:04d}` is `Text.ZeroPad`;
  - `str` comparison is `Text.LexLe`;
  - `int()` of a true division is `DownloadAndParse.ScaledDim`;
  - `os.path.splitext`, `os.path.basename`, `os.path.join` and `str.split(sep)[0]` are `Text.Extension`, `Text.Basename`, `Text.Join` and `Text.BeforeFirst`;
  - `glob` skipping dot-names is `Text.Visible` and `Files.Glob`;
  - `sorted(..., key=)` is the stable `Sorting.SortBy`;
  - `sorted(...)[-1]` is `Sorting.LastByKey`.

Files: `wrappers.dfy`, `text.dfy`, `sorting.dfy`, `files.dfy`, `just_download.dfy`, `download_and_parse.dfy`, `create_images.dfy`, `make_from_manual_audio.dfy`.

## Model

| member | source | states |
|---|---|---|
| JustDownload.MaxHeightSpec | just_download.py:7-13 | The running best resolution bounds every integer height, is attained by some format when positive, and is 0 exactly when no format has a positive integer height |
| JustDownload.FirstWithHeight | just_download.py:11-13 | Returns an index carrying the height, and no earlier index carries it (the strict `>` keeps the earliest) |
| JustDownload.BestIndexSpec | just_download.py:3-15 | The choice is None iff no format has a positive integer height. Otherwise the chosen format is eligible, its height is at least every integer height, and it is strictly above every earlier format's height (first wins a tie) |
| JustDownload.BestFormatSpec | just_download.py:3-15 | The returned format is None iff nothing is eligible; otherwise it is an element of the list, eligible, and of maximal integer height |
| JustDownload.BestIndexSnoc | just_download.py:7-13 | Appending one format changes the winner to it iff its integer height is strictly above the best so far |
| JustDownload.GetBestFormat | just_download.py:3-15 | The scan with its running best resolution returns exactly the format at `BestIndex`, so the properties of `BestFormatSpec` hold of its result |
| JustDownload.DownloadBestResolution | just_download.py:26-40 | There is no download iff no format is eligible. A download uses exactly the chosen format's id and the fixed template `./downloaded_video.mp4`. A chosen format lacking 'format_id' or 'ext' ends in the KeyError path |
| JustDownload.FirstOfEqualHeightsWins | just_download.py:11-13 | Heights 480, 720, None, 720 select the first 720 |
| DownloadAndParse.ScaledDimTruncates | download_and_parse.py:54-55 | The new size is the exact quotient `dim * percentage / 100` truncated toward zero, for either sign of the product |
| DownloadAndParse.ScaledDimProperties | download_and_parse.py:54-55 | For a non-negative percentage the size is `(dim * percentage) div 100`; it never exceeds the original at 100% or below, and 100% keeps it |
| DownloadAndParse.ScaledDimMonotone | download_and_parse.py:54-55 | A larger original never gives a smaller resized dimension |
| DownloadAndParse.FrameNamesDistinct | download_and_parse.py:61 | Different 0-based indices give different frame names |
| DownloadAndParse.FrameNames | download_and_parse.py:61 | The naming of a run's frames by index is injective |
| DownloadAndParse.FrameNamesSortByIndex | download_and_parse.py:61 | Below 10000 frames, the string order of the names is the order of the indices |
| DownloadAndParse.FrameName10000SortsBefore9999 | download_and_parse.py:61 | From index 10000 on the 4-digit padding no longer orders the names: frame 10000 sorts before frame 9999 |
| DownloadAndParse.SavedNamesMembers | download_and_parse.py:49-71 | A frame's name is among the saved names iff its try block succeeded, so failed frames leave gaps; every saved name belongs to such a frame |
| DownloadAndParse.SavedNamesCount | download_and_parse.py:47-73 | The saved names are pairwise distinct, and there are as many as frames whose try block succeeded |
| DownloadAndParse.TryFrame | download_and_parse.py:50-71 | The try block succeeds iff the frame opens and its resized image saves. A success writes exactly one file, under the frame's name; a failure is caught and changes nothing |
| DownloadAndParse.ResizeFrames | download_and_parse.py:47-73 | After the loop the count equals the number of saved names. The output directory holds its old entries plus exactly those names; when it is not a directory nothing changes |
| DownloadAndParse.ParseVideo | download_and_parse.py:22-73 | The directory name is lower-cased, and the directory is created only when absent. Only `.png` entries are frames. The returned count equals the number of successful frames (at most the number of frames) and the number of files written |
| DownloadAndParse.OutputDirectoryNameIsLowerCase | download_and_parse.py:122-125 | Lower-casing leaves `<timestamp>_parsed_frames` unchanged, so `parse_video` creates the directory its caller named |
| DownloadAndParse.DownloadVideo | download_and_parse.py:80-97 | With a stream, the file is `<video_id>.mp4`; without one, the error names the url |
| Files.Enumerate | download_and_parse.py:44 | `os.listdir` lists every entry exactly once, in an arbitrary order |
| Files.EndingWith | make_from_manual_audio.py:14 | The suffix filter keeps exactly the listed names ending in the suffix |
| Files.Glob | create_images.py:83 | `glob` matches exactly the listed names that do not start with a dot and end in the suffix |
| Files.GlobKeepsDistinct | create_images.py:83 | Filtering a listing that names every entry once names no entry twice |
| Files.DistinctPermutation | create_images.py:82-85 | Reordering a sequence without repetitions, as `sorted` does, leaves it without repetitions |
| Files.AddFilesContents | download_and_parse.py:64 | After saving a sequence of names, the directory holds its old entries plus those names, each a file; other entries are unchanged |
| Files.WorkingDir.ListRoot | create_images.py:11 | Lists exactly the top-level names, each once |
| Files.WorkingDir.ListDir | create_images.py:26 | Lists exactly the entries of a directory, each once |
| Files.WorkingDir.MakeDir | create_images.py:34 | Adds an empty directory and changes nothing else |
| Files.WorkingDir.RemoveDir | create_images.py:31 | Removes an empty directory and changes nothing else |
| Files.WorkingDir.WriteFile | create_images.py:104 | Saving puts a file of that name into the directory and changes nothing else |
| Files.WorkingDir.MoveInto | make_from_manual_audio.py:92 | The entry leaves the top level and appears unchanged inside the destination |
| Files.WorkingDir.CopyInto | make_from_manual_audio.py:95 | The destination gains a file of that name and the original stays |
| Text.LowerIsLower | download_and_parse.py:24 | A lower-cased string has no upper-case letter left; characters other than letters are kept; lower-casing again changes nothing |
| Text.ZeroPadRoundTrip | download_and_parse.py:61 | Reading back a zero-padded number gives the number |
| Text.ZeroPadExactWidth | download_and_parse.py:61 | A number below 10^width is padded to exactly `width` digits |
| Text.ZeroPadOrder | create_images.py:93 | Padded numbers below 10^width compare as strings exactly as the numbers do |
| Text.Extension | make_from_manual_audio.py:46 | The extension is non-empty exactly when the last path component has a dot preceded by a character other than a dot. Then it is the text from the last dot on, which holds no slash and no other dot |
| Text.Basename | make_from_manual_audio.py:47 | The base name is the longest slash-free suffix of the path: either the whole path or the text after its last slash |
| Text.BasenameOfJoin | make_from_manual_audio.py:46-47 | The base name of a joined path is the name joined |
| Text.BeforeFirst | make_from_manual_audio.py:77 | `split('_')[0]` is a prefix with no separator, ending where the first separator is |
| Sorting.SortBy | create_images.py:82-85 | Sorting is a permutation of its input |
| Sorting.SortBySorted | create_images.py:82-85 | The sorted sequence is in key order when the key order is total and transitive |
| Sorting.LexLeTotalPreorder | create_images.py:82-85 | String comparison is total and transitive |
| Sorting.LastByKey | create_images.py:11-13 | `sorted(s, key)[-1]` is None iff `s` is empty; otherwise it is an element whose key is greatest |
| MakeFromManualAudio.InputFramesDir | make_from_manual_audio.py:14-17 | Fails iff no entry ends in `_processed`; otherwise picks such an entry with the latest mtime |
| MakeFromManualAudio.SelectAudioSource | make_from_manual_audio.py:21-28 | Uses `USE_THIS_VIDEO` when it is non-empty and an existing file. Otherwise it takes the latest visible `.mp4` entry, or fails iff there is none |
| MakeFromManualAudio.OutputVideoNameInjective | make_from_manual_audio.py:31-32 | Different timestamps of one length give different `<timestamp>_final_video.mp4` names |
| MakeFromManualAudio.OutputVideoIsAnAudioCandidate | make_from_manual_audio.py:25-32 | The output video is itself a name that `glob('*.mp4')` matches |
| MakeFromManualAudio.ImagePaths | make_from_manual_audio.py:46 | Keeps exactly the paths whose lower-cased extension is allowed |
| MakeFromManualAudio.ImagePathsExact | make_from_manual_audio.py:46 | A kept path comes from a listed image name |
| MakeFromManualAudio.ImageFiles | make_from_manual_audio.py:45-48 | The image list is a permutation of the filtered glob result, sorted by base name |
| MakeFromManualAudio.ImageFilesMembers | make_from_manual_audio.py:44-48 | An entry's path is in the list iff `glob` sees it and its lower-cased extension is one of `.jpg`, `.jpeg`, `.png`, `.gif` |
| MakeFromManualAudio.UpperCaseExtensionIsImage | make_from_manual_audio.py:46 | `A.PNG` is an image: the extension test ignores case |
| MakeFromManualAudio.OtherExtensionsAreNotImages | make_from_manual_audio.py:44-46 | `.webp` files and names without an extension are not images |
| MakeFromManualAudio.GenerateVideo | make_from_manual_audio.py:44-58 | No image gives an error naming the folder and the extensions. Otherwise there is one equal duration, `audio / count`, per image |
| MakeFromManualAudio.TotalOfEqual | make_from_manual_audio.py:58 | `n` equal durations add up to `n` times one of them |
| MakeFromManualAudio.DurationsCoverAudio | make_from_manual_audio.py:55-58 | The image durations add up to the audio's duration |
| MakeFromManualAudio.DestinationKeepsVideoId | make_from_manual_audio.py:77-81 | Splitting the destination at its first `_` gives back the video id |
| MakeFromManualAudio.DestinationIsNotAsset | make_from_manual_audio.py:80-88 | A destination ending in a timestamp is never itself moved as an asset |
| MakeFromManualAudio.GatherSetStep | make_from_manual_audio.py:89 | One `shutil.move` of an asset extends the set of gathered entries by that asset |
| MakeFromManualAudio.GatherAssets | make_from_manual_audio.py:87-89 | After the loop, exactly the entries ending in `_frames` or `_processed` have moved into the destination, whatever the listing order |
| MakeFromManualAudio.MoveAssets | make_from_manual_audio.py:75-95 | Result and new state are those of `Consolidated`: create the destination, move the assets, move the video, copy the output; each failing step stops the run |
| MakeFromManualAudio.ConsolidatedContents | make_from_manual_audio.py:75-95 | After a successful run no asset is left at top level, and each sits unchanged in the destination. The video has moved there, and the output video stays with a copy there. Every other entry is untouched |
| CreateImages.Directories | create_images.py:11 | Keeps exactly the listed names that are directories |
| CreateImages.SelectInputDir | create_images.py:11-15 | Fails iff there is no directory; otherwise picks a directory with the latest mtime |
| CreateImages.OutputDirIsProcessed | create_images.py:17 | `<INPUT_DIR>_processed` differs from the input and ends in `_processed` |
| CreateImages.PrepareOutputDir | create_images.py:25-34 | A non-empty directory fails and changes nothing, and so does a file of that name. Otherwise the name ends up an empty directory, and nothing else changes |
| CreateImages.PngPaths | create_images.py:83 | When the listing names every entry once, no path is matched twice |
| CreateImages.PngPathsMembers | create_images.py:83 | A listed entry's path is matched iff the name is visible and ends in `.png` |
| CreateImages.ProcessingOrder | create_images.py:82-85 | The frames are a permutation of the matched paths, sorted by lower-cased path, and without repetitions when the listing has none |
| CreateImages.PathsOfListing | create_images.py:82-85 | The ordered paths are exactly the visible `.png` entries of the input |
| CreateImages.OutputNameInjective | create_images.py:92-93 | Outputs at different positions get different names even within one second |
| CreateImages.OutputNamesAt | create_images.py:92-93 | The output at position `idx` is `<timestamp>_<idx+1:04d>.png` |
| CreateImages.OutputNamesPrefix | create_images.py:87-94 | The names of the first `k` outputs are a prefix of those of any later run length |
| CreateImages.OutputNamesDistinct | create_images.py:87-94 | With `%Y%m%d_%H%M%S` timestamps, all outputs get distinct names |
| CreateImages.SaveOutputs | create_images.py:87-107 | Saves while the steps succeed and stops at the first failure. The directory gains exactly the saved names, and the remaining count after position `k` is `total - (k + 1)` |
| CreateImages.StylizeFrames | create_images.py:87-107 | The same loop, for an output directory that may be missing: then nothing is written |
| CreateImages.ProcessImages | create_images.py:58-107 | Frames are exactly the visible `.png` entries, each once, sorted by lower-cased path. Processing stops at the first failing frame. Each success writes the next output name into the output directory, and the remaining count drops by one per frame |
| CreateImages.RemainingCountsDown | create_images.py:107 | The remaining count drops by one per frame, never goes negative and reaches 0 at the last frame |
| CreateImages.OutputDirContents | create_images.py:92-104 | After `n` frames the fresh output directory holds exactly `n` files, one per position |
| CreateImages.Run | create_images.py:134-140 | The run fails with no directory iff there is none. Otherwise it fails iff the latest directory's `<input>_processed` is a file or a non-empty directory; the error names that directory, and a failure leaves everything unchanged. On success the input is the latest directory and the output is `<input>_processed`. The frames are the input's visible `.png` entries, each once, in lower-cased order. The output holds exactly the outputs of the frames stylized before the first failure, and every other entry is unchanged |

## Left out

- Network access, and the yt-dlp and pytube objects. Only the format list (`just_download.py`) and the video id and stream presence (`download_and_parse.py`) enter the model, as parameters.
- ffmpeg frame extraction, PIL open, resize and save, diffusion-model loading and inference with its CUDA/CPU fallback, and moviepy clip building, muxing, `subclip` and encoding. PIL and diffusion outcomes are oracles; the listing ffmpeg leaves in the scratch directory is a parameter; the scratch directory itself is not modelled.
- `cut.py`: a one-line wrapper over an ffmpeg call.
- Printing, progress lines, summaries, timing, `np.mean` and the ETA arithmetic of `process_images`. Only the integer remaining count is kept.
- Clocks and modification times are parameters. `datetime.now()` is a function from the step to a string, and mtimes are a function from names to integers. Ties in mtime are resolved by whichever tied element the stable sort puts last.
- Floating point. The image durations are exact reals, and `int(dim * percentage / 100)` is exact truncation; rounding of large values is not modelled.
- Lower-casing (`str.lower` and `str.casefold`) acts on ASCII letters only.
- Paths are top-level names with at most one level of entries below them. `glob` and `os.path.join` are modelled for a folder name without a trailing slash. The folder name is joined literally: the model assumes it holds none of `*`, `?` or `[`, which `glob` would read as a pattern (create_images.py:83, make_from_manual_audio.py:46).
- Python's `bool` is an `int`, so `isinstance(True, int)` holds. A format whose height is `True` is modelled as a non-integer height.
- In `process_images` the output path uses the global `OUTPUT_DIR` (create_images.py:94). The model passes the output directory as a parameter, since the only call (create_images.py:136) passes `OUTPUT_DIR`.
- `total_images` comes from a separate `glob` call (create_images.py:60). The model assumes it sees the same directory as the call that lists the frames (create_images.py:83).
- MakeFromManualAudio.MoveAssets: when the destination name exists as a file, the model stops with an error before moving anything. Python would try the moves and could fail at a later step, or rename the video over that file.
- MakeFromManualAudio.GatherAssets: moving an asset whose name already exists inside the destination replaces that entry. Python's `shutil.move` would nest the asset inside it when it is a directory.
- `move_assets_to_single_folder` is modelled although its only call is commented out (make_from_manual_audio.py:106).
- The module-level statements of `make_from_manual_audio.py` are modelled one by one: `InputFramesDir`, `SelectAudioSource`, `OutputVideoName` and `GenerateVideo`. There is no driver that chains them.
