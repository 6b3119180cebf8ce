# Depth-map tooling, modelled in Dafny

This project models the format-handling core of a small set of depth-map
utilities used around a model-free pose-estimation pipeline:

- **the inspector** (`depth_utils/check_depth.py`). It sniffs the OpenEXR magic
  number, decodes one plane, reports minimum, maximum and mean, and prints an
  advisory unit hint. It also warns when an OpenEXR file carries another
  extension.
- **the viewer** (`depth_utils/vis_depth.py`), up to the point where it hands a
  buffer to the plotting library. That covers the magic-number dispatch, the
  channel-priority loop (Z, depth, Y, R), the reduction of multi-channel
  rasters to channel 0, the promotion of integer buffers and the count of
  valid (positive) samples.
- **the converter** (`depth_utils/exr2png.py`). It reads the mandatory "Z"
  plane, scales it, zeroes negatives, clips to [0, 65535], truncates to
  uint16 and writes a 16-bit PNG. It runs on a single file, or on every ".exr"
  entry of a folder in sorted order.
- **the intrinsics converter** (`camk2json_model_free.py`). It parses a 3x3
  `cam_K.txt` into a row-major list of nine numbers, lists the RGB images of
  a scene folder, and builds the per-image map `{stem: {cam_K, depth_scale}}`.

The decoders and encoders (OpenEXR/Imath, OpenCV) are abstract:

- An OpenEXR file is its header (data window, channel names) plus the float
  samples the decoder delivers per channel (`Exr.ExrFile`).
- A raster is an element type, a shape and its samples in row-major order
  (`Raster.Array`).
- A write is a success or a failure.

The file system is a value passed in (`Exr2Png.Disk`, `CamK2Json.CamEnv`).
So are the raw bytes of a file (`Exr.FileBytes`), the presence of the OpenEXR
binding (`hasOpenExr`) and Python's `float` on one token (`parse`).

Python's printed-and-returned errors and raised exceptions are both results:

- An exception becomes a `Base.Result` error.
- A reported-and-returned case takes one of two forms, depending on the module:
  - In `CheckDepth`, the inspectors turn it into a `Skipped` inspection.
  - In `VisDepth`, `VisualizeDepth` turns it into an `Err`.
  - In `Exr2Png`, `ConvertFolder` and `RunConverter` turn it into the outcomes `NoExrFound` and `NotFileOrFolder`.

Samples are real numbers, and the cast to uint16 is an explicit truncation.
The converter's buffer stages run on arrays in loops, as the script does.
The intrinsics reader's row loop, the image-listing loop and the scene loop
are methods with loop invariants, each proved against a specification
function.

Modules follow the program: `Base` (results and errors), `Text` (`str.strip`,
`split`, `lower`), `Paths` (`os.path` on POSIX), `Ordering` (`sorted` on
strings), `Raster` (arrays, reshape, min/max/mean), `Exr` (magic number,
header, plane decoding), then one module per script: `CheckDepth`, `VisDepth`,
`Exr2Png`, `CamK2Json`.

A few behaviours of the code are easy to misread; the model follows the code:

- the magic-number sniffer never raises; an unreadable or short file is
  simply "not OpenEXR";
- the folder conversion catches nothing, so the first failing file ends the
  run (files converted before it stay written);
- there is no count of clamped samples;
- the ".exr" filter of the converter ignores case, while the image patterns
  of the intrinsics converter do not;
- a single-file conversion whose output name has no directory part fails at
  the directory step, after decoding (see "## Findings"); the corrected
  conversion is modelled beside it.

## Model

| member | source | states |
|---|---|---|
| Exr.IsExrByMagic | depth_utils/check_depth.py:29-40 | true exactly when the file is readable and its first four bytes are 76 2F 31 01; a short or unreadable file gives false, not an error |
| Exr.ReadHead | depth_utils/check_depth.py:36 | `read(4)` yields the first min(4, size) bytes |
| Exr.DecodePlane | depth_utils/check_depth.py:54-56 | decoding succeeds iff the channel is delivered, both dimensions max-min+1 are non-negative and the sample count equals height*width; the image is float32 of shape (height, width) holding exactly that channel's samples |
| Raster.Reshape | depth_utils/check_depth.py:69 | reshaping succeeds iff height and width are non-negative and their product is the sample count; shape and samples are then as requested |
| Raster.Max | depth_utils/check_depth.py:75 | the maximum is one of the samples and bounds all of them from above |
| Raster.Min | depth_utils/check_depth.py:74 | the minimum is one of the samples and bounds all of them from below |
| Raster.Mean | depth_utils/check_depth.py:76 | the mean taken once per sample adds up to the sum; the mean of a constant array is that constant |
| Raster.MeanWithinRange | depth_utils/check_depth.py:74-76 | the mean of a non-empty plane lies between its minimum and maximum |
| CheckDepth.ChooseChannel | depth_utils/check_depth.py:62 | the choice exists iff the channel list is non-empty (else the index error); it is listed, it is "Z" iff "Z" is listed, otherwise the first channel |
| CheckDepth.ExrHint | depth_utils/check_depth.py:79-85 | metres iff 0 < max < 50, millimetres iff 50 <= max < 10000, the large-range hint iff max <= 0 or max >= 10000 |
| CheckDepth.RasterHint | depth_utils/check_depth.py:112-132 | each hint with its exact condition (single-channel iff 2 axes or 3 with a last axis of 1; uint16 and float thresholds; special encoding for other types; a special encoding carries the raster's own type; a visualisation iff there are three or more axes and the raster is not single-channel, with shape[2] channels); an error iff a multi-channel test needs a third axis that is missing |
| CheckDepth.InspectExr | depth_utils/check_depth.py:43-85 | without the binding it reports and returns; an unparsable file or empty channel list fails; a decode failure passes its error on and an empty plane is the min() error; a decodable non-empty plane of the chosen channel is always inspected: statistics at (height, width), min and max are samples bounding all others, the mean is the arithmetic mean of the samples, and the hint is the OpenEXR hint of the max |
| CheckDepth.InspectRaster | depth_utils/check_depth.py:88-132 | a failed decode reports and returns; an empty raster is the min() error; a non-empty raster is inspected exactly when its hint exists (else the missing-axis error), reported unchanged with min and max that are samples bounding all others, and the raster hint of its type, shape and max |
| CheckDepth.CheckFile | depth_utils/check_depth.py:135-160 | a non-file is reported; the OpenEXR route is taken iff the magic number matches; the warning is raised iff the content is OpenEXR and the lower-cased extension is not ".exr"; the inspection is the one of the chosen route |
| CheckDepth.RouteIgnoresName | depth_utils/check_depth.py:150-160 | two names holding the same bytes get the same route and the same inspection |
| CheckDepth.ExrExtensionEndsName | depth_utils/check_depth.py:152-155 | an extension that lower-cases to ".exr" ends the lower-cased name, so any other name ending draws the warning |
| CheckDepth.ExrNamedPng | depth_utils/check_depth.py:153-157 | OpenEXR bytes named "depth.png" take the OpenEXR route with the mismatch warning |
| VisDepth.FirstPresentIsEarliest | depth_utils/vis_depth.py:55-59 | the search returns the earliest listed name of the priority list, and nothing iff no name of the list is listed |
| VisDepth.PreferredChannelFollowsPriority | depth_utils/vis_depth.py:55-61 | the preferred channel is the first of Z, depth, Y, R that is listed, otherwise the first channel; an empty list is the index error; a chosen channel is always listed |
| VisDepth.SelectChannel | depth_utils/vis_depth.py:55-61 | the loop with `break` computes exactly the preferred channel |
| VisDepth.ReadExrDepth | depth_utils/vis_depth.py:37-72 | no binding, an unparsable file or an empty channel list fail; for any parsable file with channels the result is exactly the preferred channel decoded at (height, width), success included |
| VisDepth.FirstChannel | depth_utils/vis_depth.py:87 | slicing channel 0 gives an (h, w) array of the same type whose every pixel is channel 0 of the same pixel |
| VisDepth.ReadRaster | depth_utils/vis_depth.py:75-89 | a failed decode is an error; a 3-axis raster with more than one channel becomes its channel 0, pixel by pixel; any other raster comes back unchanged |
| VisDepth.Promote | depth_utils/vis_depth.py:132-134 | int32/int64 become float32 with the same shape and samples; other types are untouched; the result is never int32/int64 |
| Raster.Positive | depth_utils/vis_depth.py:161-164 | the valid samples are exactly the strictly positive ones, each as many times as it occurs, so their number is the count of positive samples |
| VisDepth.VisualizeDepth | depth_utils/vis_depth.py:92-134 | a missing path is reported; the OpenEXR reader is used iff the magic matches; on that route each reader error passes through, an empty plane is an error, and a non-empty preferred-channel plane is always shown, as float32; otherwise the raster reader's result, promoted, with its errors; the valid count is the number of positive samples |
| Exr2Png.ReadExrDepthMm | depth_utils/exr2png.py:36-58 | a missing file is not-found; an unparsable one is the open error; a header without "Z" is an error listing its channels; with "Z" listed the result is exactly the "Z" plane decoded at (height, width) |
| Exr2Png.ToU16 | depth_utils/exr2png.py:77-85 | every output is in [0, 65535]; a non-positive product gives 0, a product at or above 65535 gives 65535, and in between the output is the floor of x*scale |
| Exr2Png.ConvertSamples | depth_utils/exr2png.py:77-85 | the output has the input's length and each sample is the conversion of the sample at the same position |
| Exr2Png.FloorBelowThousand | depth_utils/exr2png.py:85 | with scale 1, depths in [0, 1000) come out as their floor |
| Exr2Png.ScaleBuffer | depth_utils/exr2png.py:77 | a new buffer holding each sample times the scale |
| Exr2Png.ZeroNegatives | depth_utils/exr2png.py:80 | in place, negative samples become 0 and others are kept |
| Exr2Png.ClipBuffer | depth_utils/exr2png.py:83 | a new buffer holding each sample clipped to [0, 65535] |
| Exr2Png.TruncateBuffer | depth_utils/exr2png.py:85 | a new buffer holding each sample truncated toward zero |
| Exr2Png.ConvertBuffer | depth_utils/exr2png.py:77-85 | the four stages give, at every position, the single-sample conversion of the input |
| Exr2Png.MakeOutputDirAsWritten | depth_utils/exr2png.py:88 | the directory step as written succeeds iff the directory name is non-empty and creatable |
| Exr2Png.BareOutputNameFailsAsWritten | depth_utils/exr2png.py:88 | as written, an output name with no directory part always fails |
| Exr2Png.DefaultOutputStaysInFolder | depth_utils/exr2png.py:128-130 | without `--out`, an input with no directory part gives an output with none either |
| Exr2Png.DefaultOutputInCurrentFolderFailsAsWritten | depth_utils/exr2png.py:126-132 | converting "depth.exr" with no `--out` fails as written and succeeds at that step with the corrected directory handling |
| Exr2Png.MakeOutputDir | depth_utils/exr2png.py:88 | the intended directory step: succeeds iff the name is empty (current folder) or the folder is creatable |
| Exr2Png.BareOutputNameAccepted | depth_utils/exr2png.py:88 | with the intended step, an output name with no directory part is never blocked |
| Exr2Png.Convert | depth_utils/exr2png.py:61-95 | as written: the conversion succeeds iff the plane is read and non-empty, the as-written directory step succeeds and the write succeeds; otherwise it fails with the first failing step's error, a failed write naming the path |
| Exr2Png.ConvertIntended | depth_utils/exr2png.py:61-95 | the intended conversion: a missing file, a missing depth channel, an empty plane, a folder that cannot be made and a failed write are each reported; a written PNG is at the output path, has the plane's height and width, and holds the plane's samples converted with the scale |
| Exr2Png.ConvertDiffersOnlyOnBareNames | depth_utils/exr2png.py:88 | the written and the intended conversion agree whenever the output has a directory part; on a bare name the written one always fails, with the makedirs("") error once the plane is read, while the intended one fails only when reading or writing does |
| Exr2Png.DefaultOutputFailsAfterDecoding | depth_utils/exr2png.py:126-132 | on a healthy one-pixel "depth.exr", the default single-file run fails as written with the makedirs("") error and succeeds with the intended step |
| Exr2Png.ConvertedImageMatchesPlane | depth_utils/exr2png.py:83-91 | a written image is at the given path, has the plane's (height, width), and holds only uint16 values, each the conversion of the input sample at the same position |
| Exr2Png.ExrToUint16Png | depth_utils/exr2png.py:61-95 | the array-based conversion, with the directory step as written, gives exactly the specified result |
| Exr2Png.SingleOutputPath | depth_utils/exr2png.py:126-130 | a non-empty `--out` is used as given; otherwise the result ends in ".png" and putting the input's extension back in place of ".png" gives the input path |
| Exr2Png.ExrPositions | depth_utils/exr2png.py:138-139 | the positions of the entries whose lower-cased name ends with ".exr", increasing, each such position once and no other |
| Exr2Png.SelectExr | depth_utils/exr2png.py:136-140 | the k-th selected path is the folder joined to the entry at the k-th ".exr" position: every such entry once, in listing order, and nothing else |
| Exr2Png.SelectSkipsOtherEntries | depth_utils/exr2png.py:136-140 | a listing ["b.txt", "a.exr"] of folder "d" selects exactly ["d/a.exr"] |
| Exr2Png.OutputFolder | depth_utils/exr2png.py:145-156 | a non-empty `--out_dir` is the folder; otherwise the folder is exactly the directory part of the file's path, empty exactly when that path has no separator |
| Exr2Png.DefaultOutputReplacesExtension | depth_utils/exr2png.py:128-130 | without `--out`, "<stem>.exr" is converted to "<stem>.png" |
| Exr2Png.FolderOutputPath | depth_utils/exr2png.py:151-156 | the output starts with `--out_dir` when given, else the file's own folder; a `/` follows unless that folder is empty or ends in one; the file name is the input's stem followed by ".png" |
| Exr2Png.FolderTargets | depth_utils/exr2png.py:150-156 | one output name per file, at the same position |
| Exr2Png.FolderModeUnaffected | depth_utils/exr2png.py:150-158 | in folder mode every output has a directory part, so the written and the intended conversion agree on every selected file |
| Exr2Png.ConvertEach | depth_utils/exr2png.py:150-158 | the images written are the conversions of a prefix of the files in order; without failure all files are converted; a failure is the error of the first file after the prefix |
| Exr2Png.ConvertFolder | depth_utils/exr2png.py:134-158 | no conversion iff no entry ends in ".exr"; an uncreatable `--out_dir` stops the run first; otherwise the sorted selection is converted in order, stopping at the first failure |
| Exr2Png.RunConverter | depth_utils/exr2png.py:119-160 | a file is converted, as written, to the single-file output path; a folder goes to folder mode with all of folder mode's guarantees; anything else is reported |
| CamK2Json.NonBlankLines | camk2json_model_free.py:22 | no more lines than the file, every kept line non-empty and trimmed |
| CamK2Json.NonBlankLinesAppend | camk2json_model_free.py:22 | the lines kept from two pieces of a file are those of the first followed by those of the second: order and multiplicity are kept |
| CamK2Json.NonBlankLinesOfLine | camk2json_model_free.py:22 | one line contributes itself, stripped, exactly when it is not blank |
| CamK2Json.NonBlankLinesKeepsContent | camk2json_model_free.py:22 | a line is kept, stripped, exactly when it is not blank |
| CamK2Json.ParseNumbers | camk2json_model_free.py:29 | every token parsed in order, or the error names the first token that is not a number |
| CamK2Json.ParseRow | camk2json_model_free.py:26-29 | a line is a row iff it has exactly three tokens that all parse; another count is an error naming the line; with three tokens the error names the first token that does not parse |
| CamK2Json.ParseRows | camk2json_model_free.py:24-29 | all rows in order, or the error of the first failing line, every line before it being valid |
| CamK2Json.ParseRowsStopsAtFailure | camk2json_model_free.py:25-28 | once a prefix fails, the whole file fails with the same error |
| CamK2Json.Flatten | camk2json_model_free.py:35 | nine values with K[3r + c] = rows[r][c] |
| CamK2Json.ParseK | camk2json_model_free.py:16-36 | a result has exactly three non-blank lines of three numbers each, and K[3r + c] is the c-th number of line r; with all lines valid, the row-count error happens iff there are not three rows, and it reports their count; otherwise the error is that of the first failing line, every line before it being valid |
| CamK2Json.ParseLines | camk2json_model_free.py:24-29 | the row loop computes exactly the specified rows or first error |
| CamK2Json.ReadKTxt | camk2json_model_free.py:16-36 | an unreadable file fails; otherwise the result is the specified matrix or error |
| CamK2Json.Glob | camk2json_model_free.py:45 | the k-th path is the folder joined to the k-th matching entry, in listing order, so each entry that ends with the extension and does not start with a dot is globbed once, and nothing else is |
| CamK2Json.GlobAll | camk2json_model_free.py:42-45 | all patterns' matches are exactly the joined entries matching one of them |
| CamK2Json.GlobPositions | camk2json_model_free.py:45 | the positions of the entries matching the pattern, increasing, each such position once and no other |
| CamK2Json.GlobOnce | camk2json_model_free.py:45 | for a listing without repeated names, one pattern's glob has no duplicate and as many paths as matching entries |
| CamK2Json.GlobAllOnce | camk2json_model_free.py:42-45 | when no entry can match two patterns, the collected globs have no duplicate and as many paths as entries matching some pattern |
| CamK2Json.ImageExtsSuffixFree | camk2json_model_free.py:42 | no image pattern's extension ends another's (".tif" and ".tiff", ".jpg" and ".jpeg" included), so no entry matches two patterns |
| CamK2Json.CountSplit | camk2json_model_free.py:43-45 | with patterns no entry can match twice, counting the matches against all patterns is counting against all but the last plus against the last |
| CamK2Json.ListRgbImages | camk2json_model_free.py:38-47 | the list is sorted, is the sort of the collected matches, and holds exactly the entries matching one of the six image patterns; for a listing without repeated names, each such entry appears once and the list is as long as the number of matching entries |
| CamK2Json.BuildScene | camk2json_model_free.py:74-81 | the keys are exactly the image stems, each once, in the order in which the stems first occur, and every entry is the matrix with the depth scale |
| CamK2Json.FirstOccurrences | camk2json_model_free.py:74-81 | the dict's key order: every stem exactly once, and nothing else |
| CamK2Json.FirstOccurrencesInOrder | camk2json_model_free.py:74-81 | the keys come in the order of the first occurrence of each stem in the listing |
| CamK2Json.RgbDir | camk2json_model_free.py:63 | `--rgb_dir` when given, otherwise the data folder, a separator unless it is empty or already ends in one, then "rgb"; that path starts with the data folder and has base name "rgb" |
| CamK2Json.OutPath | camk2json_model_free.py:67 | `--out` when given, otherwise the data folder, a separator unless it is empty or already ends in one, then "scene_camera.json"; that path starts with the data folder and has that base name |
| CamK2Json.RunCamK2Json | camk2json_model_free.py:63-85 | a missing image folder fails before the matrix is read; then the matrix errors pass through; with a valid matrix the run succeeds iff the output is writable, else the write error names it; a written scene is at `--out` or `<data_dir>/scene_camera.json`, its keys are the stems of the sorted listing in first-occurrence order, each mapped to the matrix and scale |
| CamK2Json.KeyOfImage | camk2json_model_free.py:77 | the key of "<dir>/<stem><ext>" is "<stem>" for an extension that is one dot followed by no dot |
| Text.Strip | camk2json_model_free.py:22 | the stripped text is the slice of the line that starts after its leading whitespace and is followed only by whitespace; it is empty iff the line is blank, and otherwise starts and ends with a non-space |
| Text.Split | camk2json_model_free.py:26 | every token is non-empty and has no whitespace |
| Text.SplitOfToken | camk2json_model_free.py:26 | a run of non-whitespace characters on its own is one token |
| Text.SplitAtSpace | camk2json_model_free.py:26 | splitting at a whitespace character splits the two sides independently, so no token crosses whitespace and the token count is fixed |
| Text.SplitKeepsNonSpace | camk2json_model_free.py:26 | the tokens put back together are exactly the non-space characters of the line |
| Paths.Basename | camk2json_model_free.py:77 | the base name has no separator and ends the path |
| Paths.BasenameIsLongest | camk2json_model_free.py:77 | the base name is all of the path or is preceded by a separator: it is the longest separator-free suffix |
| Paths.SplitExtParts | depth_utils/exr2png.py:129 | root and extension put together give the path; an extension is a dot followed by no dot and no separator |
| Paths.Dirname | depth_utils/exr2png.py:88 | the directory part is a prefix of the path that is separated from the base name by slashes only; it is empty iff the path has no `/`; it ends in `/` only when it is all slashes |
| Paths.Join | depth_utils/exr2png.py:137 | an absolute name replaces the folder; the result always ends with the name |
| Paths.Root | depth_utils/exr2png.py:129 | the root is a prefix of the path, cut (if at all) at a dot of the final component |
| Paths.Ext | depth_utils/check_depth.py:152 | the extension is empty or a suffix starting with a dot, has no separator, and the part of the file name before it is not only dots |
| Paths.Stem | depth_utils/exr2png.py:151-152 | the stem is a prefix of the base name and has no separator |
| Paths.StemSplitsBasename | depth_utils/exr2png.py:151-152 | the stem followed by the extension of the base name is the base name, so the stem is the base name with its extension cut off |
| Paths.ExtStartIsLastDot | depth_utils/exr2png.py:129 | any dot of the final component preceded there by a character other than a dot lies at or before the start of the extension, and the extension then is not empty: the cut is at the last such dot |
| Paths.RootAtLastDot | depth_utils/exr2png.py:129 | a separator-free name not starting with a dot is cut at its last dot: the root is everything before it and the extension everything from it |
| Paths.JoinPlainName | camk2json_model_free.py:63 | joining a name without a separator gives the folder, a separator unless it is empty or ends in one, then the name; the result starts with the folder and has the name as its base name |
| Text.Lower | depth_utils/exr2png.py:139 | same length; every capital letter becomes its small letter, every other character is kept, and no capital is left |
| Paths.BasenameOfJoin | depth_utils/exr2png.py:154 | joining a plain name to a folder and taking the base name gives the name back |
| Paths.JoinShape | depth_utils/exr2png.py:154 | joining a relative name gives the folder, a separator unless the folder is empty or ends in one, then the name |
| Paths.DirnameOfJoinNonEmpty | depth_utils/exr2png.py:137 | an entry joined to a non-empty folder has a non-empty directory part |
| Ordering.Sort | depth_utils/exr2png.py:150 | the sorted list is in Python string order and a permutation of the input |
| Ordering.SortedPermutationIsSort | camk2json_model_free.py:46 | any sorted permutation of a list is its sort: the order is fully determined |
| Ordering.SortKeepsDistinct | camk2json_model_free.py:46 | sorting a list without duplicates keeps its length and adds no duplicate |

## Left out

- The OpenEXR, Imath and OpenCV decoders and encoders. They are abstract
  inputs: a header plus per-channel samples, a decoded raster or none, and a
  write that succeeds or fails. `cv2.imwrite` raising on an unknown extension
  is folded into a failed write.
- Printing, plotting, colormaps and `cv2.normalize` (depth_utils/vis_depth.py:137-173),
  and the "Example entry" line of the intrinsics converter. Statistics and
  hints are returned, not printed.
- File-system enumeration, `argparse`, `sys.argv` defaults and JSON
  serialisation. Listings, readable files and failing paths are inputs; the
  JSON file is returned as its path, key order and entries.
- IEEE float32 behaviour: NaN, infinities, the rounding of `x * scale`, and
  float32 storage of float64 data. Samples are real numbers.
- Python's `float` on one token. It is a parameter of the intrinsics reader.
- Unicode: `str.isspace`, `str.split()` and `str.lower()` are modelled on
  ASCII only.
- numpy's `-1` reshape inference. Reshape with a negative dimension is
  treated as a failure.
- Glob special characters in the image folder's name, and `glob` returning
  entries that are not regular files. The listing is taken as given.
- The copy of the magic-number sniffer in depth_utils/vis_depth.py:26-34. It
  is identical to the inspector's copy, and both use `Exr.IsExrByMagic`.
- depth_utils/convert_camK.py, the two demo drivers and the Blender scripts
  (depth_utils/auto_texture.py, depth_utils/auto_texture_mm2m.py). They are
  not part of this model.
- Exr2Png.ExrToUint16Png: the plane is copied into a fresh array before the
  loops run on it, so aliasing between the decoded buffer and the output is
  not modelled.
- Exr2Png.ConvertEach: it receives the output names computed beforehand.
  The script computes each name inside the loop; the names are the same.
- Exr2Png.ConvertFolder: `os.makedirs` on `--out_dir` is abstract. It fails
  for the folders listed as failing and succeeds otherwise.
- CamK2Json.BuildScene: the stems of the listing are computed before the
  key loop rather than inside it; the keys and their order are the same.
- CamK2Json.RunCamK2Json: a failed write is reported as an error rather than
  an exception. The "Found N images" count is not returned separately; it is
  the length of the listing, which `ListRgbImages` ties to the number of
  matching entries.

## Findings

| source | as written | input that shows it | evidently intended | confidence | as-written member | corrected member |
|---|---|---|---|---|---|---|
| depth_utils/exr2png.py:88 | the directory of the output path is always created, even when the output name has no directory part; that directory name is then empty, and creating an empty path raises FileNotFoundError after the plane has been decoded | `exr2png.py depth.exr` run in the folder holding the file (output `depth.png`), or any `--out` given as a bare file name | write the PNG to the current folder, creating a directory only when the output path names one | high, not executed | Exr2Png.MakeOutputDirAsWritten, Exr2Png.Convert, Exr2Png.BareOutputNameFailsAsWritten, Exr2Png.DefaultOutputInCurrentFolderFailsAsWritten, Exr2Png.DefaultOutputFailsAfterDecoding | Exr2Png.MakeOutputDir, Exr2Png.ConvertIntended, Exr2Png.BareOutputNameAccepted, Exr2Png.ConvertDiffersOnlyOnBareNames |
