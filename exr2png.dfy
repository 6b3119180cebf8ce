/** The OpenEXR-to-PNG converter (`depth_utils/exr2png.py`): reads the "Z"
    plane of an OpenEXR file as millimetres, scales it, clamps it to the
    uint16 range, truncates it and writes it as a 16-bit PNG; one file at a
    time or every ".exr" entry of a folder in sorted order. */
module Exr2Png {
  import opened Base
  import opened Text
  import opened Paths
  import opened Ordering
  import opened Raster
  import opened Exr

  /** What the converter can observe of the file system: the regular files
      (each with what the OpenEXR binding makes of it, `None` when it cannot
      parse it), the folders with their `os.listdir` entries, the folders
      `os.makedirs` fails to create and the paths `cv2.imwrite` fails to
      write. */
  datatype Disk = Disk(files: map<string, Option<ExrFile>>, dirs: map<string, seq<string>>,
                       failingDirs: set<string>, failingWrites: set<string>)

  /** A written 16-bit PNG: its path, size and samples in row-major order. */
  datatype Png = Png(path: string, height: nat, width: nat, samples: seq<int>)

  /** `read_exr_depth_mm`: a missing file is a not-found error and a header
      without "Z" an error listing the channels it has; otherwise the "Z"
      plane, and only it, is decoded at the data window's size. */
  function ReadExrDepthMm(disk: Disk, path: string): (r: Result<Array>)
    ensures path !in disk.files ==> r == Err(FileNotFound(path))
    ensures path in disk.files && disk.files[path].None? ==> r == Err(ExrOpenFailed)
    ensures path in disk.files && disk.files[path].Some? && "Z" !in disk.files[path].value.header.channels ==>
              r == Err(ZChannelMissing(disk.files[path].value.header.channels))
    ensures path in disk.files && disk.files[path].Some? && "Z" in disk.files[path].value.header.channels ==>
              r == DecodePlane(disk.files[path].value, "Z")
    ensures r.Ok? ==> path in disk.files && disk.files[path].Some?
                      && "Z" in disk.files[path].value.header.channels
                      && r == DecodePlane(disk.files[path].value, "Z")
  {
    if path !in disk.files then Err(FileNotFound(path))
    else match disk.files[path]
      case None => Err(ExrOpenFailed)
      case Some(f) =>
        if "Z" !in f.header.channels then Err(ZChannelMissing(f.header.channels))
        else DecodePlane(f, "Z")
  }

  function ZeroNegative(v: real): real {
    if v < 0.0 then 0.0 else v
  }

  /** `np.clip(v, lo, hi)`. */
  function Clip(v: real, lo: real, hi: real): real {
    if v < lo then lo else if v > hi then hi else v
  }

  /** `astype(np.uint16)` of an in-range value: truncation toward zero. */
  function Truncate(v: real): int {
    if v >= 0.0 then v.Floor else -((-v).Floor)
  }

  /** One output sample: the input times `scale`, negatives set to 0,
      clipped to [0, 65535] and truncated. The result is a uint16 value; it
      is 0 for a non-positive product, 65535 for a product at or above the
      ceiling, and the floor of the product in between. */
  function ToU16(x: real, scale: real): (v: int)
    ensures 0 <= v <= 65535
    ensures x * scale <= 0.0 ==> v == 0
    ensures x * scale >= 65535.0 ==> v == 65535
    ensures 0.0 <= x * scale < 65536.0 ==> v as real <= x * scale < v as real + 1.0
  {
    Truncate(Clip(ZeroNegative(x * scale), 0.0, 65535.0))
  }

  /** The converted buffer, sample by sample. */
  function ConvertSamples(s: seq<real>, scale: real): (r: seq<int>)
    ensures |r| == |s| && forall i :: 0 <= i < |s| ==> r[i] == ToU16(s[i], scale)
  {
    seq(|s|, i requires 0 <= i < |s| => ToU16(s[i], scale))
  }

  /** With the default scale, a depth below 1000 mm comes out as its floor:
      converting keeps every whole millimetre and clamps nothing. */
  lemma {:induction false} FloorBelowThousand(s: seq<real>)
    requires forall i :: 0 <= i < |s| ==> 0.0 <= s[i] < 1000.0
    ensures forall i :: 0 <= i < |s| ==> ConvertSamples(s, 1.0)[i] == s[i].Floor
  {
    forall i | 0 <= i < |s| ensures ConvertSamples(s, 1.0)[i] == s[i].Floor {
      var v := ToU16(s[i], 1.0);
      assert s[i] * 1.0 == s[i];
      assert v as real <= s[i] < v as real + 1.0;
    }
  }

  /** `depth * scale`: a new buffer. */
  method ScaleBuffer(depth: array<real>, scale: real) returns (mm: array<real>)
    ensures fresh(mm) && mm.Length == depth.Length
    ensures forall j :: 0 <= j < mm.Length ==> mm[j] == depth[j] * scale
  {
    mm := new real[depth.Length];
    for i := 0 to depth.Length
      invariant forall j :: 0 <= j < i ==> mm[j] == depth[j] * scale
    {
      mm[i] := depth[i] * scale;
    }
  }

  /** `mm[mm < 0] = 0`, in place. */
  method ZeroNegatives(mm: array<real>)
    modifies mm
    ensures forall j :: 0 <= j < mm.Length ==> mm[j] == ZeroNegative(old(mm[j]))
  {
    for i := 0 to mm.Length
      invariant forall j :: 0 <= j < i ==> mm[j] == ZeroNegative(old(mm[j]))
      invariant forall j :: i <= j < mm.Length ==> mm[j] == old(mm[j])
    {
      if mm[i] < 0.0 {
        mm[i] := 0.0;
      }
    }
  }

  /** `np.clip(mm, 0, 65535)`: a new buffer. */
  method ClipBuffer(mm: array<real>) returns (clipped: array<real>)
    ensures fresh(clipped) && clipped.Length == mm.Length
    ensures forall j :: 0 <= j < mm.Length ==> clipped[j] == Clip(mm[j], 0.0, 65535.0)
  {
    clipped := new real[mm.Length];
    for i := 0 to mm.Length
      invariant forall j :: 0 <= j < i ==> clipped[j] == Clip(mm[j], 0.0, 65535.0)
    {
      clipped[i] := Clip(mm[i], 0.0, 65535.0);
    }
  }

  /** `astype(np.uint16)`: a new buffer. */
  method TruncateBuffer(clipped: array<real>) returns (u16: array<int>)
    ensures fresh(u16) && u16.Length == clipped.Length
    ensures forall j :: 0 <= j < clipped.Length ==> u16[j] == Truncate(clipped[j])
  {
    u16 := new int[clipped.Length];
    for i := 0 to clipped.Length
      invariant forall j :: 0 <= j < i ==> u16[j] == Truncate(clipped[j])
    {
      u16[i] := Truncate(clipped[i]);
    }
  }

  /** Lines 77-85 of the converter on a buffer: `depth * scale` into a new
      buffer, negatives zeroed in place, clipped into a second buffer,
      truncated into the uint16 result; every output sample is `ToU16` of
      the input sample at the same position. */
  method ConvertBuffer(depth: array<real>, scale: real) returns (u16: array<int>)
    ensures u16.Length == depth.Length
    ensures forall i :: 0 <= i < depth.Length ==> u16[i] == ToU16(depth[i], scale)
  {
    var mm := ScaleBuffer(depth, scale);
    ZeroNegatives(mm);
    var clipped := ClipBuffer(mm);
    u16 := TruncateBuffer(clipped);
  }

  /** `os.makedirs(d, exist_ok=True)` exactly as the converter calls it on
      the output file's directory: for a bare file name that directory is
      "", and `os.makedirs("")` raises FileNotFoundError. */
  function MakeOutputDirAsWritten(disk: Disk, dir: string): (r: Result<()>)
    ensures r.Ok? <==> dir != [] && dir !in disk.failingDirs
  {
    if dir == [] then Err(FileNotFound(dir))
    else if dir in disk.failingDirs then Err(DirCreateFailed(dir))
    else Ok(())
  }

  /** The intended step: an output in the current directory needs no
      directory to be created. */
  function MakeOutputDir(disk: Disk, dir: string): (r: Result<()>)
    ensures r.Ok? <==> dir == [] || dir !in disk.failingDirs
  {
    if dir == [] then Ok(())
    else if dir in disk.failingDirs then Err(DirCreateFailed(dir))
    else Ok(())
  }

  lemma DirnameOfBareName(p: string)
    requires '/' !in p
    ensures Dirname(p) == []
  {
    assert LastIndexOf(p, '/') == -1;
  }

  /** As written, converting to a bare output name always fails, however
      healthy the file system is. */
  lemma BareOutputNameFailsAsWritten(disk: Disk, png: string)
    requires '/' !in png
    ensures MakeOutputDirAsWritten(disk, Dirname(png)).Err?
  {
    DirnameOfBareName(png);
  }

  /** With the intended step, a bare output name goes to the current
      directory and nothing blocks it. */
  lemma BareOutputNameAccepted(disk: Disk, png: string)
    requires '/' !in png
    ensures MakeOutputDir(disk, Dirname(png)).Ok?
  {
    DirnameOfBareName(png);
  }

  /** The documented single-file call on a file in the current folder,
      `exr2png.py depth.exr`, targets a name with no directory part, and as
      written fails there before anything is written. */
  lemma DefaultOutputInCurrentFolderFailsAsWritten(disk: Disk)
    ensures MakeOutputDirAsWritten(disk, Dirname(SingleOutputPath("depth.exr", None))).Err?
    ensures MakeOutputDir(disk, Dirname(SingleOutputPath("depth.exr", None))).Ok?
  {
    var input := "depth.exr";
    assert forall i :: 0 <= i < |input| ==> input[i] != '/';
    DefaultOutputStaysInFolder(input);
    var png := SingleOutputPath(input, None);
    BareOutputNameFailsAsWritten(disk, png);
    BareOutputNameAccepted(disk, png);
  }

  /** Without `--out`, an input with no directory part gives an output
      with none either. */
  lemma DefaultOutputStaysInFolder(input: string)
    requires '/' !in input
    ensures '/' !in SingleOutputPath(input, None)
  {
    var root := Root(input);
    assert forall i :: 0 <= i < |root| ==> root[i] == input[i];
    assert SingleOutputPath(input, None) == root + ".png";
  }

  /** Without `--out`, "<stem>.exr" becomes "<stem>.png" (so "depth.exr"
      becomes "depth.png"): the extension is replaced, not appended to. */
  lemma DefaultOutputReplacesExtension(stem: string)
    requires stem != [] && stem[0] != '.' && '/' !in stem
    ensures SingleOutputPath(stem + ".exr", None) == stem + ".png"
  {
    var p := stem + ".exr";
    assert p[|stem|] == '.' && p[0] == stem[0];
    assert forall t :: 0 <= t < |stem| ==> p[t] == stem[t];
    assert forall t :: |stem| < t < |p| ==> p[t] == ".exr"[t - |stem|] != '.';
    RootAtLastDot(p, |stem|);
    assert p[..|stem|] == stem;
  }

  /** `exr_to_uint16_png` as a specification, exactly as written: read the
      "Z" plane (its minimum and maximum are printed, so an empty plane
      raises), create the output file's directory, write the converted
      samples. It succeeds exactly when each of those steps does, and fails
      with the first step's error; an output name without a directory part
      therefore always fails at the directory step. */
  function Convert(disk: Disk, exrPath: string, pngPath: string, scale: real): (r: Result<Png>)
    ensures r.Ok? <==> ReadExrDepthMm(disk, exrPath).Ok? && ReadExrDepthMm(disk, exrPath).value.samples != []
                       && MakeOutputDirAsWritten(disk, Dirname(pngPath)).Ok? && pngPath !in disk.failingWrites
    ensures ReadExrDepthMm(disk, exrPath).Err? ==> r == Err(ReadExrDepthMm(disk, exrPath).error)
    ensures ReadExrDepthMm(disk, exrPath).Ok? && ReadExrDepthMm(disk, exrPath).value.samples == [] ==>
              r == Err(EmptyArray)
    ensures (ReadExrDepthMm(disk, exrPath).Ok? && ReadExrDepthMm(disk, exrPath).value.samples != []
             && MakeOutputDirAsWritten(disk, Dirname(pngPath)).Err?) ==>
              r == Err(MakeOutputDirAsWritten(disk, Dirname(pngPath)).error)
    ensures (ReadExrDepthMm(disk, exrPath).Ok? && ReadExrDepthMm(disk, exrPath).value.samples != []
             && MakeOutputDirAsWritten(disk, Dirname(pngPath)).Ok? && pngPath in disk.failingWrites) ==>
              r == Err(WriteFailed(pngPath))
  {
    var depth :- ReadExrDepthMm(disk, exrPath);
    if depth.samples == [] then Err(EmptyArray) else
    var _ :- MakeOutputDirAsWritten(disk, Dirname(pngPath));
    if pngPath in disk.failingWrites then Err(WriteFailed(pngPath))
    else Ok(Png(pngPath, depth.shape[0], depth.shape[1], ConvertSamples(depth.samples, scale)))
  }

  /** The intended conversion: the same steps with the corrected directory
      step, so an output in the current directory is written. */
  function ConvertIntended(disk: Disk, exrPath: string, pngPath: string, scale: real): (r: Result<Png>)
    ensures r.Ok? <==> ReadExrDepthMm(disk, exrPath).Ok? && ReadExrDepthMm(disk, exrPath).value.samples != []
                       && MakeOutputDir(disk, Dirname(pngPath)).Ok? && pngPath !in disk.failingWrites
    ensures ReadExrDepthMm(disk, exrPath).Err? ==> r == Err(ReadExrDepthMm(disk, exrPath).error)
    ensures ReadExrDepthMm(disk, exrPath).Ok? && ReadExrDepthMm(disk, exrPath).value.samples == [] ==>
              r == Err(EmptyArray)
    ensures (ReadExrDepthMm(disk, exrPath).Ok? && ReadExrDepthMm(disk, exrPath).value.samples != []
             && MakeOutputDir(disk, Dirname(pngPath)).Err?) ==>
              r == Err(MakeOutputDir(disk, Dirname(pngPath)).error)
    ensures (ReadExrDepthMm(disk, exrPath).Ok? && ReadExrDepthMm(disk, exrPath).value.samples != []
             && MakeOutputDir(disk, Dirname(pngPath)).Ok? && pngPath in disk.failingWrites) ==>
              r == Err(WriteFailed(pngPath))
    ensures r.Ok? ==> var d := ReadExrDepthMm(disk, exrPath).value;
                      && r.value.path == pngPath && [r.value.height, r.value.width] == d.shape
                      && r.value.samples == ConvertSamples(d.samples, scale)
  {
    var depth :- ReadExrDepthMm(disk, exrPath);
    if depth.samples == [] then Err(EmptyArray) else
    var _ :- MakeOutputDir(disk, Dirname(pngPath));
    if pngPath in disk.failingWrites then Err(WriteFailed(pngPath))
    else Ok(Png(pngPath, depth.shape[0], depth.shape[1], ConvertSamples(depth.samples, scale)))
  }

  /** The written and the intended conversion agree whenever the output
      has a directory part; on a bare output name the written one always
      fails, with the error `os.makedirs("")` raises once the plane has been
      read, while the intended one fails only if reading or writing does. */
  lemma {:induction false} ConvertDiffersOnlyOnBareNames(disk: Disk, exrPath: string, pngPath: string, scale: real)
    ensures Dirname(pngPath) != [] ==> Convert(disk, exrPath, pngPath, scale) == ConvertIntended(disk, exrPath, pngPath, scale)
    ensures Dirname(pngPath) == [] ==>
              && Convert(disk, exrPath, pngPath, scale).Err?
              && (ReadExrDepthMm(disk, exrPath).Ok? && ReadExrDepthMm(disk, exrPath).value.samples != [] ==>
                    Convert(disk, exrPath, pngPath, scale) == Err(FileNotFound([])))
              && (ConvertIntended(disk, exrPath, pngPath, scale).Ok? <==>
                    ReadExrDepthMm(disk, exrPath).Ok? && ReadExrDepthMm(disk, exrPath).value.samples != []
                    && pngPath !in disk.failingWrites)
  {
    var dir := Dirname(pngPath);
    if dir != [] {
      assert MakeOutputDirAsWritten(disk, dir) == MakeOutputDir(disk, dir);
    }
  }

  /** The documented call `exr2png.py depth.exr` on a healthy one-pixel
      file: as written the run ends with the error `os.makedirs("")`
      raises, after the plane has been decoded; the intended conversion
      succeeds. */
  lemma DefaultOutputFailsAfterDecoding()
    ensures var disk := Disk(map["depth.exr" := Some(ExrFile(Header(Box(0, 0, 0, 0), ["Z"]), map["Z" := [1.0]]))],
                             map[], {}, {});
            var png := SingleOutputPath("depth.exr", None);
            && ReadExrDepthMm(disk, "depth.exr").Ok?
            && Convert(disk, "depth.exr", png, 1.0) == Err(FileNotFound([]))
            && ConvertIntended(disk, "depth.exr", png, 1.0).Ok?
  {
    var disk := Disk(map["depth.exr" := Some(ExrFile(Header(Box(0, 0, 0, 0), ["Z"]), map["Z" := [1.0]]))],
                     map[], {}, {});
    var png := SingleOutputPath("depth.exr", None);
    DefaultOutputInCurrentFolderFailsAsWritten(disk);
    assert "Z" in ["Z"];
    assert ReadExrDepthMm(disk, "depth.exr") == DecodePlane(disk.files["depth.exr"].value, "Z");
    ConvertDiffersOnlyOnBareNames(disk, "depth.exr", png, 1.0);
    assert png !in disk.failingWrites;
  }


  /** A written image has the plane's size and only uint16 samples, each
      the conversion of the depth sample at the same position. */
  lemma ConvertedImageMatchesPlane(disk: Disk, exrPath: string, pngPath: string, scale: real)
    requires Convert(disk, exrPath, pngPath, scale).Ok?
    ensures var png := Convert(disk, exrPath, pngPath, scale).value;
            var depth := ReadExrDepthMm(disk, exrPath).value;
            && png.path == pngPath
            && [png.height, png.width] == depth.shape
            && |png.samples| == png.height * png.width == |depth.samples|
            && forall i :: 0 <= i < |png.samples| ==>
                 0 <= png.samples[i] <= 65535 && png.samples[i] == ToU16(depth.samples[i], scale)
  {
    var depth := ReadExrDepthMm(disk, exrPath).value;
    SizeOfPlane(depth.shape[0], depth.shape[1]);
  }

  /** `exr_to_uint16_png`: the conversion runs on a buffer, as the script
      does, and gives what `Convert` specifies. */
  method ExrToUint16Png(disk: Disk, exrPath: string, pngPath: string, scale: real) returns (r: Result<Png>)
    ensures r == Convert(disk, exrPath, pngPath, scale)
  {
    var depth :- ReadExrDepthMm(disk, exrPath);
    if depth.samples == [] {
      return Err(EmptyArray);
    }
    var buffer := new real[|depth.samples|](i requires 0 <= i < |depth.samples| => depth.samples[i]);
    var u16 := ConvertBuffer(buffer, scale);
    var _ :- MakeOutputDirAsWritten(disk, Dirname(pngPath));
    if pngPath in disk.failingWrites {
      return Err(WriteFailed(pngPath));
    }
    assert u16[..] == ConvertSamples(depth.samples, scale);
    r := Ok(Png(pngPath, depth.shape[0], depth.shape[1], u16[..]));
  }

  /** Single-file mode: `--out` when given and not empty, otherwise the
      input path with its extension replaced by ".png". */
  function SingleOutputPath(input: string, out: Option<string>): (r: string)
    ensures out.Some? && out.value != [] ==> r == out.value
    ensures !(out.Some? && out.value != []) ==>
              EndsWith(r, ".png") && r[..|r| - 4] + Ext(input) == input
  {
    SplitExtParts(input);
    if out.Some? && out.value != [] then out.value else Root(input) + ".png"
  }

  /** The selection test: the lower-cased name ends with ".exr". */
  predicate IsExrName(f: string) {
    EndsWith(Lower(f), ".exr")
  }

  /** The positions of the listing's ".exr" entries, in increasing order:
      each such position exactly once, and no other. */
  function ExrPositions(names: seq<string>): (ix: seq<nat>)
    ensures forall k :: 0 <= k < |ix| ==> ix[k] < |names| && IsExrName(names[ix[k]])
    ensures forall k, m :: 0 <= k < m < |ix| ==> ix[k] < ix[m]
    ensures forall i :: 0 <= i < |names| && IsExrName(names[i]) ==> i in ix
  {
    if names == [] then []
    else
      var n := |names| - 1;
      var front := ExrPositions(names[..n]);
      assert forall i :: 0 <= i < n ==> names[..n][i] == names[i];
      if IsExrName(names[n]) then front + [n] else front
  }

  /** Folder mode's selection: the entries whose lower-cased name ends with
      ".exr", joined to the folder, in listing order. The k-th path comes
      from the k-th ".exr" position, so every such entry is selected exactly
      once and in its listing order. */
  function SelectExr(dir: string, names: seq<string>): (r: seq<string>)
    ensures |r| == |ExrPositions(names)| <= |names|
    ensures forall k :: 0 <= k < |r| ==> r[k] == Join(dir, names[ExrPositions(names)[k]])
    ensures forall f :: f in names && IsExrName(f) ==> Join(dir, f) in r
    ensures forall p :: p in r ==> exists f :: f in names && IsExrName(f) && p == Join(dir, f)
  {
    if names == [] then []
    else
      var n := |names| - 1;
      var front := SelectExr(dir, names[..n]);
      var r := if IsExrName(names[n]) then front + [Join(dir, names[n])] else front;
      SelectExrStep(dir, names, front, r);
      SelectedAreTheExrEntries(dir, names, r);
      r
  }

  /** One step of the selection: appending the last entry when it is an
      ".exr" entry keeps the k-th path at the k-th ".exr" position. */
  lemma SelectExrStep(dir: string, names: seq<string>, front: seq<string>, r: seq<string>)
    requires names != []
    requires |front| == |ExrPositions(names[..|names| - 1])|
    requires forall k :: 0 <= k < |front| ==>
               front[k] == Join(dir, names[..|names| - 1][ExrPositions(names[..|names| - 1])[k]])
    requires r == if IsExrName(names[|names| - 1]) then front + [Join(dir, names[|names| - 1])] else front
    ensures |r| == |ExrPositions(names)|
    ensures forall k :: 0 <= k < |r| ==> r[k] == Join(dir, names[ExrPositions(names)[k]])
  {
    var n := |names| - 1;
    var fix := ExrPositions(names[..n]);
    var ix := ExrPositions(names);
    assert ix == if IsExrName(names[n]) then fix + [n] else fix;
    forall k | 0 <= k < |front| ensures r[k] == Join(dir, names[ix[k]]) {
      assert ix[k] == fix[k] < n;
      assert names[..n][fix[k]] == names[fix[k]];
    }
  }

  /** A selection laid out along the ".exr" positions holds every ".exr"
      entry and nothing else. */
  lemma SelectedAreTheExrEntries(dir: string, names: seq<string>, r: seq<string>)
    requires |r| == |ExrPositions(names)|
    requires forall k :: 0 <= k < |r| ==> r[k] == Join(dir, names[ExrPositions(names)[k]])
    ensures forall f :: f in names && IsExrName(f) ==> Join(dir, f) in r
    ensures forall p :: p in r ==> exists f :: f in names && IsExrName(f) && p == Join(dir, f)
  {
    var ix := ExrPositions(names);
    forall f | f in names && IsExrName(f) ensures Join(dir, f) in r {
      var i :| 0 <= i < |names| && names[i] == f;
      var k :| 0 <= k < |ix| && ix[k] == i;
      assert r[k] == Join(dir, f);
    }
    forall p | p in r ensures exists f :: f in names && IsExrName(f) && p == Join(dir, f) {
      var k :| 0 <= k < |r| && r[k] == p;
      assert names[ix[k]] in names;
    }
  }

  /** An entry that is not ".exr" is skipped without disturbing the next:
      the listing ["b.txt", "a.exr"] of folder "d" selects "d/a.exr" once. */
  lemma SelectSkipsOtherEntries()
    ensures SelectExr("d", ["b.txt", "a.exr"]) == ["d/a.exr"]
  {
    var names := ["b.txt", "a.exr"];
    ExampleNames();
    assert names[..1] == ["b.txt"];
    assert ExrPositions(names[..1]) == [];
    assert ExrPositions(names) == [1];
    var r := SelectExr("d", names);
    assert |r| == 1 && r[0] == Join("d", "a.exr");
  }

  lemma ExampleNames()
    ensures IsExrName("a.exr") && !IsExrName("b.txt")
    ensures Join("d", "a.exr") == "d/a.exr"
  {
    ExampleExrName();
    ExampleOtherName();
  }

  lemma ExampleExrName()
    ensures IsExrName("a.exr")
  {
    assert Lower("a.exr") == "a.exr";
  }

  lemma ExampleOtherName()
    ensures !IsExrName("b.txt")
  {
    assert Lower("b.txt")[2] == 't';
  }

  /** Folder mode's output folder: `--out_dir` when it is given and not
      empty, otherwise the folder part of the file's path, which is empty
      only when that path has no separator. */
  function OutputFolder(exrPath: string, outDir: Option<string>): (r: string)
    ensures outDir.Some? && outDir.value != [] ==> r == outDir.value
    ensures !(outDir.Some? && outDir.value != []) ==> r == Dirname(exrPath)
    ensures !(outDir.Some? && outDir.value != []) ==> StartsWith(exrPath, r) && (r == [] <==> '/' !in exrPath)
  {
    if outDir.Some? && outDir.value != [] then outDir.value else Dirname(exrPath)
  }

  /** Folder mode's output name: `<out_dir or the file's folder>/<stem>.png`.
      It starts with the output folder, a `/` follows unless that folder is
      empty or already ends in one, and the rest is the stem and ".png". */
  function FolderOutputPath(exrPath: string, outDir: Option<string>): (r: string)
    ensures Basename(r) == Stem(exrPath) + ".png"
    ensures var folder := OutputFolder(exrPath, outDir);
            var name := Stem(exrPath) + ".png";
            && StartsWith(r, folder) && EndsWith(r, name)
            && (folder == [] || folder[|folder| - 1] == '/' ==> |r| == |folder| + |name|)
            && (folder != [] && folder[|folder| - 1] != '/' ==> |r| == |folder| + 1 + |name| && r[|folder|] == '/')
  {
    var name := Stem(exrPath) + ".png";
    StemHasNoSlash(exrPath);
    NoSlashAppend(Stem(exrPath), ".png");
    var folder := OutputFolder(exrPath, outDir);
    BasenameOfJoin(folder, name);
    JoinShape(folder, name);
    Join(folder, name)
  }

  /** In folder mode every output has a directory part (the folder is a
      listed, hence non-empty, path), so the written and the intended
      conversion agree on every selected file. */
  lemma FolderModeUnaffected(disk: Disk, dir: string, name: string, outDir: Option<string>, scale: real)
    requires dir != [] && '/' !in name
    ensures var exrPath := Join(dir, name);
            var pngPath := FolderOutputPath(exrPath, outDir);
            Dirname(pngPath) != [] && Convert(disk, exrPath, pngPath, scale) == ConvertIntended(disk, exrPath, pngPath, scale)
  {
    var exrPath := Join(dir, name);
    var png := Stem(exrPath) + ".png";
    DirnameOfJoinNonEmpty(dir, name);
    StemHasNoSlash(exrPath);
    NoSlashAppend(Stem(exrPath), ".png");
    DirnameOfJoinNonEmpty(OutputFolder(exrPath, outDir), png);
    ConvertDiffersOnlyOnBareNames(disk, exrPath, FolderOutputPath(exrPath, outDir), scale);
  }

  datatype FolderReport =
    | NoExrFound                                      // warned and returned
    | OutDirFailed(error: Error)                      // makedirs(out_dir) raised
    | Converted(written: seq<Png>, failure: Option<Error>)

  /** `written` holds the conversions of a prefix of `files`, each into the
      output path at the same position of `targets`, in order; without a
      failure that prefix is all of `files`, and a failure is the error of
      the first file after it. */
  predicate ConvertedInOrder(disk: Disk, files: seq<string>, targets: seq<string>, scale: real,
                             written: seq<Png>, failure: Option<Error>)
    requires |targets| == |files|
  {
    && |written| <= |files|
    && (forall k :: 0 <= k < |written| ==> Convert(disk, files[k], targets[k], scale) == Ok(written[k]))
    && (failure.None? ==> |written| == |files|)
    && (failure.Some? ==>
          && |written| < |files|
          && Convert(disk, files[|written|], targets[|written|], scale) == Err(failure.value))
  }

  /** Folder mode's output names, one per selected file. */
  function FolderTargets(files: seq<string>, outDir: Option<string>): (r: seq<string>)
    ensures |r| == |files| && forall k :: 0 <= k < |files| ==> r[k] == FolderOutputPath(files[k], outDir)
  {
    seq(|files|, k requires 0 <= k < |files| => FolderOutputPath(files[k], outDir))
  }

  /** The conversion loop of folder mode: no error is caught, so the first
      failing file ends the run. */
  method ConvertEach(disk: Disk, files: seq<string>, targets: seq<string>, scale: real)
    returns (written: seq<Png>, failure: Option<Error>)
    requires |targets| == |files|
    ensures ConvertedInOrder(disk, files, targets, scale, written, failure)
  {
    written := [];
    var k := 0;
    while k < |files|
      invariant 0 <= k <= |files| && |written| == k
      invariant forall j :: 0 <= j < k ==> Convert(disk, files[j], targets[j], scale) == Ok(written[j])
    {
      var png := ExrToUint16Png(disk, files[k], targets[k], scale);
      if png.Err? {
        return written, Some(png.error);
      }
      written := written + [png.value];
      k := k + 1;
    }
    failure := None;
  }

  /** Folder mode: an empty selection warns and converts nothing; otherwise
      `--out_dir`, when given, is created first, and the selected files are
      converted in sorted order, each to `<out_dir or its folder>/<stem>.png`. */
  method ConvertFolder(disk: Disk, dir: string, outDir: Option<string>, scale: real) returns (r: FolderReport)
    requires dir in disk.dirs
    ensures SelectExr(dir, disk.dirs[dir]) == [] <==> r == NoExrFound
    ensures r.OutDirFailed? <==> SelectExr(dir, disk.dirs[dir]) != [] && outDir.Some? && outDir.value != []
                                 && outDir.value in disk.failingDirs
    ensures r.Converted? ==>
              var files := Sort(SelectExr(dir, disk.dirs[dir]));
              ConvertedInOrder(disk, files, FolderTargets(files, outDir), scale, r.written, r.failure)
  {
    var selected := SelectExr(dir, disk.dirs[dir]);
    if selected == [] {
      return NoExrFound;
    }
    if outDir.Some? && outDir.value != [] {
      var made := MakeOutputDir(disk, outDir.value);
      if made.Err? {
        return OutDirFailed(made.error);
      }
    }
    var files := Sort(selected);
    var written, failure := ConvertEach(disk, files, FolderTargets(files, outDir), scale);
    r := Converted(written, failure);
  }

  datatype RunReport =
    | SingleFile(result: Result<Png>)
    | Folder(report: FolderReport)
    | NotFileOrFolder(path: string)

  /** `main`: a file is converted on its own, a folder in folder mode, and
      anything else is reported. */
  method RunConverter(disk: Disk, input: string, out: Option<string>, outDir: Option<string>, scale: real)
    returns (run: RunReport)
    ensures input in disk.files ==> run == SingleFile(Convert(disk, input, SingleOutputPath(input, out), scale))
    ensures input !in disk.files && input in disk.dirs ==>
              && run.Folder?
              && var selected := SelectExr(input, disk.dirs[input]);
                 && (selected == [] <==> run.report == NoExrFound)
                 && (run.report.OutDirFailed? <==> selected != [] && outDir.Some? && outDir.value != []
                                                   && outDir.value in disk.failingDirs)
                 && (run.report.Converted? ==>
                       var files := Sort(selected);
                       ConvertedInOrder(disk, files, FolderTargets(files, outDir), scale,
                                        run.report.written, run.report.failure))
    ensures input !in disk.files && input !in disk.dirs ==> run == NotFileOrFolder(input)
  {
    if input in disk.files {
      var result := ExrToUint16Png(disk, input, SingleOutputPath(input, out), scale);
      run := SingleFile(result);
    } else if input in disk.dirs {
      var report := ConvertFolder(disk, input, outDir, scale);
      run := Folder(report);
    } else {
      run := NotFileOrFolder(input);
    }
  }
}
