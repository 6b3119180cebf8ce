/** The depth-map inspector (`depth_utils/check_depth.py`): decides from the
    magic number whether a file is OpenEXR, decodes one plane, prints its
    statistics and an advisory unit hint. Printing is modelled by returning
    what would be printed; nothing here changes the decoded data. */
module CheckDepth {
  import opened Base
  import opened Text
  import opened Paths
  import opened Raster
  import opened Exr

  /** The advisory hints the inspector prints. */
  datatype UnitHint =
    | Metres                          // small floating-point range
    | Millimetres                     // range of a few thousand
    | LargeRange                      // OpenEXR plane outside both ranges
    | NoHint                          // single-channel float raster outside both ranges
    | ConfirmWithCameraDocs           // single-channel uint16 outside the millimetre range
    | SpecialEncoding(dtype: DType)   // single-channel raster of another element type
    | Visualisation(channels: nat)    // several channels: a rendered picture, not metric depth

  /** Which decoder the magic number sent the file to. */
  datatype Route = ExrRoute | RasterRoute

  /** What one inspection reports. `Skipped` is an error that the script
      prints and then returns from, without raising. */
  datatype Inspection =
    | Skipped(reason: Error)
    | ExrStats(channel: string, depth: Array, min: real, max: real, mean: real, hint: UnitHint)
    | RasterStats(depth: Array, min: real, max: real, hint: UnitHint)

  datatype CheckReport =
    | NotAFile
    | Checked(route: Route, extensionWarning: bool, inspection: Inspection)

  /** Channel choice of the inspector: "Z" when the header lists it,
      otherwise the first listed channel; an empty list is an IndexError,
      never a default. */
  function ChooseChannel(channels: seq<string>): (r: Result<string>)
    ensures r.Ok? <==> channels != []
    ensures r.Err? ==> r.error == NoChannels
    ensures r.Ok? ==> r.value in channels && (r.value == "Z" <==> "Z" in channels)
    ensures r.Ok? && "Z" !in channels ==> r.value == channels[0]
  {
    if "Z" in channels then Ok("Z")
    else if channels == [] then Err(NoChannels)
    else Ok(channels[0])
  }

  /** Hint for an OpenEXR plane, first match wins: metres below 50,
      millimetres below 10000, "large range" otherwise, including every
      maximum that is not positive. */
  function ExrHint(dmax: real): (h: UnitHint)
    ensures h == Metres <==> 0.0 < dmax < 50.0
    ensures h == Millimetres <==> 50.0 <= dmax < 10000.0
    ensures h == LargeRange <==> dmax <= 0.0 || 10000.0 <= dmax
  {
    if dmax > 0.0 && dmax < 50.0 then Metres
    else if dmax > 0.0 && dmax < 10000.0 then Millimetres
    else LargeRange
  }

  /** A raster counts as one channel when it has two axes, or three with a
      last axis of length one. */
  predicate IsSingleChannel(shape: seq<nat>) {
    |shape| == 2 || (|shape| == 3 && shape[2] == 1)
  }

  predicate IsFloat(t: DType) {
    t == Float32 || t == Float64
  }

  /** Hint for a conventional raster. uint16 uses the single millimetre
      range, float32/float64 the metre and millimetre ranges, every other
      single-channel type is a special encoding, and a raster with several
      channels is a visualisation whatever its values. */
  function RasterHint(dtype: DType, shape: seq<nat>, dmax: real): (r: Result<UnitHint>)
    ensures r.Err? <==> !IsSingleChannel(shape) && |shape| < 3
    ensures r == Ok(Metres) <==> IsSingleChannel(shape) && IsFloat(dtype) && 0.0 < dmax < 50.0
    ensures r == Ok(Millimetres) <==>
              IsSingleChannel(shape) && ((dtype == UInt16 && 0.0 < dmax < 10000.0)
                                         || (IsFloat(dtype) && 50.0 <= dmax < 10000.0))
    ensures r == Ok(ConfirmWithCameraDocs) <==>
              IsSingleChannel(shape) && dtype == UInt16 && (dmax <= 0.0 || 10000.0 <= dmax)
    ensures r == Ok(NoHint) <==>
              IsSingleChannel(shape) && IsFloat(dtype) && (dmax <= 0.0 || 10000.0 <= dmax)
    ensures r.Ok? && r.value.SpecialEncoding? <==>
              IsSingleChannel(shape) && dtype != UInt16 && !IsFloat(dtype)
    ensures r.Ok? && r.value.SpecialEncoding? ==> r.value.dtype == dtype
    ensures r.Ok? && r.value.Visualisation? <==> |shape| >= 3 && !IsSingleChannel(shape)
    ensures r.Ok? && r.value.Visualisation? ==> r.value.channels == shape[2]
  {
    if IsSingleChannel(shape) then
      if dtype == UInt16 then
        Ok(if dmax > 0.0 && dmax < 10000.0 then Millimetres else ConfirmWithCameraDocs)
      else if IsFloat(dtype) then
        Ok(if dmax > 0.0 && dmax < 50.0 then Metres
           else if dmax > 0.0 && dmax < 10000.0 then Millimetres
           else NoHint)
      else Ok(SpecialEncoding(dtype))
    else if |shape| >= 3 then Ok(Visualisation(shape[2]))
    else Err(NoChannelAxis)
  }

  /** `inspect_exr`: without the OpenEXR binding it reports and returns;
      otherwise it decodes the chosen channel at the data window's size and
      reports its minimum, maximum, mean and hint. */
  function InspectExr(hasOpenExr: bool, file: Option<ExrFile>): (r: Result<Inspection>)
    ensures !hasOpenExr ==> r == Ok(Skipped(OpenExrUnavailable))
    ensures hasOpenExr && file.None? ==> r == Err(ExrOpenFailed)
    ensures hasOpenExr && file.Some? && file.value.header.channels == [] ==> r == Err(NoChannels)
    ensures hasOpenExr && file.Some? && file.value.header.channels != [] ==>
              var f := file.value;
              var plane := DecodePlane(f, ChooseChannel(f.header.channels).value);
              && (plane.Err? ==> r == Err(plane.error))
              && (plane.Ok? && plane.value.samples == [] ==> r == Err(EmptyArray))
              && (plane.Ok? && plane.value.samples != [] ==>
                    r.Ok? && r.value.ExrStats? && r.value.depth == plane.value
                    && r.value.mean == Mean(plane.value.samples))
    ensures r.Ok? && r.value.ExrStats? ==>
              && hasOpenExr && file.Some?
              && var f := file.value;
              && ChooseChannel(f.header.channels) == Ok(r.value.channel)
              && r.value.depth.shape == [Height(f.header.dataWindow), Width(f.header.dataWindow)]
              && r.value.channel in f.planes
              && r.value.depth.samples == f.planes[r.value.channel] != []
              && r.value.min in r.value.depth.samples && r.value.max in r.value.depth.samples
              && (forall x :: x in r.value.depth.samples ==> r.value.min <= x <= r.value.max)
              && r.value.min <= r.value.mean <= r.value.max
              && r.value.hint == ExrHint(r.value.max)
    ensures r.Ok? ==> r.value.ExrStats? || r.value == Skipped(OpenExrUnavailable)
  {
    if !hasOpenExr then Ok(Skipped(OpenExrUnavailable))
    else if file.None? then Err(ExrOpenFailed)
    else
      var f := file.value;
      var channel :- ChooseChannel(f.header.channels);
      var depth :- DecodePlane(f, channel);
      if depth.samples == [] then Err(EmptyArray)
      else
        var s := depth.samples;
        MeanWithinRange(s);
        Ok(ExrStats(channel, depth, Min(s), Max(s), Mean(s), ExrHint(Max(s))))
  }

  /** `inspect_png_like`: a failed decode is reported and returned from;
      otherwise the decoded raster is reported as it is, with its minimum,
      maximum and hint. */
  function InspectRaster(decoded: Option<Array>): (r: Result<Inspection>)
    ensures decoded.None? ==> r == Ok(Skipped(ImageReadFailed))
    ensures decoded.Some? && decoded.value.samples == [] ==> r == Err(EmptyArray)
    ensures decoded.Some? && decoded.value.samples != [] ==>
              var hint := RasterHint(decoded.value.dtype, decoded.value.shape, Max(decoded.value.samples));
              && (hint.Ok? ==> r.Ok? && r.value.RasterStats?)
              && (hint.Err? ==> r == Err(hint.error))
    ensures r.Ok? && r.value.RasterStats? ==>
              && decoded == Some(r.value.depth) && r.value.depth.samples != []
              && r.value.min in r.value.depth.samples && r.value.max in r.value.depth.samples
              && (forall x :: x in r.value.depth.samples ==> r.value.min <= x <= r.value.max)
              && Ok(r.value.hint) == RasterHint(r.value.depth.dtype, r.value.depth.shape, r.value.max)
    ensures r.Ok? ==> r.value.RasterStats? || r.value == Skipped(ImageReadFailed)
  {
    match decoded
    case None => Ok(Skipped(ImageReadFailed))
    case Some(depth) =>
      if depth.samples == [] then Err(EmptyArray)
      else
        var hint :- RasterHint(depth.dtype, depth.shape, Max(depth.samples));
        Ok(RasterStats(depth, Min(depth.samples), Max(depth.samples), hint))
  }

  /** `main`: a path that is not a file is reported; otherwise the magic
      number alone picks the decoder, and the lower-cased extension only adds
      a warning when the content is OpenEXR but the name does not end in
      ".exr". `bytes`, `exr` and `decoded` are what reading the file, the
      OpenEXR binding and OpenCV give for this path. */
  function CheckFile(path: string, isFile: bool, bytes: FileBytes, hasOpenExr: bool,
                     exr: Option<ExrFile>, decoded: Option<Array>): (r: Result<CheckReport>)
    ensures !isFile <==> r == Ok(NotAFile)
    ensures r.Ok? && r.value.Checked? ==>
              && (r.value.route == ExrRoute <==> IsExrByMagic(bytes))
              && (r.value.extensionWarning <==> IsExrByMagic(bytes) && Lower(Ext(path)) != ".exr")
    ensures isFile && IsExrByMagic(bytes) ==>
              && (r.Ok? <==> InspectExr(hasOpenExr, exr).Ok?)
              && (r.Ok? ==> r.value.inspection == InspectExr(hasOpenExr, exr).value)
    ensures isFile && !IsExrByMagic(bytes) ==>
              && (r.Ok? <==> InspectRaster(decoded).Ok?)
              && (r.Ok? ==> r.value.inspection == InspectRaster(decoded).value)
  {
    if !isFile then Ok(NotAFile)
    else if IsExrByMagic(bytes) then
      var inspection :- InspectExr(hasOpenExr, exr);
      Ok(Checked(ExrRoute, Lower(Ext(path)) != ".exr", inspection))
    else
      var inspection :- InspectRaster(decoded);
      Ok(Checked(RasterRoute, false, inspection))
  }

  /** The name never decides the decoder: two paths holding the same bytes
      get the same route and the same inspection; only the warning can
      differ. */
  lemma RouteIgnoresName(p: string, q: string, bytes: FileBytes, hasOpenExr: bool,
                         exr: Option<ExrFile>, decoded: Option<Array>)
    requires CheckFile(p, true, bytes, hasOpenExr, exr, decoded).Ok?
    ensures var a := CheckFile(p, true, bytes, hasOpenExr, exr, decoded).value;
            var b := CheckFile(q, true, bytes, hasOpenExr, exr, decoded).value;
            a.route == b.route && a.inspection == b.inspection
            && (a.route == ExrRoute <==> IsExrByMagic(bytes))
  {
  }

  /** An OpenEXR file saved under a ".png" name is still inspected as
      OpenEXR, with the mismatch warning. */
  lemma ExrNamedPng(content: seq<byte>, exr: Option<ExrFile>, decoded: Option<Array>)
    requires |content| >= 4 && content[..4] == Magic
    ensures var r := CheckFile("depth.png", true, Readable(content), true, exr, decoded);
            r.Ok? ==> r.value.route == ExrRoute && r.value.extensionWarning
  {
    assert IsExrByMagic(Readable(content));
    ExrExtensionEndsName("depth.png");
    assert Lower("depth.png")[6] == 'p';
  }

  /** An extension that lower-cases to ".exr" ends the lower-cased name. */
  lemma ExrExtensionEndsName(p: string)
    ensures Lower(Ext(p)) == ".exr" ==> EndsWith(Lower(p), ".exr")
  {
    var e := Ext(p);
    if Lower(e) == ".exr" {
      var d := |p| - |e|;
      assert forall i :: 0 <= i < |e| ==> e[i] == p[d + i];
      assert Lower(p)[d..] == Lower(e);
    }
  }
}
