/** The depth-map viewer (`depth_utils/vis_depth.py`) up to the point where
    it hands a buffer to the plotting library: magic-number dispatch, the
    channel-priority search for OpenEXR files, the first-channel reduction
    of multi-channel rasters and the promotion of integer buffers. */
module VisDepth {
  import opened Base
  import opened Raster
  import opened Exr

  /** Channel names tried in order before falling back to the first
      channel. */
  const Priority: seq<string> := ["Z", "depth", "Y", "R"]

  /** The first name of `priority` that `channels` lists, if any. */
  function FirstPresent(priority: seq<string>, channels: seq<string>): Option<string> {
    if priority == [] then None
    else if priority[0] in channels then Some(priority[0])
    else FirstPresent(priority[1..], channels)
  }

  /** `priority[k]` is listed and no name before it is. */
  predicate FirstListedAt(priority: seq<string>, channels: seq<string>, k: int) {
    0 <= k < |priority| && priority[k] in channels
    && forall j :: 0 <= j < k ==> priority[j] !in channels
  }

  /** The reference rule for the channel the viewer decodes: the first name
      of `Priority` the header lists, else the first listed channel; an
      empty list is an IndexError. */
  function PreferredChannel(channels: seq<string>): Result<string> {
    match FirstPresent(Priority, channels)
    case Some(name) => Ok(name)
    case None => if channels == [] then Err(NoChannels) else Ok(channels[0])
  }

  /** `FirstPresent` finds the earliest listed name of the priority list,
      and finds nothing exactly when no name of the list is listed. */
  lemma {:induction false} FirstPresentIsEarliest(priority: seq<string>, channels: seq<string>)
    ensures forall k :: FirstListedAt(priority, channels, k) ==> FirstPresent(priority, channels) == Some(priority[k])
    ensures FirstPresent(priority, channels).None? <==> forall k :: 0 <= k < |priority| ==> priority[k] !in channels
  {
    if priority != [] {
      FirstPresentIsEarliest(priority[1..], channels);
      forall k | FirstListedAt(priority, channels, k)
        ensures FirstPresent(priority, channels) == Some(priority[k])
      {
        if k > 0 {
          assert FirstListedAt(priority[1..], channels, k - 1);
        }
      }
      if priority[0] !in channels {
        assert forall k :: 1 <= k < |priority| ==> priority[k] == priority[1..][k - 1];
      }
    }
  }

  /** The channel rule as the viewer's documentation states it. */
  lemma PreferredChannelFollowsPriority(channels: seq<string>)
    ensures forall k :: FirstListedAt(Priority, channels, k) ==> PreferredChannel(channels) == Ok(Priority[k])
    ensures (forall k :: 0 <= k < |Priority| ==> Priority[k] !in channels) ==>
              PreferredChannel(channels) == if channels == [] then Err(NoChannels) else Ok(channels[0])
    ensures PreferredChannel(channels).Ok? ==> PreferredChannel(channels).value in channels
  {
    FirstPresentIsEarliest(Priority, channels);
  }

  /** The channel-priority loop of `read_exr_depth`: tries "Z", "depth",
      "Y", "R" in turn and stops at the first one listed; falls back to the
      first channel. */
  method SelectChannel(channels: seq<string>) returns (r: Result<string>)
    ensures r == PreferredChannel(channels)
  {
    var chosen: Option<string> := None;
    var i := 0;
    while i < |Priority|
      invariant 0 <= i <= |Priority|
      invariant chosen.None? ==> FirstPresent(Priority, channels) == FirstPresent(Priority[i..], channels)
      invariant chosen.Some? ==> FirstPresent(Priority, channels) == chosen
    {
      assert Priority[i..][1..] == Priority[i + 1..];
      if Priority[i] in channels {
        chosen := Some(Priority[i]);
        break;
      }
      i := i + 1;
    }
    if chosen.None? {
      if channels == [] {
        r := Err(NoChannels);
      } else {
        r := Ok(channels[0]);
      }
    } else {
      r := Ok(chosen.value);
    }
  }

  /** `read_exr_depth`: fails without the OpenEXR binding or a parsable
      file; otherwise decodes exactly the preferred channel at the data
      window's size. */
  method ReadExrDepth(hasOpenExr: bool, file: Option<ExrFile>) returns (r: Result<Array>)
    ensures !hasOpenExr ==> r == Err(OpenExrUnavailable)
    ensures hasOpenExr && file.None? ==> r == Err(ExrOpenFailed)
    ensures hasOpenExr && file.Some? && file.value.header.channels == [] ==> r == Err(NoChannels)
    ensures hasOpenExr && file.Some? && file.value.header.channels != [] ==>
              PreferredChannel(file.value.header.channels).Ok?
              && r == DecodePlane(file.value, PreferredChannel(file.value.header.channels).value)
    ensures r.Ok? ==> hasOpenExr && file.Some? && PreferredChannel(file.value.header.channels).Ok?
                      && r == DecodePlane(file.value, PreferredChannel(file.value.header.channels).value)
  {
    if !hasOpenExr {
      return Err(OpenExrUnavailable);
    }
    if file.None? {
      return Err(ExrOpenFailed);
    }
    var f := file.value;
    PreferredChannelFollowsPriority(f.header.channels);
    var channel :- SelectChannel(f.header.channels);
    r := DecodePlane(f, channel);
  }

  /** The sample at row `y`, column `x`, channel `k` of a 3-D array. */
  function At3(a: Array, y: nat, x: nat, k: nat): real
    requires WellFormed(a) && |a.shape| == 3 && y < a.shape[0] && x < a.shape[1] && k < a.shape[2]
  {
    VolumeIndexBound(y, x, k, a.shape[0], a.shape[1], a.shape[2]);
    SizeOfVolume(a.shape);
    a.samples[(y * a.shape[1] + x) * a.shape[2] + k]
  }

  lemma SizeOfVolume(shape: seq<nat>)
    requires |shape| == 3
    ensures Size(shape) == shape[0] * shape[1] * shape[2]
  {
    assert shape[1..][1..][1..] == [];
    assert Size(shape[1..][1..]) == shape[2];
  }

  lemma VolumeIndexBound(y: nat, x: nat, k: nat, h: nat, w: nat, c: nat)
    requires y < h && x < w && k < c
    ensures (y * w + x) * c + k < h * w * c
  {
    RowMajorBound(y, x, h, w);
    RowMajorBound(y * w + x, k, h * w, c);
  }

  /** `depth[:, :, 0]` on an array of shape (h, w, c) with c >= 1: an
      (h, w) image whose every pixel is channel 0 of the same pixel of `a`. */
  function FirstChannel(a: Array): (r: Array)
    requires WellFormed(a) && |a.shape| == 3 && a.shape[2] >= 1
    ensures WellFormed(r) && r.dtype == a.dtype && r.shape == a.shape[..2]
    ensures forall y, x :: 0 <= y < r.shape[0] && 0 <= x < r.shape[1] ==> At(r, y, x) == At3(a, y, x, 0)
  {
    var h, w, c := a.shape[0], a.shape[1], a.shape[2];
    SizeOfVolume(a.shape);
    SizeOfPlane(h, w);
    assert forall i :: 0 <= i < h * w ==> i * c < h * w * c by {
      forall i | 0 <= i < h * w ensures i * c < h * w * c {
        RowMajorBound(i, 0, h * w, c);
      }
    }
    assert a.shape[..2] == [h, w];
    var r := Array(a.dtype, [h, w], seq(h * w, i requires 0 <= i < h * w => a.samples[i * c]));
    assert forall y, x :: 0 <= y < h && 0 <= x < w ==> At(r, y, x) == At3(a, y, x, 0) by {
      forall y, x | 0 <= y < h && 0 <= x < w ensures At(r, y, x) == At3(a, y, x, 0) {
        RowMajorBound(y, x, h, w);
      }
    }
    r
  }

  /** `read_png_like_depth`: a failed decode raises; a raster with three
      axes and more than one channel is replaced by its channel 0; any other
      raster comes back unchanged. */
  function ReadRaster(decoded: Option<Array>): (r: Result<Array>)
    requires decoded.Some? ==> WellFormed(decoded.value)
    ensures r.Err? <==> decoded.None?
    ensures r.Err? ==> r.error == ImageReadFailed
    ensures r.Ok? ==> WellFormed(r.value) && r.value.dtype == decoded.value.dtype
    ensures r.Ok? && |decoded.value.shape| == 3 && decoded.value.shape[2] > 1 ==>
              r.value.shape == decoded.value.shape[..2]
              && forall y, x :: 0 <= y < r.value.shape[0] && 0 <= x < r.value.shape[1] ==>
                   At(r.value, y, x) == At3(decoded.value, y, x, 0)
    ensures r.Ok? && !(|decoded.value.shape| == 3 && decoded.value.shape[2] > 1) ==> r.value == decoded.value
  {
    match decoded
    case None => Err(ImageReadFailed)
    case Some(depth) =>
      if |depth.shape| == 3 && depth.shape[2] > 1 then Ok(FirstChannel(depth))
      else Ok(depth)
  }

  /** `depth.astype(np.float32)` for int32 and int64 buffers; every other
      buffer is left as it is. Values are real numbers, so only the element
      type changes. */
  function Promote(a: Array): (r: Array)
    ensures r.shape == a.shape && r.samples == a.samples
    ensures r.dtype != Int32 && r.dtype != Int64
    ensures a.dtype == Int32 || a.dtype == Int64 ==> r.dtype == Float32
    ensures a.dtype != Int32 && a.dtype != Int64 ==> r == a
  {
    if a.dtype == Int32 || a.dtype == Int64 then a.(dtype := Float32) else a
  }

  datatype Source = FromExr | FromRaster

  /** What the viewer hands to the plotting code: the buffer, where it came
      from, and the number of samples counted as valid depth. */
  datatype View = View(depth: Array, source: Source, validSamples: nat)

  /** `visualize_16bit_depth` without the plotting: a missing path is
      reported; the magic number picks the OpenEXR reader (result cast to
      float32) or the raster reader; every error is caught and reported.
      `bytes`, `exr` and `decoded` are what reading the file, the OpenEXR
      binding and OpenCV give for `path`. */
  method VisualizeDepth(path: string, pathExists: bool, bytes: FileBytes, hasOpenExr: bool,
                        exr: Option<ExrFile>, decoded: Option<Array>) returns (r: Result<View>)
    requires decoded.Some? ==> WellFormed(decoded.value)
    ensures !pathExists ==> r == Err(FileNotFound(path))
    ensures r.Ok? ==> pathExists && (r.value.source == FromExr <==> IsExrByMagic(bytes))
    ensures r.Ok? ==> r.value.depth.samples != [] && r.value.validSamples == |Positive(r.value.depth.samples)|
    ensures r.Ok? ==> r.value.depth.dtype != Int32 && r.value.depth.dtype != Int64
    ensures r.Ok? && r.value.source == FromExr ==>
              && hasOpenExr && exr.Some? && PreferredChannel(exr.value.header.channels).Ok?
              && Ok(r.value.depth) == DecodePlane(exr.value, PreferredChannel(exr.value.header.channels).value)
    ensures pathExists && IsExrByMagic(bytes) ==>
              && (!hasOpenExr ==> r == Err(OpenExrUnavailable))
              && (hasOpenExr && exr.None? ==> r == Err(ExrOpenFailed))
              && (hasOpenExr && exr.Some? && exr.value.header.channels == [] ==> r == Err(NoChannels))
    ensures pathExists && IsExrByMagic(bytes) && hasOpenExr && exr.Some? && exr.value.header.channels != [] ==>
              var plane := DecodePlane(exr.value, PreferredChannel(exr.value.header.channels).value);
              && (plane.Err? ==> r == Err(plane.error))
              && (plane.Ok? && plane.value.samples == [] ==> r == Err(EmptyArray))
              && (plane.Ok? && plane.value.samples != [] ==> r.Ok? && r.value.depth == plane.value)
    ensures pathExists && !IsExrByMagic(bytes) ==>
              && (r.Ok? <==> decoded.Some? && ReadRaster(decoded).value.samples != [])
              && (decoded.None? ==> r == Err(ImageReadFailed))
              && (decoded.Some? && ReadRaster(decoded).value.samples == [] ==> r == Err(EmptyArray))
              && (r.Ok? ==> r.value.depth == Promote(ReadRaster(decoded).value))
  {
    if !pathExists {
      return Err(FileNotFound(path));
    }
    var depth: Array;
    var source: Source;
    if IsExrByMagic(bytes) {
      depth :- ReadExrDepth(hasOpenExr, exr);
      depth := depth.(dtype := Float32);
      source := FromExr;
    } else {
      depth :- ReadRaster(decoded);
      source := FromRaster;
    }
    if depth.samples == [] {
      return Err(EmptyArray);
    }
    depth := Promote(depth);
    r := Ok(View(depth, source, |Positive(depth.samples)|));
  }
}
