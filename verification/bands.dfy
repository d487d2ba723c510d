/** The `Bands` class: a map from band name to `GeoTiff`, the capability
    flags derived from which names are present, the alignment of all bands to
    one shape, and the normalized-difference indices NDVI, NDRE and NDWI. */
module Bands {
  import opened Wrappers
  import opened GeoTiffs
  import Shapes

  /** `geotiff_objs`: band name to band. */
  type BandMap = map<string, GeoTiff>

  /** `ndvi_flag`, `ndre_flag`, `ndwi_flag` and `rgb_flag`. */
  datatype Flags = Flags(ndvi: bool, ndre: bool, ndwi: bool, rgb: bool)

  /** The state of a `Bands` object. */
  datatype BandSet = BandSet(objs: BandMap, flags: Flags)

  /** What stops a `Bands(...)` call or one of its steps. */
  datatype BandsError =
    | LoadRaised        // a GeoTiff constructor raised
    | NoBandsToMeasure  // `max` of an empty list of shapes
    | ShapeTooShort     // the target shape has no width entry
    | NotAvailable      // the index's flag is false: `None` is returned
    | MissingKey(key: string)
    | ShapeMismatch     // numpy cannot combine the two pixel arrays
    | WrapFailed        // wrapping the index raster into a GeoTiff failed

  /** A capability as the source tests it: some alternative has all its
      band names present. */
  type Requirement = seq<set<string>>

  const NdviNeeds: Requirement := [{"B04", "B07"}, {"red", "nir"}]
  const NdreNeeds: Requirement := [{"B05", "B07"}, {"rededge", "nir"}]
  const NdwiNeeds: Requirement := [{"B08", "B11"}]
  const RgbNeeds: Requirement := [{"B02", "B03", "B04"}, {"blue", "green", "red"}]

  predicate Meets(keys: set<string>, req: Requirement)
  {
    exists i :: 0 <= i < |req| && req[i] <= keys
  }

  /** `_check_available_indexs`: each flag holds exactly when one of its
      alternatives is fully present (`and` binding tighter than `or`). */
  function CheckAvailable(keys: set<string>): (f: Flags)
    ensures f.ndvi <==> ("B04" in keys && "B07" in keys) || ("red" in keys && "nir" in keys)
    ensures f.ndre <==> ("B05" in keys && "B07" in keys) || ("rededge" in keys && "nir" in keys)
    ensures f.ndwi <==> "B08" in keys && "B11" in keys
    ensures f.rgb <==> (("B02" in keys && "B03" in keys && "B04" in keys)
                     || ("blue" in keys && "green" in keys && "red" in keys))
  {
    assert NdviNeeds[0] <= keys <==> "B04" in keys && "B07" in keys;
    assert NdviNeeds[1] <= keys <==> "red" in keys && "nir" in keys;
    assert NdreNeeds[0] <= keys <==> "B05" in keys && "B07" in keys;
    assert NdreNeeds[1] <= keys <==> "rededge" in keys && "nir" in keys;
    assert NdwiNeeds[0] <= keys <==> "B08" in keys && "B11" in keys;
    assert RgbNeeds[0] <= keys <==> "B02" in keys && "B03" in keys && "B04" in keys;
    assert RgbNeeds[1] <= keys <==> "blue" in keys && "green" in keys && "red" in keys;
    Flags(Meets(keys, NdviNeeds), Meets(keys, NdreNeeds), Meets(keys, NdwiNeeds), Meets(keys, RgbNeeds))
  }

  /** Flags only ever switch on as bands are added. */
  lemma FlagsMonotone(small: set<string>, large: set<string>)
    requires small <= large
    ensures var f, g := CheckAvailable(small), CheckAvailable(large);
            (f.ndvi ==> g.ndvi) && (f.ndre ==> g.ndre) && (f.ndwi ==> g.ndwi) && (f.rgb ==> g.rgb)
  {
  }

  /** Three example band sets and the flags they raise. */
  lemma FlagExamples()
    ensures CheckAvailable({"B01", "TCI"}) == Flags(false, false, false, false)
    ensures CheckAvailable({"B02", "B03", "B04"}) == Flags(false, false, false, true)
    ensures CheckAvailable({"red", "nir"}) == Flags(true, false, false, false)
  {
  }

  /** The band loop of `add_bands`: each requested path is opened as a
      `GeoTiff`; a band whose constructor returns `None` is skipped, every
      other band is stored under its requested name, and a constructor that
      raises aborts the whole call. */
  function LoadBands(req: map<string, string>, disk: Disk, geo: Geodesy): (r: Result<BandMap, BandsError>)
    ensures r.Failure? <==> exists k :: k in req && Construct(req[k], None, disk, geo).Raised?
    ensures r.Failure? ==> r.error == LoadRaised
    ensures r.Success? ==> r.value.Keys <= req.Keys
    ensures r.Success? ==> forall k :: k in req ==>
              (k in r.value <==> Construct(req[k], None, disk, geo).Built?)
    ensures r.Success? ==> forall k :: k in r.value ==>
              r.value[k] == Construct(req[k], None, disk, geo).tiff
  {
    if exists k :: k in req && Construct(req[k], None, disk, geo).Raised? then Failure(LoadRaised)
    else Success(map k | k in req && Construct(req[k], None, disk, geo).Built? ::
                   Construct(req[k], None, disk, geo).tiff)
  }

  /** A band whose file is missing, unreadable or not geo-referenced is not
      stored, so it cannot switch a flag on: the flags of the loaded set are
      at most those of the requested names without it. */
  lemma RejectedBandCannotEnableFlag(req: map<string, string>, disk: Disk, geo: Geodesy, k: string)
    requires LoadBands(req, disk, geo).Success?
    requires k in req && Construct(req[k], None, disk, geo).Rejected?
    ensures var loaded := LoadBands(req, disk, geo).value.Keys;
            k !in loaded &&
            var f, g := CheckAvailable(loaded), CheckAvailable(req.Keys - {k});
            (f.ndvi ==> g.ndvi) && (f.ndre ==> g.ndre) && (f.ndwi ==> g.ndwi) && (f.rgb ==> g.rgb)
  {
    var loaded := LoadBands(req, disk, geo).value.Keys;
    assert loaded <= req.Keys - {k};
    FlagsMonotone(loaded, req.Keys - {k});
  }

  /** `_update_vars` after a GDAL warp: the pixels, projection, geotransform
      and derived sizes are re-read from the warped dataset; the layer count,
      mask, zone, EPSG code and name are kept. The shape gains the layer
      count as a third entry when the band has more than one layer. */
  function UpdateVars(t: GeoTiff, ds: Dataset, geo: Geodesy): (r: GeoTiff)
    ensures r.projection == ds.projection && r.transform == ds.transform && r.data == ds.data
    ensures |r.shape| >= 2 && r.shape[..2] == [Rows(ds.data), Cols(ds.data)]
    ensures t.count > 1 ==> |r.shape| == 3 && r.shape[2] == t.count
    ensures t.count <= 1 ==> |r.shape| == 2
    ensures r.pixelWidth == ds.transform.xPerCol
    ensures r.pixelHeight >= 0.0 && (r.pixelHeight == ds.transform.yPerRow || r.pixelHeight == -ds.transform.yPerRow)
    ensures r.utmProj <==> IsUtm(ds.projection)
    ensures r.utmProj ==> r.pixelWidthM == r.pixelWidth && r.pixelHeightM == r.pixelHeight
    ensures !r.utmProj ==> (r.pixelWidthM, r.pixelHeightM) == geo.groundSample(ds.transform)
    ensures r.count == t.count && r.noDataMask == t.noDataMask && r.zone == t.zone
    ensures r.epsg == t.epsg && r.imgName == t.imgName
  {
    var gt := ds.transform;
    var pw := gt.xPerCol;
    var ph := if gt.yPerRow < 0.0 then -gt.yPerRow else gt.yPerRow;
    var shape := if t.count > 1 then [Rows(ds.data), Cols(ds.data), t.count]
                 else [Rows(ds.data), Cols(ds.data)];
    var utm := IsUtm(ds.projection);
    var (wm, hm) := if utm then (pw, ph) else geo.groundSample(gt);
    t.(projection := ds.projection, transform := gt, data := ds.data, shape := shape,
       pixelWidth := pw, pixelHeight := ph, pixelWidthM := wm, pixelHeightM := hm, utmProj := utm)
  }

  /** `gdal.Warp(..., width=w, height=h, ...)` as a parameter: the dataset it
      produces for a band and a target height and width. */
  type Warp = (GeoTiff, nat, nat) -> Dataset

  /** GDAL produces rasters of the requested size: `h` rows, each `w` pixels
      wide. GDAL reads a zero height or width as "choose it yourself", so
      only positive sizes are promised. */
  ghost predicate HonoursSize(warp: Warp)
  {
    forall t, h, w :: h > 0 && w > 0 ==> Sized(warp(t, h, w).data, h, w)
  }

  /** A warp that fills the requested size with zeros. */
  function ZeroWarp(t: GeoTiff, h: nat, w: nat): Dataset
  {
    Dataset(t.projection, t.transform, seq(h, _ => seq(w, _ => Finite(0.0))), t.count, None)
  }

  /** Honouring the size is a condition some warp meets. */
  lemma ZeroWarpHonoursSize()
    ensures HonoursSize(ZeroWarp)
  {
    forall t, h: nat, w: nat | h > 0 && w > 0 ensures Sized(ZeroWarp(t, h, w).data, h, w) {
      var g := ZeroWarp(t, h, w).data;
      assert |g| == h && |g[0]| == w;
    }
  }

  /** A grid of `h` rows of `w` pixels each. */
  predicate Sized(g: Grid, h: nat, w: nat)
  {
    Rows(g) == h && Cols(g) == w && forall i :: 0 <= i < |g| ==> |g[i]| == w
  }

  /** A shape with positive height and width: what every GDAL raster has. */
  predicate Positive(s: Shapes.Shape)
  {
    |s| >= 2 && s[0] > 0 && s[1] > 0
  }

  /** The list `[i.raster_data_shape for _, i in geotiff_objs.iteritems()]`
      in the dict's iteration order. */
  function ShapesInOrder(objs: BandMap, order: seq<string>): (r: seq<Shapes.Shape>)
    requires forall i :: 0 <= i < |order| ==> order[i] in objs
    ensures |r| == |order|
    ensures forall i :: 0 <= i < |order| ==> r[i] == objs[order[i]].shape
  {
    seq(|order|, i requires 0 <= i < |order| => objs[order[i]].shape)
  }

  /** `order` lists the keys of `objs`: the dict's iteration order. */
  ghost predicate Enumerates(order: seq<string>, objs: BandMap)
  {
    forall k :: k in objs <==> k in order
  }

  /** The shape `resize_bands` aligns to: the user's shape when one is given
      (non-empty), otherwise the greatest band shape in Python's tuple order.
      `max` of no shapes raises. */
  function TargetShape(objs: BandMap, userShape: Shapes.Shape, order: seq<string>): (r: Result<Shapes.Shape, BandsError>)
    requires Enumerates(order, objs)
    ensures |userShape| > 0 ==> r == Success(userShape)
    ensures |userShape| == 0 && |objs| == 0 ==> r == Failure(NoBandsToMeasure)
    ensures |userShape| == 0 && |objs| > 0 ==>
              && r.Success?
              && (exists k :: k in objs && objs[k].shape == r.value)
              && (forall k :: k in objs ==> Shapes.LessEq(objs[k].shape, r.value))
  {
    if |userShape| > 0 then Success(userShape)
    else if |order| == 0 then
      assert objs.Keys == {};
      Failure(NoBandsToMeasure)
    else
      var shapes := ShapesInOrder(objs, order);
      var m := Shapes.Max(shapes);
      assert forall k :: k in objs ==> Shapes.LessEq(objs[k].shape, m) by {
        forall k | k in objs ensures Shapes.LessEq(objs[k].shape, m) {
          var i :| 0 <= i < |order| && order[i] == k;
          assert shapes[i] == objs[k].shape;
        }
      }
      var i :| 0 <= i < |shapes| && shapes[i] == m;
      assert order[i] in objs && objs[order[i]].shape == m;
      Success(m)
  }

  /** The dict's iteration order does not change the target shape. */
  lemma TargetShapeOrderIndependent(objs: BandMap, userShape: Shapes.Shape, o1: seq<string>, o2: seq<string>)
    requires Enumerates(o1, objs) && Enumerates(o2, objs)
    ensures TargetShape(objs, userShape, o1) == TargetShape(objs, userShape, o2)
  {
    if |userShape| == 0 && |o1| > 0 {
      var s1, s2 := ShapesInOrder(objs, o1), ShapesInOrder(objs, o2);
      forall s ensures s in s1 <==> s in s2 {
        if s in s1 {
          var i :| 0 <= i < |s1| && s1[i] == s;
          var j :| 0 <= j < |o2| && o2[j] == o1[i];
          assert s2[j] == s;
        }
        if s in s2 {
          var j :| 0 <= j < |s2| && s2[j] == s;
          var i :| 0 <= i < |o1| && o1[i] == o2[j];
          assert s1[i] == s;
        }
      }
      Shapes.MaxOrderIndependent(s1, s2);
    }
  }

  /** `resize_bands(users_shape)`: every band is warped to the target's
      (height, width) and its variables re-read. A target without a second
      entry raises IndexError at the first band; with no bands the loop body
      never runs and nothing is read from the target. */
  function ResizeBands(objs: BandMap, userShape: Shapes.Shape, order: seq<string>, warp: Warp, geo: Geodesy)
    : (r: Result<BandMap, BandsError>)
    requires Enumerates(order, objs)
    ensures TargetShape(objs, userShape, order).Failure? ==> r == Failure(TargetShape(objs, userShape, order).error)
    ensures TargetShape(objs, userShape, order).Success? && |TargetShape(objs, userShape, order).value| < 2 ==>
              (r == Failure(ShapeTooShort) <==> |objs| > 0)
    ensures (TargetShape(objs, userShape, order).Success? &&
             (|TargetShape(objs, userShape, order).value| >= 2 || |objs| == 0)) ==> r.Success?
    ensures r.Success? ==> var target := TargetShape(objs, userShape, order).value;
              && (|objs| > 0 ==> |target| >= 2)
              && r.value.Keys == objs.Keys
              && forall k :: k in objs ==>
                   (|target| >= 2 && r.value[k] == UpdateVars(objs[k], warp(objs[k], target[0], target[1]), geo))
  {
    match TargetShape(objs, userShape, order)
    case Failure(e) => Failure(e)
    case Success(target) =>
      if |target| < 2 then
        if |objs| > 0 then Failure(ShapeTooShort) else Success(objs)
      else Success(map k | k in objs :: UpdateVars(objs[k], warp(objs[k], target[0], target[1]), geo))
  }

  /** Alignment: when GDAL honours the requested size, and the bands and
      any user shape have positive height and width, every band ends with
      the target's height and width, every row of its pixels that wide. */
  lemma ResizeAligns(objs: BandMap, userShape: Shapes.Shape, order: seq<string>, warp: Warp, geo: Geodesy)
    requires Enumerates(order, objs)
    requires HonoursSize(warp)
    requires forall k :: k in objs ==> Positive(objs[k].shape)
    requires |userShape| >= 2 ==> Positive(userShape)
    requires ResizeBands(objs, userShape, order, warp, geo).Success?
    ensures var target := TargetShape(objs, userShape, order).value;
            var r := ResizeBands(objs, userShape, order, warp, geo).value;
            && (|userShape| > 0 ==> target == userShape)
            && (|userShape| == 0 ==> Largest(objs, target))
            && (|objs| > 0 ==> Positive(target))
            && forall k :: k in r ==> && Positive(r[k].shape) && r[k].shape[..2] == target[..2]
                                      && Sized(r[k].data, target[0], target[1])
  {
    var target := TargetShape(objs, userShape, order).value;
    var r := ResizeBands(objs, userShape, order, warp, geo).value;
    if |userShape| == 0 {
      var k' :| k' in objs && objs[k'].shape == target;
    }
    forall k | k in r ensures && Positive(r[k].shape) && r[k].shape[..2] == target[..2]
                              && Sized(r[k].data, target[0], target[1]) {
      WarpedAligned(objs[k], target, warp, geo);
    }
  }

  /** One band warped to a positive size GDAL honours has that height and
      width. */
  lemma WarpedAligned(t: GeoTiff, target: Shapes.Shape, warp: Warp, geo: Geodesy)
    requires HonoursSize(warp) && Positive(target)
    ensures var r := UpdateVars(t, warp(t, target[0], target[1]), geo);
            Positive(r.shape) && r.shape[..2] == target[..2] && Sized(r.data, target[0], target[1])
  {
    var ds := warp(t, target[0], target[1]);
    assert Sized(ds.data, target[0], target[1]);
    assert target[..2] == [target[0], target[1]];
    var r := UpdateVars(t, ds, geo);
    assert r.shape[..2][0] == r.shape[0] && r.shape[..2][1] == r.shape[1];
  }

  /** The keys of `order` that are also keys of `m`, in order. */
  function Present(order: seq<string>, m: BandMap): (r: seq<string>)
    ensures forall k :: k in r <==> k in order && k in m
  {
    if |order| == 0 then []
    else (if order[0] in m then [order[0]] else []) + Present(order[1..], m)
  }

  lemma PresentEnumerates(order: seq<string>, req: map<string, string>, loaded: BandMap)
    requires forall k :: k in req <==> k in order
    requires loaded.Keys <= req.Keys
    ensures Enumerates(Present(order, loaded), loaded)
  {
  }

  /** `s` is the shape of some band of `objs` and no band's shape exceeds it
      in tuple order: what `max` picks. */
  ghost predicate Largest(objs: BandMap, s: Shapes.Shape)
  {
    && (exists k :: k in objs && objs[k].shape == s)
    && (forall k :: k in objs ==> Shapes.LessEq(objs[k].shape, s))
  }

  /** The last step of `add_bands`: align when `resize` is set. */
  function Align(loaded: BandMap, resize: bool, userShape: Shapes.Shape, order: seq<string>,
                 warp: Warp, geo: Geodesy): (r: Result<BandMap, BandsError>)
    requires Enumerates(order, loaded)
    ensures !resize ==> r == Success(loaded)
    ensures resize ==> r == ResizeBands(loaded, userShape, order, warp, geo)
    ensures r.Success? ==> r.value.Keys == loaded.Keys
  {
    if !resize then Success(loaded) else ResizeBands(loaded, userShape, order, warp, geo)
  }

  /** `Bands(bands, resize, resize_shape)`: load, compute the flags from the
      stored names, then align unless `resize` is false. `order` is the
      iteration order of the requested names. */
  function NewBands(req: map<string, string>, resize: bool, userShape: Shapes.Shape, order: seq<string>,
                    disk: Disk, geo: Geodesy, warp: Warp): (r: Result<BandSet, BandsError>)
    requires forall k :: k in req <==> k in order
    ensures LoadBands(req, disk, geo).Failure? ==> r == Failure(LoadRaised)
    ensures r.Success? ==> LoadBands(req, disk, geo).Success?
    ensures r.Success? ==> r.value.flags == CheckAvailable(LoadBands(req, disk, geo).value.Keys)
    ensures r.Success? ==> r.value.objs.Keys == LoadBands(req, disk, geo).value.Keys
    ensures !resize && LoadBands(req, disk, geo).Success? ==>
              r.Success? && r.value.objs == LoadBands(req, disk, geo).value
    ensures resize && LoadBands(req, disk, geo).Success? ==>
              var loaded := LoadBands(req, disk, geo).value;
              var sized := ResizeBands(loaded, userShape, Present(order, loaded), warp, geo);
              && (r.Success? <==> sized.Success?)
              && (r.Failure? ==> r.error == sized.error)
              && (r.Success? ==> r.value.objs == sized.value)
    ensures resize && |userShape| == 0 && LoadBands(req, disk, geo) == Success(map[]) ==>
              r == Failure(NoBandsToMeasure)
  {
    match LoadBands(req, disk, geo)
    case Failure(e) => Failure(e)
    case Success(loaded) =>
      PresentEnumerates(order, req, loaded);
      match Align(loaded, resize, userShape, Present(order, loaded), warp, geo)
      case Failure(e) => Failure(e)
      case Success(objs) => Success(BandSet(objs, CheckAvailable(loaded.Keys)))
  }

  /** Every raster on disk has at least one row and one column, as GDAL
      rasters do. */
  ghost predicate NonEmptyRasters(disk: Disk)
  {
    forall p :: p in disk && disk[p].Some? ==> Rows(disk[p].value.data) > 0 && Cols(disk[p].value.data) > 0
  }

  /** A band loaded from such a disk has a positive shape. */
  lemma LoadedPositive(req: map<string, string>, disk: Disk, geo: Geodesy, k: string)
    requires NonEmptyRasters(disk)
    requires LoadBands(req, disk, geo).Success? && k in LoadBands(req, disk, geo).value
    ensures Positive(LoadBands(req, disk, geo).value[k].shape)
  {
    assert Construct(req[k], None, disk, geo).Built?;
    BuiltPositive(req[k], disk, geo);
  }

  /** A band built from a file of such a disk has a positive shape. */
  lemma BuiltPositive(path: string, disk: Disk, geo: Geodesy)
    requires NonEmptyRasters(disk)
    requires Construct(path, None, disk, geo).Built?
    ensures Positive(Construct(path, None, disk, geo).tiff.shape)
  {
    var t := Construct(path, None, disk, geo).tiff;
    var d := Source(path, None, disk).value;
    assert path in disk && disk[path] == Some(d);
    assert t.shape[0] == Rows(d.data) && t.shape[1] == Cols(d.data) by {
      assert t.shape[..2][0] == t.shape[0] && t.shape[..2][1] == t.shape[1];
    }
  }

  /** A band set built with alignment by a size-honouring GDAL, from rasters
      and a user shape of positive size, has every band at one common height
      and width, the user's when one was given, and its flags fit its names. */
  lemma NewBandsAligned(req: map<string, string>, userShape: Shapes.Shape, order: seq<string>,
                        disk: Disk, geo: Geodesy, warp: Warp)
    requires forall k :: k in req <==> k in order
    requires HonoursSize(warp)
    requires NonEmptyRasters(disk)
    requires |userShape| >= 2 ==> Positive(userShape)
    requires NewBands(req, true, userShape, order, disk, geo, warp).Success?
    ensures var bs := NewBands(req, true, userShape, order, disk, geo, warp).value;
            && FlagsFit(bs)
            && (forall k :: k in bs.objs ==> Positive(bs.objs[k].shape))
            && (forall k, k' :: k in bs.objs && k' in bs.objs ==>
                  bs.objs[k].shape[..2] == bs.objs[k'].shape[..2])
            && (|userShape| > 0 ==>
                  forall k :: k in bs.objs ==> |userShape| >= 2 && bs.objs[k].shape[..2] == userShape[..2])
            && (|userShape| == 0 ==>
                  exists s :: && Largest(LoadBands(req, disk, geo).value, s) && Positive(s)
                              && forall k :: k in bs.objs ==> bs.objs[k].shape[..2] == s[..2])
  {
    var loaded := LoadBands(req, disk, geo).value;
    PresentEnumerates(order, req, loaded);
    var o := Present(order, loaded);
    var bs := NewBands(req, true, userShape, order, disk, geo, warp).value;
    assert bs.objs == ResizeBands(loaded, userShape, o, warp, geo).value;
    forall k | k in loaded ensures Positive(loaded[k].shape) {
      LoadedPositive(req, disk, geo, k);
    }
    ResizeAligns(loaded, userShape, o, warp, geo);
    var target := TargetShape(loaded, userShape, o).value;
    if |userShape| == 0 {
      assert Largest(loaded, target) && Positive(target);
    }
  }

  /** The flag invariant of a freshly built band set. */
  predicate FlagsFit(bs: BandSet)
  {
    bs.flags == CheckAvailable(bs.objs.Keys)
  }

  /** Which bands an index reads, and the name its result is stored under. */
  datatype IndexSpec = IndexSpec(nir: string, ref: string, out: string)

  const NdviSpec: IndexSpec := IndexSpec("B07", "B04", "ndvi")
  const NdreSpec: IndexSpec := IndexSpec("B07", "B05", "ndre")
  const NdwiSpec: IndexSpec := IndexSpec("B08", "B11", "ndwi")

  /** `a - b` in floating point; a non-finite operand gives a non-finite result. */
  function Minus(a: Pixel, b: Pixel): Pixel
  {
    if a.Finite? && b.Finite? then Finite(a.v - b.v) else NonFinite
  }

  /** `a + b` in floating point. */
  function Plus(a: Pixel, b: Pixel): Pixel
  {
    if a.Finite? && b.Finite? then Finite(a.v + b.v) else NonFinite
  }

  /** `np.true_divide(n, d)`: exact where both are finite and `d` is non-zero,
      non-finite (infinity or NaN) otherwise. */
  function Divide(n: Pixel, d: Pixel): Pixel
  {
    if n.Finite? && d.Finite? && d.v != 0.0 then Finite(n.v / d.v) else NonFinite
  }

  /** The index raster and its no-data mask: per pixel, the quotient of the
      difference by the sum, and a flag where the sum is zero. */
  function IndexRaster(nir: Grid, ref: Grid): (r: (Grid, Mask))
    requires SameDims(nir, ref)
    ensures SameDims(r.0, nir) && SameDims(r.1, nir)
    ensures forall i, j :: 0 <= i < |nir| && 0 <= j < |nir[i]| ==>
              r.0[i][j] == Divide(Minus(nir[i][j], ref[i][j]), Plus(nir[i][j], ref[i][j]))
    ensures forall i, j :: 0 <= i < |nir| && 0 <= j < |nir[i]| ==>
              (r.1[i][j] <==> Plus(nir[i][j], ref[i][j]) == Finite(0.0))
  {
    var data := seq(|nir|, i requires 0 <= i < |nir| =>
      seq(|nir[i]|, j requires 0 <= j < |nir[i]| =>
        Divide(Minus(nir[i][j], ref[i][j]), Plus(nir[i][j], ref[i][j]))));
    var mask := seq(|nir|, i requires 0 <= i < |nir| =>
      seq(|nir[i]|, j requires 0 <= j < |nir[i]| => Plus(nir[i][j], ref[i][j]) == Finite(0.0)));
    (data, mask)
  }

  /** On finite pixels the index is (nir - ref) / (nir + ref) wherever the
      sum is non-zero, and masked and non-finite exactly where it is zero. */
  lemma IndexPixel(nir: Grid, ref: Grid, i: nat, j: nat)
    requires SameDims(nir, ref) && i < |nir| && j < |nir[i]|
    requires nir[i][j].Finite? && ref[i][j].Finite?
    ensures var (data, mask) := IndexRaster(nir, ref);
            var a, b := nir[i][j].v, ref[i][j].v;
            && (mask[i][j] <==> a + b == 0.0)
            && (a + b != 0.0 ==> data[i][j] == Finite((a - b) / (a + b)))
            && (a + b == 0.0 ==> data[i][j] == NonFinite)
  {
  }

  /** nir 4 over ref 2 gives one third; 0 over 0 is undefined and masked. */
  lemma IndexExamples()
    ensures IndexRaster([[Finite(4.0)]], [[Finite(2.0)]]) == ([[Finite(1.0 / 3.0)]], [[false]])
    ensures IndexRaster([[Finite(0.0)]], [[Finite(0.0)]]) == ([[NonFinite]], [[true]])
  {
    var r := IndexRaster([[Finite(4.0)]], [[Finite(2.0)]]);
    assert r.0[0][0] == Finite(2.0 / 6.0) && !r.1[0][0];
    assert r.0[0] == [Finite(1.0 / 3.0)] && r.1[0] == [false];
    assert r.0 == [[Finite(1.0 / 3.0)]] && r.1 == [[false]];
    var z := IndexRaster([[Finite(0.0)]], [[Finite(0.0)]]);
    assert z.0[0][0] == NonFinite && z.1[0][0];
    assert z.0[0] == [NonFinite] && z.1[0] == [true];
    assert z.0 == [[NonFinite]] && z.1 == [[true]];
  }

  /** The in-memory dataset `georeference_raster_to_ds` makes of an index
      raster: one layer, the nir band's projection and geotransform. */
  function IndexDataset(nir: GeoTiff, ref: GeoTiff): Dataset
    requires SameDims(nir.data, ref.data)
  {
    Dataset(nir.projection, nir.transform, IndexRaster(nir.data, ref.data).0, 1, None)
  }

  /** The shared body of `compute_ndvi`, `compute_ndre` and `compute_ndwi`:
      check the flag, read the two bands (a missing one raises KeyError),
      combine their pixels, wrap the result with the nir band's projection and
      geotransform into a new GeoTiff whose mask marks the zero sums, and
      store it under the index's name. */
  function ComputeIndex(bs: BandSet, flag: bool, spec: IndexSpec, geo: Geodesy)
    : (r: Result<(BandSet, GeoTiff), BandsError>)
    ensures (flag && spec.nir in bs.objs && spec.ref in bs.objs &&
             SameDims(bs.objs[spec.nir].data, bs.objs[spec.ref].data)) ==>
              var built := Construct("", Some(IndexDataset(bs.objs[spec.nir], bs.objs[spec.ref])), map[], geo);
              && (r.Success? <==> built.Built?)
              && (r.Failure? ==> r == Failure(WrapFailed))
              && (r.Success? ==> r.value.1 == built.tiff.(noDataMask := r.value.1.noDataMask))
    ensures !flag ==> r == Failure(NotAvailable)
    ensures flag && spec.nir !in bs.objs ==> r == Failure(MissingKey(spec.nir))
    ensures flag && spec.nir in bs.objs && spec.ref !in bs.objs ==> r == Failure(MissingKey(spec.ref))
    ensures (flag && spec.nir in bs.objs && spec.ref in bs.objs &&
             !SameDims(bs.objs[spec.nir].data, bs.objs[spec.ref].data)) ==> r == Failure(ShapeMismatch)
    ensures r.Success? ==> var (bs', t) := r.value;
      && bs'.flags == bs.flags
      && bs'.objs == bs.objs[spec.out := t]
      && spec.nir in bs.objs && spec.ref in bs.objs
      && (var nir, ref := bs.objs[spec.nir], bs.objs[spec.ref];
          && SameDims(nir.data, ref.data)
          && t.projection == nir.projection && t.transform == nir.transform
          && t.data == IndexRaster(nir.data, ref.data).0
          && t.noDataMask == Some(IndexRaster(nir.data, ref.data).1))
  {
    if !flag then Failure(NotAvailable)
    else if spec.nir !in bs.objs then Failure(MissingKey(spec.nir))
    else if spec.ref !in bs.objs then Failure(MissingKey(spec.ref))
    else
      var nir, ref := bs.objs[spec.nir], bs.objs[spec.ref];
      if !SameDims(nir.data, ref.data) then Failure(ShapeMismatch)
      else
        var mask := IndexRaster(nir.data, ref.data).1;
        match Construct("", Some(IndexDataset(nir, ref)), map[], geo)
        case Built(t) =>
          var t' := t.(noDataMask := Some(mask));
          Success((BandSet(bs.objs[spec.out := t'], bs.flags), t'))
        case _ => Failure(WrapFailed)
  }

  /** Only the index's own entry changes, and the flags stay what the stored
      names imply, since no index name is one of the names the flags test. */
  lemma ComputeIndexKeepsOthers(bs: BandSet, flag: bool, spec: IndexSpec, geo: Geodesy, k: string)
    requires ComputeIndex(bs, flag, spec, geo).Success?
    requires spec.out in {"ndvi", "ndre", "ndwi"}
    ensures var bs' := ComputeIndex(bs, flag, spec, geo).value.0;
            && (k != spec.out ==> (k in bs'.objs <==> k in bs.objs))
            && (k != spec.out && k in bs.objs ==> bs'.objs[k] == bs.objs[k])
            && (FlagsFit(bs) ==> FlagsFit(bs'))
  {
    var bs' := ComputeIndex(bs, flag, spec, geo).value.0;
    assert bs'.objs.Keys == bs.objs.Keys + {spec.out};
    FlagsIgnoreIndexName(bs.objs.Keys, spec.out);
  }

  /** Adding an index's name to a key set leaves the flags unchanged. */
  lemma FlagsIgnoreIndexName(keys: set<string>, x: string)
    requires x in {"ndvi", "ndre", "ndwi"}
    ensures CheckAvailable(keys + {x}) == CheckAvailable(keys)
  {
    var names := ["B02", "B03", "B04", "B05", "B07", "B08", "B11", "red", "nir", "rededge", "blue", "green"];
    assert forall i :: 0 <= i < |names| ==> (names[i] in keys + {x} <==> names[i] in keys);
  }

  /** `compute_ndvi`: B07 against B04, guarded by `ndvi_flag`. */
  function ComputeNdvi(bs: BandSet, geo: Geodesy): (r: Result<(BandSet, GeoTiff), BandsError>)
    ensures !bs.flags.ndvi ==> r == Failure(NotAvailable)
    ensures r.Success? ==> "B07" in bs.objs && "B04" in bs.objs && "ndvi" in r.value.0.objs
  {
    ComputeIndex(bs, bs.flags.ndvi, NdviSpec, geo)
  }

  /** `compute_ndre`: B07 against B05, guarded by `ndre_flag`. */
  function ComputeNdre(bs: BandSet, geo: Geodesy): (r: Result<(BandSet, GeoTiff), BandsError>)
    ensures !bs.flags.ndre ==> r == Failure(NotAvailable)
    ensures r.Success? ==> "B07" in bs.objs && "B05" in bs.objs && "ndre" in r.value.0.objs
  {
    ComputeIndex(bs, bs.flags.ndre, NdreSpec, geo)
  }

  /** `compute_ndwi`: B08 against B11, guarded by `ndwi_flag`. */
  function ComputeNdwi(bs: BandSet, geo: Geodesy): (r: Result<(BandSet, GeoTiff), BandsError>)
    ensures !bs.flags.ndwi ==> r == Failure(NotAvailable)
    ensures r.Success? ==> "B08" in bs.objs && "B11" in bs.objs && "ndwi" in r.value.0.objs
  {
    ComputeIndex(bs, bs.flags.ndwi, NdwiSpec, geo)
  }

  /** NDWI's flag names exactly the bands it reads, so a set whose flags fit
      its names never reports a missing NDWI band. */
  lemma NdwiFlagSuffices(bs: BandSet, geo: Geodesy)
    requires FlagsFit(bs) && bs.flags.ndwi
    ensures ComputeNdwi(bs, geo) != Failure(NotAvailable)
    ensures ComputeNdwi(bs, geo).Failure? ==> !ComputeNdwi(bs, geo).error.MissingKey?
  {
  }

  /** As written, a set flagged for NDVI only through the "red"/"nir" aliases
      fails with a missing "B07" key. */
  lemma NdviAliasMissesKey(red: GeoTiff, nir: GeoTiff, geo: Geodesy)
    ensures var objs := map["red" := red, "nir" := nir];
            var bs := BandSet(objs, CheckAvailable(objs.Keys));
            bs.flags.ndvi && ComputeNdvi(bs, geo) == Failure(MissingKey("B07"))
  {
    var objs := map["red" := red, "nir" := nir];
    assert objs.Keys == {"red", "nir"};
  }

  /** The bands NDVI reads, chosen by the alternative that set its flag:
      B07/B04 when both are present, otherwise the "nir"/"red" aliases. */
  function NdviSpecFor(keys: set<string>): IndexSpec
  {
    if "B07" in keys && "B04" in keys then NdviSpec else IndexSpec("nir", "red", "ndvi")
  }

  /** The bands NDRE reads, chosen like NDVI's: B07/B05 or "nir"/"rededge". */
  function NdreSpecFor(keys: set<string>): IndexSpec
  {
    if "B07" in keys && "B05" in keys then NdreSpec else IndexSpec("nir", "rededge", "ndre")
  }

  /** NDVI reading the bands its flag vouched for. */
  function ComputeNdviByFlag(bs: BandSet, geo: Geodesy): (r: Result<(BandSet, GeoTiff), BandsError>)
    ensures !bs.flags.ndvi ==> r == Failure(NotAvailable)
    ensures FlagsFit(bs) && r.Failure? ==> !r.error.MissingKey?
  {
    ComputeIndex(bs, bs.flags.ndvi, NdviSpecFor(bs.objs.Keys), geo)
  }

  /** NDRE reading the bands its flag vouched for. */
  function ComputeNdreByFlag(bs: BandSet, geo: Geodesy): (r: Result<(BandSet, GeoTiff), BandsError>)
    ensures !bs.flags.ndre ==> r == Failure(NotAvailable)
    ensures FlagsFit(bs) && r.Failure? ==> !r.error.MissingKey?
  {
    ComputeIndex(bs, bs.flags.ndre, NdreSpecFor(bs.objs.Keys), geo)
  }

  /** Where the B-numbered bands are present, the flag-driven choice reads
      the same bands as the source. */
  lemma ByFlagAgreesOnBandCodes(bs: BandSet, geo: Geodesy)
    requires "B07" in bs.objs && "B04" in bs.objs && "B05" in bs.objs
    ensures ComputeNdviByFlag(bs, geo) == ComputeNdvi(bs, geo)
    ensures ComputeNdreByFlag(bs, geo) == ComputeNdre(bs, geo)
  {
  }
}
