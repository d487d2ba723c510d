/** One geo-referenced raster (the `GeoTiff` class): how a raster file or
    in-memory dataset is validated and turned into a band record, how the
    UTM zone is read off the projection text, the no-data mask, the affine
    pixel-to-coordinate transform and the metre-to-native-unit conversion
    used before resampling. GDAL, the file system and the `utm` library
    enter as parameters. */
module GeoTiffs {
  import opened Wrappers
  import opened Strings
  import Paths
  import Shapes
  import Helpers

  /** A pixel after promotion to floating point. IEEE infinities and NaN are
      not told apart: they are the one value `NonFinite`. */
  datatype Pixel = Finite(v: real) | NonFinite

  /** Row-major pixel rows of one raster layer. */
  type Grid = seq<seq<Pixel>>

  /** Row-major flags, true where a pixel is to be masked out. */
  type Mask = seq<seq<bool>>

  function Rows<T>(g: seq<seq<T>>): nat { |g| }

  function Cols<T>(g: seq<seq<T>>): nat { if |g| == 0 then 0 else |g[0]| }

  /** Two grids have the same number of rows and equally long rows. */
  predicate SameDims<S, T>(a: seq<seq<S>>, b: seq<seq<T>>)
  {
    |a| == |b| && forall i :: 0 <= i < |a| ==> |a[i]| == |b[i]|
  }

  /** GDAL's six affine coefficients, in GDAL's order: x of the origin, x
      per column, x per row, y of the origin, y per column, y per row. */
  datatype GeoTransform = GeoTransform(
    x0: real, xPerCol: real, xPerRow: real,
    y0: real, yPerCol: real, yPerRow: real)

  /** What `gdal.Open` yields: the projection text (empty when the file is
      not geo-referenced), the geotransform, the first layer's pixels, the
      layer count and the declared no-data value of the first layer. */
  datatype Dataset = Dataset(
    projection: string,
    transform: GeoTransform,
    data: Grid,
    count: nat,
    noData: Option<real>)

  /** The file system and GDAL together: a path is a key exactly when it is
      an existing file, and maps to what `gdal.Open` returns for it (`None`
      when GDAL cannot read it). */
  type Disk = map<string, Option<Dataset>>

  /** A UTM zone: number and letter(s). */
  datatype Zone = Zone(number: nat, letter: string)

  /** The `utm` library and the great-circle ground-sample estimate, which
      are outside the model: the zone of a latitude/longitude (`None` where
      the library raises), the latitude of an easting/northing in a zone, and
      the pixel width and height in metres that `find_gsd` derives from a
      geographic geotransform. */
  datatype Geodesy = Geodesy(
    zoneOf: (real, real) -> Option<Zone>,
    latitudeOf: (real, real, Zone) -> Option<real>,
    groundSample: GeoTransform -> (real, real))

  /** The attributes of a constructed `GeoTiff`. `imgName` is `None` for an
      object built from an in-memory dataset. */
  datatype GeoTiff = GeoTiff(
    projection: string,
    transform: GeoTransform,
    data: Grid,
    shape: Shapes.Shape,
    count: nat,
    pixelWidth: real,
    pixelHeight: real,
    pixelWidthM: real,
    pixelHeightM: real,
    noDataMask: Option<Mask>,
    utmProj: bool,
    zone: Option<Zone>,
    epsg: Option<string>,
    imgName: Option<string>)

  /** Why `__new__` returned `None`. */
  datatype Rejection = FileMissing | NotGeoreferenced | NothingGiven

  /** Why `__init__` raised: no raster layer, a failing `utm` call, or
      `get_epsg_code` reaching its `return` with no code bound (latitude
      exactly zero). */
  datatype Crash = NoRasterBand | UtmLookupFailed | EpsgUnbound

  /** The three ways a `GeoTiff(...)` call ends. */
  datatype Outcome = Built(tiff: GeoTiff) | Rejected(why: Rejection) | Raised(crash: Crash)

  /** `"utm" in projection.lower()`. */
  predicate IsUtm(projection: string)
  {
    Contains(Lower(projection), "utm")
  }

  /** The letters u, t, m, in any case, start at index `i` of `p`. */
  predicate UtmAt(p: string, i: int)
  {
    0 <= i && i + 3 <= |p| &&
    LowerChar(p[i]) == 'u' && LowerChar(p[i + 1]) == 't' && LowerChar(p[i + 2]) == 'm'
  }

  /** The UTM test is a case-insensitive search for the letters u, t, m in a row. */
  lemma IsUtmIff(p: string)
    ensures IsUtm(p) <==> exists i :: UtmAt(p, i)
  {
    var l := Lower(p);
    ContainsIff(l, "utm");
    if IsUtm(p) {
      var i :| OccursAt("utm", l, i);
      assert l[i..i + 3][0] == l[i] && l[i..i + 3][1] == l[i + 1] && l[i..i + 3][2] == l[i + 2];
      assert UtmAt(p, i);
    }
    if exists i :: UtmAt(p, i) {
      var i :| UtmAt(p, i);
      assert l[i..i + 3] == "utm";
      ContainsAt(l, "utm", i);
    }
  }

  /** The text `_extract_utm_info` looks for. */
  const Marker: string := "UTM zone "

  /** `projection.split("UTM zone ")[1][:4]`: up to four characters right
      after the first marker, cut short where the next marker starts.
      `None` when there is no marker (the IndexError). */
  function UtmWindow(p: string): (r: Option<string>)
    ensures r.None? <==> IndexOf(p, Marker).None?
    ensures r.Some? ==> var at := IndexOf(p, Marker).value + |Marker|;
      var w := r.value;
      && at + |w| <= |p| && p[at..at + |w|] == w
      && |w| <= 4
      && (|w| == 4 || at + |w| == |p| || OccursAt(Marker, p, at + |w|))
      && forall j :: at <= j < at + |w| ==> !OccursAt(Marker, p, j)
  {
    match IndexOf(p, Marker)
    case None => None
    case Some(i) =>
      var rest := p[i + |Marker|..];
      var piece := match IndexOf(rest, Marker)
                   case None => rest
                   case Some(k) => rest[..k];
      var w := if |piece| <= 4 then piece else piece[..4];
      WindowFacts(p, i, w);
      Some(w)
  }

  lemma WindowFacts(p: string, i: nat, w: string)
    requires OccursAt(Marker, p, i)
    requires var rest := p[i + |Marker|..];
      var piece := match IndexOf(rest, Marker) case None => rest case Some(k) => rest[..k];
      w == if |piece| <= 4 then piece else piece[..4]
    ensures var at := i + |Marker|;
      && at + |w| <= |p| && p[at..at + |w|] == w
      && |w| <= 4
      && (|w| == 4 || at + |w| == |p| || OccursAt(Marker, p, at + |w|))
      && forall j :: at <= j < at + |w| ==> !OccursAt(Marker, p, j)
  {
    var at := i + |Marker|;
    var rest := p[at..];
    assert rest[..|w|] == w;
    if |w| < 4 && at + |w| < |p| {
      var k := IndexOf(rest, Marker).value;
      assert k == |w|;
      assert rest[k..k + |Marker|] == p[at + k..at + k + |Marker|];
    }
    forall j | at <= j < at + |w| ensures !OccursAt(Marker, p, j) {
      if OccursAt(Marker, p, j) {
        assert rest[j - at..j - at + |Marker|] == p[j..j + |Marker|];
        assert OccursAt(Marker, rest, j - at);
      }
    }
  }

  /** `_extract_utm_info`: the digits of the window, in order, are the zone
      number and its letters, in order, the zone letter. No marker, or no
      digit in the window (`int("")` raises), gives no zone. */
  function ExtractUtmInfo(p: string): (r: Option<Zone>)
    ensures r.Some? <==> UtmWindow(p).Some? && Digits(UtmWindow(p).value) != ""
    ensures r.Some? ==> var w := UtmWindow(p).value;
      r.value.number == ParseDecimal(Digits(w)) && r.value.letter == Letters(w)
  {
    match UtmWindow(p)
    case None => None
    case Some(w) =>
      var ds := Digits(w);
      if ds == "" then None else Some(Zone(ParseDecimal(ds), Letters(w)))
  }

  /** A projection naming zone 56S yields zone number 56 and letter "S";
      one without the marker yields nothing. */
  lemma ExtractUtmExamples()
    ensures ExtractUtmInfo("UTM zone 56S") == Some(Zone(56, "S"))
    ensures ExtractUtmInfo("UTM zone S") == None
    ensures ExtractUtmInfo("WGS 84") == None
  {
    ExtractUtmZone56S();
    ExtractUtmNoNumber();
    assert IndexFrom("WGS 84", Marker, 0).None?;
  }

  lemma ExtractUtmZone56S()
    ensures ExtractUtmInfo("UTM zone 56S") == Some(Zone(56, "S"))
  {
    WindowOf56S();
    ZoneText56S();
  }

  lemma WindowOf56S()
    ensures UtmWindow("UTM zone 56S") == Some("56S")
  {
    var p := "UTM zone 56S";
    assert p[0..9] == Marker;
    assert IndexFrom(p, Marker, 0) == Some(0);
    assert p[9..] == "56S";
    assert IndexFrom("56S", Marker, 0).None?;
  }

  lemma ZoneText56S()
    ensures Digits("56S") == "56" && Letters("56S") == "S" && ParseDecimal("56") == 56
  {
    assert "56S"[1..] == "6S" && "6S"[1..] == "S" && "S"[1..] == "";
    assert "56"[..1] == "5";
    assert ParseDecimal("5") == 5 by { assert "5"[..0] == ""; }
  }

  lemma ExtractUtmNoNumber()
    ensures ExtractUtmInfo("UTM zone S") == None
  {
    var q := "UTM zone S";
    assert q[0..9] == Marker;
    assert IndexFrom(q, Marker, 0) == Some(0);
    assert q[9..] == "S";
    assert IndexFrom("S", Marker, 0).None?;
    assert Digits("S") == "" by { assert "S"[1..] == ""; }
  }

  /** `raster_data == no_data_value`, pixel by pixel. */
  function NoDataMask(data: Grid, value: real): (m: Mask)
    ensures SameDims(m, data)
    ensures forall i, j :: 0 <= i < |data| && 0 <= j < |data[i]| ==>
              (m[i][j] <==> data[i][j] == Finite(value))
  {
    seq(|data|, i requires 0 <= i < |data| =>
      seq(|data[i]|, j requires 0 <= j < |data[i]| => data[i][j] == Finite(value)))
  }

  /** Python truthiness of the declared no-data value: `None` and zero are false. */
  predicate Truthy(v: Option<real>) { v.Some? && v.value != 0.0 }

  /** `raster_data.shape`: (rows, columns), with the layer count appended
      when there is more than one layer. */
  function ShapeOf(d: Dataset): Shapes.Shape
  {
    if d.count > 1 then [Rows(d.data), Cols(d.data), d.count] else [Rows(d.data), Cols(d.data)]
  }

  /** What `__init__` reads off a dataset: projection, geotransform and
      pixels unchanged; the shape's first two entries are rows and columns;
      pixel width is the geotransform's x step and pixel height the absolute
      value of its y step; the UTM flag is the case-insensitive test, and for
      UTM data the metre sizes are the native ones and the zone is parsed
      from the projection; a mask exists exactly for a truthy no-data value
      and marks the pixels equal to it. */
  ghost predicate Describes(t: GeoTiff, d: Dataset)
  {
    && t.projection == d.projection
    && t.transform == d.transform && t.data == d.data
    && |t.shape| >= 2 && t.shape[..2] == [Rows(d.data), Cols(d.data)]
    && t.shape == ShapeOf(d)
    && t.count == d.count > 0
    && t.pixelWidth == d.transform.xPerCol
    && (t.pixelHeight == d.transform.yPerRow || t.pixelHeight == -d.transform.yPerRow)
    && t.pixelHeight >= 0.0
    && (t.utmProj <==> IsUtm(d.projection))
    && (t.utmProj ==> t.pixelWidthM == t.pixelWidth && t.pixelHeightM == t.pixelHeight)
    && (t.utmProj ==> t.zone == ExtractUtmInfo(d.projection))
    && (t.noDataMask.Some? <==> Truthy(d.noData))
    && (t.noDataMask.Some? ==> t.noDataMask.value == NoDataMask(d.data, d.noData.value))
  }

  /** The body of `__init__` on a geo-referenced dataset; `name` is the path's
      basename when a path was given. A dataset without raster layers, a
      failing `utm` lookup, or a latitude of exactly zero (where
      `get_epsg_code` binds no code) raises. */
  function Init(d: Dataset, name: Option<string>, geo: Geodesy): (r: Outcome)
    ensures !r.Rejected?
    ensures d.count == 0 ==> r == Raised(NoRasterBand)
    ensures r.Built? ==> Describes(r.tiff, d) && r.tiff.imgName == name
    ensures d.count > 0 && !IsUtm(d.projection) ==>
              (r.Raised? <==> geo.zoneOf(d.transform.y0, d.transform.x0).None? || d.transform.y0 == 0.0)
    ensures r.Built? && !IsUtm(d.projection) ==>
              && r.tiff.zone == geo.zoneOf(d.transform.y0, d.transform.x0)
              && (r.tiff.pixelWidthM, r.tiff.pixelHeightM) == geo.groundSample(d.transform)
              && Helpers.GetEpsgCode(d.transform.y0, r.tiff.zone.value.number).Some?
              && r.tiff.epsg == Some("EPSG:" + Helpers.GetEpsgCode(d.transform.y0, r.tiff.zone.value.number).value)
    ensures d.count > 0 && IsUtm(d.projection) && ExtractUtmInfo(d.projection).None? ==>
              r.Built? && r.tiff.epsg.None?
    ensures d.count > 0 && IsUtm(d.projection) && ExtractUtmInfo(d.projection).Some? ==>
              var lat := geo.latitudeOf(d.transform.x0, d.transform.y0, ExtractUtmInfo(d.projection).value);
              (r.Raised? <==> lat.None? || lat.value == 0.0)
    ensures r.Built? && IsUtm(d.projection) && r.tiff.zone.Some? ==>
              var z := r.tiff.zone.value;
              var lat := geo.latitudeOf(d.transform.x0, d.transform.y0, z);
              && lat.Some? && Helpers.GetEpsgCode(lat.value, z.number).Some?
              && r.tiff.epsg == Some("EPSG:" + Helpers.GetEpsgCode(lat.value, z.number).value)
  {
    if d.count == 0 then Raised(NoRasterBand)
    else
      var gt := d.transform;
      var pw := gt.xPerCol;
      var ph := if gt.yPerRow < 0.0 then -gt.yPerRow else gt.yPerRow;
      var mask := if Truthy(d.noData) then Some(NoDataMask(d.data, d.noData.value)) else None;
      var base := GeoTiff(d.projection, gt, d.data, ShapeOf(d), d.count, pw, ph, pw, ph,
                          mask, false, None, None, name);
      if !IsUtm(d.projection) then
        match geo.zoneOf(gt.y0, gt.x0)
        case None => Raised(UtmLookupFailed)
        case Some(z) =>
          var (wm, hm) := geo.groundSample(gt);
          match Helpers.GetEpsgCode(gt.y0, z.number)
          case None => Raised(EpsgUnbound)
          case Some(code) =>
            Built(base.(pixelWidthM := wm, pixelHeightM := hm, zone := Some(z), epsg := Some("EPSG:" + code)))
      else
        match ExtractUtmInfo(d.projection)
        case None => Built(base.(utmProj := true))
        case Some(z) =>
          match geo.latitudeOf(gt.x0, gt.y0, z)
          case None => Raised(UtmLookupFailed)
          case Some(lat) =>
            match Helpers.GetEpsgCode(lat, z.number)
            case None => Raised(EpsgUnbound)
            case Some(code) => Built(base.(utmProj := true, zone := Some(z), epsg := Some("EPSG:" + code)))
  }

  /** Off the equator and for zones 10 to 99 the code `__init__` builds is
      the registry's WGS 84 / UTM code. */
  lemma InitRegistryCode(d: Dataset, name: Option<string>, geo: Geodesy)
    requires Init(d, name, geo).Built? && Init(d, name, geo).tiff.zone.Some?
    requires 10 <= Init(d, name, geo).tiff.zone.value.number < 100
    ensures var t := Init(d, name, geo).tiff;
            var z := t.zone.value;
            var lat := if IsUtm(d.projection) then geo.latitudeOf(d.transform.x0, d.transform.y0, z).value
                       else d.transform.y0;
            t.epsg == Some("EPSG:" + Helpers.EpsgCode(lat, z.number))
  {
    var t := Init(d, name, geo).tiff;
    var z := t.zone.value;
    var lat := if IsUtm(d.projection) then geo.latitudeOf(d.transform.x0, d.transform.y0, z).value
               else d.transform.y0;
    assert Helpers.GetEpsgCode(lat, z.number).Some?;
    Helpers.EpsgAgreesFromZoneTen(lat, z.number);
  }

  /** The dataset a `GeoTiff(path, in_ds)` call works on: the opened file when
      a (non-empty) path is given, otherwise the dataset passed in. */
  function Source(path: string, ds: Option<Dataset>, disk: Disk): Option<Dataset>
  {
    if path != "" then (if path in disk then disk[path] else None) else ds
  }

  /** `GeoTiff(geotiff_path=path, in_ds=ds)`: `__new__`'s checks followed by
      `__init__`. A missing file, a dataset without projection, or nothing
      to open gives `None`; otherwise the object's attributes are read off
      the dataset. */
  function Construct(path: string, ds: Option<Dataset>, disk: Disk, geo: Geodesy): (r: Outcome)
    ensures path != "" && path !in disk ==> r == Rejected(FileMissing)
    ensures !(path != "" && path !in disk) && Source(path, ds, disk).None? ==> r == Rejected(NothingGiven)
    ensures Source(path, ds, disk).Some? && Source(path, ds, disk).value.projection == "" ==>
              r == Rejected(NotGeoreferenced)
    ensures r.Rejected? <==> (path != "" && path !in disk) || Source(path, ds, disk).None?
                             || Source(path, ds, disk).value.projection == ""
    ensures !r.Rejected? ==>
              r == Init(Source(path, ds, disk).value, if path != "" then Some(Paths.Basename(path)) else None, geo)
    ensures r.Built? ==> var d := Source(path, ds, disk).value;
      && d.projection != "" && Describes(r.tiff, d)
      && (r.tiff.imgName.Some? <==> path != "")
      && (path != "" ==> r.tiff.imgName == Some(Paths.Basename(path)))
  {
    if path != "" && path !in disk then Rejected(FileMissing)
    else
      match Source(path, ds, disk)
      case None => Rejected(NothingGiven)
      case Some(d) =>
        if d.projection == "" then Rejected(NotGeoreferenced)
        else Init(d, if path != "" then Some(Paths.Basename(path)) else None, geo)
  }

  /** `__repr__`: "GeoTiff_obj_" followed by the image name, `None` when the
      name is missing or empty. */
  function Repr(t: GeoTiff): (r: Option<string>)
    ensures r.Some? <==> t.imgName.Some? && t.imgName.value != ""
    ensures r.Some? ==> |r.value| > 12 && r.value[..12] == "GeoTiff_obj_"
                        && r.value[12..] == t.imgName.value
  {
    match t.imgName
    case None => None
    case Some(n) => if n == "" then None else Some("GeoTiff_obj_" + n)
  }

  /** An object built from a file is displayed by its file's basename. */
  lemma ReprOfFile(path: string, disk: Disk, geo: Geodesy)
    requires Construct(path, None, disk, geo).Built?
    requires Paths.Basename(path) != ""
    ensures Repr(Construct(path, None, disk, geo).tiff) == Some("GeoTiff_obj_" + Paths.Basename(path))
  {
  }

  /** `gps_coord_transform((row, col))`: GDAL's affine map from a pixel
      position to coordinates, returned as (y, x). */
  function GpsCoordTransform(gt: GeoTransform, row: real, col: real): (r: (real, real))
    ensures gt.xPerRow == 0.0 && gt.yPerCol == 0.0 ==>
              r.0 - gt.y0 == row * gt.yPerRow && r.1 - gt.x0 == col * gt.xPerCol
  {
    (gt.y0 + col * gt.yPerCol + row * gt.yPerRow, gt.x0 + col * gt.xPerCol + row * gt.xPerRow)
  }

  /** Pixel (0, 0) maps to the origin, returned as (y, x). */
  lemma GpsOrigin(gt: GeoTransform)
    ensures GpsCoordTransform(gt, 0.0, 0.0) == (gt.y0, gt.x0)
  {
  }

  /** The map is affine: a step of one column moves the coordinates by the
      per-column coefficients, a step of one row by the per-row ones. */
  lemma GpsSteps(gt: GeoTransform, row: real, col: real)
    ensures var p := GpsCoordTransform(gt, row, col);
            var right := GpsCoordTransform(gt, row, col + 1.0);
            var down := GpsCoordTransform(gt, row + 1.0, col);
            && right == (p.0 + gt.yPerCol, p.1 + gt.xPerCol)
            && down == (p.0 + gt.yPerRow, p.1 + gt.xPerRow)
  {
    var p := GpsCoordTransform(gt, row, col);
    var right := GpsCoordTransform(gt, row, col + 1.0);
    var down := GpsCoordTransform(gt, row + 1.0, col);
    assert (col + 1.0) * gt.yPerCol == col * gt.yPerCol + gt.yPerCol;
    assert (col + 1.0) * gt.xPerCol == col * gt.xPerCol + gt.xPerCol;
    assert (row + 1.0) * gt.yPerRow == row * gt.yPerRow + gt.yPerRow;
    assert (row + 1.0) * gt.xPerRow == row * gt.xPerRow + gt.xPerRow;
    assert right.0 == gt.y0 + (col + 1.0) * gt.yPerCol + row * gt.yPerRow;
    assert right.1 == gt.x0 + (col + 1.0) * gt.xPerCol + row * gt.xPerRow;
    assert down.0 == gt.y0 + col * gt.yPerCol + (row + 1.0) * gt.yPerRow;
    assert down.1 == gt.x0 + col * gt.xPerCol + (row + 1.0) * gt.xPerRow;
    assert right.0 == p.0 + gt.yPerCol && right.1 == p.1 + gt.xPerCol;
    assert down.0 == p.0 + gt.yPerRow && down.1 == p.1 + gt.xPerRow;
  }

  /** For a north-up transform with non-zero pixel sizes the map can be
      inverted: the pixel position is recovered from the coordinates. */
  lemma {:induction false} GpsInvertible(gt: GeoTransform, row: real, col: real)
    requires gt.xPerRow == 0.0 && gt.yPerCol == 0.0
    requires gt.xPerCol != 0.0 && gt.yPerRow != 0.0
    ensures var p := GpsCoordTransform(gt, row, col);
            (p.0 - gt.y0) / gt.yPerRow == row && (p.1 - gt.x0) / gt.xPerCol == col
  {
    var p := GpsCoordTransform(gt, row, col);
    assert p.0 - gt.y0 == row * gt.yPerRow;
    assert p.1 - gt.x0 == col * gt.xPerCol;
  }

  /** The step of `resample_band` that converts target pixel sizes given in
      metres into the projection's own units. UTM data is already in metres;
      otherwise the metre values are scaled by native-per-metre pixel size.
      A zero metre pixel size raises ZeroDivisionError (`Failure`). */
  function ResampleFactors(t: GeoTiff, fx: real, fy: real): (r: Result<(real, real), string>)
    ensures t.utmProj ==> r == Success((fx, fy))
    ensures r.Failure? <==> !t.utmProj && (t.pixelWidthM == 0.0 || t.pixelHeightM == 0.0)
    ensures r.Success? && !t.utmProj ==>
              r.value.0 * t.pixelWidthM == fx * t.pixelWidth &&
              r.value.1 * t.pixelHeightM == fy * t.pixelHeight
  {
    if t.utmProj then Success((fx, fy))
    else if t.pixelWidthM == 0.0 || t.pixelHeightM == 0.0 then Failure("ZeroDivisionError")
    else Success((fx / t.pixelWidthM * t.pixelWidth, fy / t.pixelHeightM * t.pixelHeight))
  }
}
