# sentinel2_auto core, modelled in Dafny

`sentinel2_auto` wraps GDAL rasters of Sentinel-2 bands in two classes:

- `GeoTiff` is one geo-referenced raster. It checks the input, reads the projection and geotransform, detects UTM data, parses the UTM zone, builds a no-data mask, maps pixels to coordinates and converts resample sizes from metres.
- `Bands` is a name-to-`GeoTiff` map. It derives capability flags from the names present, aligns every band to one shape, and computes the NDVI, NDRE and NDWI normalized-difference indices.

A helper module derives the EPSG code of a UTM zone and picks which of two bands to resize. A batch script collates the band files of each scene directory and derives a scene's output directory.

The model is pure Dafny:

- Each entity is an immutable datatype: `Dataset`, `GeoTiff`, `BandSet`, `Zone`, `GeoTransform`.
- Each operation is a function that returns `Option`/`Result`/`Outcome`, so the source's `None` returns and exceptions are explicit cases.
- Everything the code gets from outside comes in as a parameter:
  - `Disk` says which paths exist and what `gdal.Open` gives for each.
  - `Geodesy` is the `utm` library plus the great-circle pixel size.
  - `Warp` is `gdal.Warp`.
  - Directory listings are plain data.

Files:

- `wrappers.dfy`: `Option`, `Result`.
- `strings.dfy`: substring search (Python `in`, `str.split`), digit and letter filters, `int()`/`str()` on naturals.
- `paths.dfy`: `os.path.join`, `basename`, `str.strip`, `split`/`join` on the separator.
- `shapes.dfy`: Python tuple order and `max`.
- `helpers.dfy`: `get_epsg_code` and the `resize_bands` selection rule.
- `geotiff.dfy`: the `GeoTiff` class.
- `bands.dfy`: the `Bands` class.
- `collate.dfy`: `collate_bands` and the output-directory expression of `generate_indicies`.

## Model

| member | source | states |
|---|---|---|
| Bands.CheckAvailable | sentinel2_auto/bands.py:96-124 | Each flag holds exactly when one alternative of its band names is fully present. `and` binds tighter than `or`: ndvi needs B04+B07 or red+nir, ndre needs B05+B07 or rededge+nir, ndwi needs B08+B11, rgb needs B02+B03+B04 or blue+green+red. |
| Bands.FlagsMonotone | sentinel2_auto/bands.py:103-124 | Adding band names never turns a flag off. |
| Bands.FlagExamples | sentinel2_auto/bands.py:106-124 | {B01,TCI} sets no flag, {B02,B03,B04} sets only rgb, {red,nir} sets only ndvi. |
| Bands.LoadBands | sentinel2_auto/bands.py:146-156 | A band is stored under its requested name exactly when its constructor builds an object; a `None` result is skipped. Any constructor that raises aborts the load. No other name is stored. |
| Bands.RejectedBandCannotEnableFlag | sentinel2_auto/bands.py:146-158 | A band whose constructor returns `None` is absent, so the flags are at most those of the other requested names. |
| Bands.UpdateVars | sentinel2_auto/geoTiff.py:83-106 | After a warp the pixels, projection and geotransform come from the new dataset. The shape is (rows, cols), with the layer count as a third entry exactly when there is more than one layer. Pixel width is gt[1] and pixel height abs(gt[5]). The UTM flag is recomputed: UTM data takes the native sizes as metres, other data the ground sample distance of the new geotransform. The count, mask, zone, EPSG code and name are kept. |
| Bands.TargetShape | sentinel2_auto/bands.py:35-48 | A non-empty user shape is the target. Otherwise the target is a band's own shape that is at least every band's shape in tuple order. No bands and no user shape is an error. |
| Bands.TargetShapeOrderIndependent | sentinel2_auto/bands.py:38 | The target does not depend on the dict's iteration order. |
| Bands.ResizeBands | sentinel2_auto/bands.py:27-48 | Each band is replaced by its own re-read after warping it to the target's (height, width). The key set is unchanged. A missing target fails as `TargetShape` does. A target with fewer than two entries fails exactly when there is a band to resize. The call succeeds whenever the target has two entries or there are no bands. |
| Bands.ResizeAligns | sentinel2_auto/bands.py:35-48 | When the warp honours positive sizes and the bands and any user shape have positive height and width, the target is the user's shape when given and otherwise the largest band shape, it is positive, and every resized band has its (height, width), with every pixel row that wide. |
| Bands.WarpedAligned | sentinel2_auto/geoTiff.py:309-316 | One band warped to a positive size that is honoured takes that height and width, in its shape and in its pixel rows. |
| Bands.Align | sentinel2_auto/bands.py:160-163 | Without `resize` the loaded bands are kept as they are. With it, the result is `resize_bands`' result, and the key set is kept. |
| Bands.NewBands | sentinel2_auto/bands.py:130-163 | Construction fails when loading raises. The flags are computed from the stored names only. The stored names are exactly those loaded. Without `resize` the bands are the loaded ones. With it, construction succeeds exactly when `resize_bands` does, fails with its error, and stores its bands, so no shape and nothing loaded fails as `max([])` does. |
| Bands.NewBandsAligned | sentinel2_auto/bands.py:130-163 | After alignment by a size-honouring warp, from rasters with at least one row and column and a positive user shape, all bands share one positive (height, width). That is the user's when given; otherwise it is that of a loaded band whose shape no loaded band's shape exceeds in tuple order. The flags match the stored names. |
| Bands.LoadedPositive | sentinel2_auto/bands.py:146-156 | A band loaded from rasters with at least one row and column has positive height and width. |
| Bands.ZeroWarpHonoursSize | sentinel2_auto/geoTiff.py:309-316 | The size condition on the warp is met by some warp: one filling the requested size. |
| Bands.IndexRaster | sentinel2_auto/bands.py:178-189 | Per pixel, the index is (nir - ref) / (nir + ref), and the mask is true exactly where nir + ref is zero. The index and mask have the input's dimensions. |
| Bands.IndexPixel | sentinel2_auto/bands.py:178-189 | For finite pixels, the index is the exact quotient where the sum is non-zero. Where the sum is zero it is masked and non-finite. |
| Bands.IndexExamples | sentinel2_auto/bands.py:178-189 | 4 and 2 give 1/3, unmasked. 0 and 0 give a non-finite value, masked. |
| Bands.ComputeIndex | sentinel2_auto/bands.py:167-192 | The flag is checked first, then the presence of the nir band, then the reference band (KeyError), then that the two shapes match. Past these checks the call succeeds exactly when the index dataset (the index raster with the nir band's projection and geotransform) builds as a `GeoTiff`, and fails otherwise. On success, the result is that `GeoTiff` with the zero-sum mask. It is stored under the index name, and the flags are unchanged. |
| Bands.ComputeIndexKeepsOthers | sentinel2_auto/bands.py:185-189 | Every key other than the index name keeps its band. Flags that matched the names still match. |
| Bands.ComputeNdvi | sentinel2_auto/bands.py:167-192 | A false ndvi flag returns nothing. Success reads B07 and B04 and stores "ndvi". |
| Bands.ComputeNdre | sentinel2_auto/bands.py:196-219 | A false ndre flag returns nothing. Success reads B07 and B05 and stores "ndre". |
| Bands.ComputeNdwi | sentinel2_auto/bands.py:223-251 | A false ndwi flag returns nothing. Success reads B08 and B11 and stores "ndwi". |
| Bands.NdwiFlagSuffices | sentinel2_auto/bands.py:233-239 | When the flags match the names, a raised ndwi flag never leads to a missing band. |
| Bands.NdviAliasMissesKey | sentinel2_auto/bands.py:174-178 | A set holding only "red" and "nir" has the ndvi flag set, yet NDVI fails with B07 missing. |
| Bands.ComputeNdviByFlag | sentinel2_auto/bands.py:106-107 | NDVI that reads the pair that raised its flag never fails on a missing band when the flags match the names. |
| Bands.ComputeNdreByFlag | sentinel2_auto/bands.py:111-112 | The same for NDRE, with the B07/B05 or nir/rededge pair. |
| Bands.ByFlagAgreesOnBandCodes | sentinel2_auto/bands.py:178-207 | When B07, B04 and B05 are present, the flag-driven choice gives the source's results. |
| GeoTiffs.IsUtmIff | sentinel2_auto/geoTiff.py:54 | The UTM test holds exactly when the letters u, t, m, in any case, occur in a row in the projection. |
| GeoTiffs.UtmWindow | sentinel2_auto/geoTiff.py:177 | There is no window exactly when "UTM zone " does not occur. Otherwise the window is the text right after the first occurrence: at most 4 characters, with no marker starting inside it, and ending early only at the end of the text or at the next marker. |
| GeoTiffs.ExtractUtmInfo | sentinel2_auto/geoTiff.py:170-191 | A zone exists exactly when the window exists and holds a digit. The number is the window's digits, in order, read as decimal, and the letter is its letters, in order. |
| GeoTiffs.ExtractUtmExamples | sentinel2_auto/geoTiff.py:176-191 | "UTM zone 56S" gives (56, "S"). "UTM zone S" and "WGS 84" give no zone. |
| GeoTiffs.ExtractUtmZone56S | sentinel2_auto/geoTiff.py:177-187 | "UTM zone 56S" gives zone 56, letter "S". |
| GeoTiffs.ExtractUtmNoNumber | sentinel2_auto/geoTiff.py:187-191 | A window without digits gives no zone (`int("")` raises). |
| GeoTiffs.NoDataMask | sentinel2_auto/geoTiff.py:161-166 | The mask has the raster's dimensions and is true exactly at the pixels equal to the no-data value. |
| GeoTiffs.Init | sentinel2_auto/geoTiff.py:19-80 | A dataset without layers raises.<br>The built object keeps the projection, geotransform and pixels, with shape (rows, cols[, count]) and pixel width gt[1], pixel height abs(gt[5]).<br>It carries a mask exactly when the no-data value is truthy, and the UTM flag by the case-insensitive test.<br>Non-UTM data raises exactly when the zone lookup fails or the origin's latitude is zero; otherwise it takes the looked-up zone, the great-circle metre sizes and "EPSG:" followed by `get_epsg_code` of the origin's latitude.<br>UTM data takes the native sizes as metres and the parsed zone. Without a zone it gets no EPSG code. With one it raises exactly when the latitude conversion fails or gives zero, and otherwise gets `get_epsg_code` of the converted latitude. |
| GeoTiffs.Construct | sentinel2_auto/geoTiff.py:19-133 | The result is `None` exactly when a given path is not a file, when there is nothing to open (no dataset, or GDAL cannot read the file), or when the projection is empty. Otherwise it is `__init__`'s outcome on the opened dataset, built or raised as `Init` states; a built object describes the dataset and has a name exactly when built from a path: that path's basename. |
| GeoTiffs.InitRegistryCode | sentinel2_auto/geoTiff.py:60-72 | For zones 10 to 99 a built object's EPSG string is the registry's WGS 84 / UTM code of the latitude used, the same as the corrected `Helpers.EpsgCode`. |
| GeoTiffs.Repr | sentinel2_auto/geoTiff.py:150-156 | A missing or empty name gives `None`. Otherwise the result is "GeoTiff_obj_" followed by the name. |
| GeoTiffs.ReprOfFile | sentinel2_auto/geoTiff.py:75-77 | An object built from a file displays as "GeoTiff_obj_" plus the file's basename. |
| GeoTiffs.GpsCoordTransform | sentinel2_auto/geoTiff.py:277-286 | For a north-up transform, the offset of (y, x) from the origin is (row * gt[5], col * gt[1]). |
| GeoTiffs.GpsOrigin | sentinel2_auto/geoTiff.py:282-286 | Pixel (0, 0) maps to (gt[3], gt[0]). |
| GeoTiffs.GpsSteps | sentinel2_auto/geoTiff.py:284-285 | One column to the right adds (gt[4], gt[1]) and one row down adds (gt[5], gt[2]): the map is affine. |
| GeoTiffs.GpsInvertible | sentinel2_auto/geoTiff.py:282-286 | For north-up transforms with non-zero pixel sizes, the pixel position is recovered from the coordinates. |
| GeoTiffs.ResampleFactors | sentinel2_auto/geoTiff.py:328-331 | UTM sizes pass through. Otherwise the result scaled by the metre size equals the request scaled by the native size, and a zero metre size fails. |
| Helpers.GetEpsgCode | sentinel2_auto/helpers.py:26-39 | Exactly a non-zero latitude gives a code. It is all digits: "327" south or "326" north, followed by `str(zone_num)`, the zone number's decimal form without padding. |
| Helpers.EpsgCode | sentinel2_auto/helpers.py:26-39 | The corrected code reads as 32700 + zone (south) or 32600 + zone (otherwise). For zones below 100 it is the prefix followed by the zone in two digits. |
| Helpers.EpsgAgreesFromZoneTen | sentinel2_auto/helpers.py:32-37 | For zones 10 and up and a non-zero latitude, the source's code equals the corrected one. |
| Helpers.EpsgUnpadded | sentinel2_auto/helpers.py:32-39 | Zone 5 north gives "3265" as written but "32605" corrected. Latitude 0 gives no code as written. |
| Helpers.ResizeChoice | sentinel2_auto/helpers.py:67-84 | band2 is resized to band1's (height, width) exactly when band1's shape is greater in tuple order. Otherwise, equal shapes included, band1 is resized to band2's. The target is `max` of the two shapes, and a target without two entries fails. |
| Shapes.Max | sentinel2_auto/bands.py:38 | `max` of a non-empty list of shapes is one of them, and every element is at most it in tuple order. |
| Shapes.LessTotal | sentinel2_auto/helpers.py:75 | Any two shapes are equal or one is smaller in tuple order. |
| Shapes.LessTransitive | sentinel2_auto/helpers.py:75 | Tuple order is transitive. |
| Shapes.MaxOrderIndependent | sentinel2_auto/bands.py:38 | Lists with the same elements have the same `max`. |
| Shapes.MaxIsLexicographic | sentinel2_auto/bands.py:38 | (10, 5) beats (9, 20) in either order: the comparison is lexicographic, not componentwise. |
| Collate.FirstMatch | examples/indice_automation.py:48-88 | The chosen test is the first in chain order whose token the file name contains, and none is chosen when no token occurs. |
| Collate.FirstMatchAt | examples/indice_automation.py:48-88 | A test whose token occurs, with no earlier token occurring, is the one chosen. |
| Collate.KeyIsTableKey | examples/indice_automation.py:48-88 | Every key a file receives is one of the chain's keys. |
| Collate.CollateWithLast | examples/indice_automation.py:46-88 | A key is stored exactly when some listed file has it. Its value is the directory joined with the last such file; files without a key are ignored. |
| Collate.CollateDir | examples/indice_automation.py:44-89 | The same facts for the source's chain of tests: the key set, and the value taken from the last file with each key. |
| Collate.SameKeyOverwrites | examples/indice_automation.py:46-55 | Two files with the same key leave one entry, the later file's. |
| Collate.CollateBands | examples/indice_automation.py:28-95 | There is one dict per immediate sub-directory, in listing order, each from that directory's listing. A root that cannot be walked gives none. |
| Collate.DeeperIgnored | examples/indice_automation.py:38-93 | Roots whose first-level sub-directories have the same names and listings give the same result: deeper levels are never read. |
| Collate.SourceLacksB02 | examples/indice_automation.py:51-52 | No test of the chain as written stores under "B02". |
| Collate.NoB02Key | examples/indice_automation.py:51-52 | As written, "B02" is never a key of a collated dict. |
| Collate.SourceFilesB02AsB03 | examples/indice_automation.py:51-55 | As written, both a "B02" file and a "B03" file get key "B03". |
| Collate.B02Misfiled | examples/indice_automation.py:51-55 | A B02 file listed after the B03 file replaces it under "B03". |
| Collate.CorrectedSelfKeyed | examples/indice_automation.py:48-88 | Each test of the corrected chain stores under its own token. |
| Collate.CorrectedKeyIsContained | examples/indice_automation.py:51-52 | With the corrected chain, every key is a band code the file name contains. |
| Collate.CorrectedB02 | examples/indice_automation.py:51-52 | With the corrected chain, a B02 file is stored under "B02". |
| Collate.OutputDir | examples/indice_automation.py:110 | A dict without "B01" fails (KeyError). Otherwise the result is "/" followed by the stripped B01 path up to its last separator, and that path is the result's tail, a separator and its basename. |
| Collate.OutputDirOfJoin | examples/indice_automation.py:110 | A B01 path that joins a plain name to an absolute directory, without doubled outer separators, gives back that directory. |
| Collate.OutputDirOfCollated | examples/indice_automation.py:42-110 | For a scene collated under such a directory, the output directory is that directory. |
| Paths.Join | examples/indice_automation.py:42 | An absolute second part replaces the first. Otherwise the first part is kept and the second appended, with exactly one separator between them unless the first is empty or already ends with one (the length is the two lengths plus that one separator). |
| Paths.BasenameOfJoin | sentinel2_auto/geoTiff.py:77 | The basename of a directory joined with a plain name is that name. |
| Paths.JoinSplit | examples/indice_automation.py:110 | Joining the pieces of a split gives back the string. |
| Paths.StripJoin | examples/indice_automation.py:110 | Stripping the separators off such a joined path leaves the directory's tail, one separator and the name, and that separator is the last. |
| Strings.IndexOf | sentinel2_auto/geoTiff.py:177 | The search finds the first occurrence of the marker, and none exactly when it occurs nowhere. |
| Strings.ContainsIff | examples/indice_automation.py:48 | Python's `in` on strings holds exactly when the token occurs at some position. |
| Strings.NatToStringParse | sentinel2_auto/helpers.py:33 | `str(int(s)) == s` for a numeral of digits without a leading zero. |
| Strings.ParseNatToString | sentinel2_auto/helpers.py:33 | `int(str(n)) == n` for every natural number. |

## Left out

- GDAL input and output: `gdal.Open`, `gdal.Warp`, raster reading, `georeference_raster_to_ds`, `save_raster`, `cut_to_kml`, `change_projection`. They are foreign calls. The model takes their results as parameters (`Disk`, `Warp`) and keeps only the first raster layer's pixels.
- The `utm` library, `haversine_dist` and `find_gsd`. They are trigonometric floating-point code. They appear only as the function fields of `Geodesy`.
- Floating point: pixels are exact reals, and IEEE infinities and NaN are merged into one `NonFinite` value. As a result `x / inf`, which is 0 in IEEE, is modelled as non-finite.
- GeoTiffs.Init: a NaN no-data value is not representable, because `noData` is an optional real. In the source NaN is truthy, so a mask is built, and since NaN equals nothing that mask is false everywhere, even at the NaN pixels.
- numpy broadcasting: two bands of different dimensions are an error (`ShapeMismatch`), not a broadcast.
- `apply_colour_scale` (percentiles and a colour map), `compute_rgb` and `save_bands`. The last two cannot run as written: they use undefined `dom` and `stack` and keys "B2"/"B3"/"B4".
- `resample_bands` and `cut_bands_to_kml`: loops over foreign calls. The unit conversion they rely on is `GeoTiffs.ResampleFactors`.
- The memory-address name of an object built from an in-memory dataset (geoTiff.py:79). Such an object has no name in the model, so `Repr` gives `None` for it.
- `__hash__` and `__eq__`, the `timing` decorator, `MetadataExtraction`, and the `cv2.resize` call. `cv2` is never imported in helpers.py; only the selection rule is modelled.
- Character classes: `isdigit`, `isalpha` and `lower` are their ASCII versions.
- Printing, and the driver code after the directory derivation in `generate_indicies`. `setup.py`, `examples/sentinel2_process.py` and `tests/` are not part of this model.
- GeoTiffs.GpsCoordTransform: its own contract covers only north-up transforms. The general affine behaviour is stated by `GpsOrigin` and `GpsSteps`.
- GeoTiffs.Construct: it says nothing about a second `__init__` re-opening the file, because it uses the dataset that `__new__` opened. The disk is a fixed map, so both opens give the same dataset.
- Bands.ResizeAligns: alignment is promised only for positive heights and widths, and likewise in `WarpedAligned` and `NewBandsAligned`. GDAL chooses the size itself when asked for zero, and the `Warp` parameter leaves that choice open.
- Bands.NewBands: the order in which dict entries are visited is a parameter (`order`). The target shape does not depend on it (`TargetShapeOrderIndependent`).

## Findings

| source | as written | input that shows it | evidently intended | confidence | as-written member | corrected member |
|---|---|---|---|---|---|---|
| sentinel2_auto/helpers.py:33-37 | `str(326) + str(zone_num)` with no zero padding | latitude 45, zone 5 gives "3265" | EPSG 32605 (WGS 84 / UTM zone 5N) | high (not executed) | Helpers.EpsgUnpadded | Helpers.EpsgCode |
| sentinel2_auto/helpers.py:32-39 | neither branch runs for latitude 0, so `epsg_code` is unbound | latitude 0, zone 33 | the northern code 32633 | medium (not executed) | Helpers.GetEpsgCode | Helpers.EpsgCode |
| examples/indice_automation.py:51-52 | a "B02" file is stored under key "B03" | listing ["B03", "B02"] leaves only "B03", holding the B02 path | the file stored under "B02" | high (not executed) | Collate.B02Misfiled | Collate.CorrectedB02 |
| sentinel2_auto/bands.py:106-107 | the ndvi flag accepts "red"/"nir", but compute_ndvi reads "B07"/"B04" | bands {"red", "nir"} raise KeyError "B07" | the index reads the pair that set the flag | medium (not executed) | Bands.NdviAliasMissesKey | Bands.ComputeNdviByFlag |
