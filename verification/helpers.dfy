/** The free functions of the package's helper module: the EPSG code of a
    WGS 84 / UTM zone and the choice of which of two arrays to resize. */
module Helpers {
  import opened Wrappers
  import opened Strings
  import Shapes

  /** `get_epsg_code(lat, zone_num)` as written: "327" or "326" followed by
      `str(zone_num)`. At the equator neither branch assigns the code and
      the function raises, modelled as `None`. */
  function GetEpsgCode(lat: real, zone: nat): (r: Option<string>)
    ensures r.Some? <==> lat != 0.0
    ensures r.Some? ==> |r.value| > 3 && AllDigits(r.value)
    ensures r.Some? ==> r.value[..3] == (if lat < 0.0 then "327" else "326")
    ensures r.Some? ==> ParseDecimal(r.value[3..]) == zone
    ensures r.Some? ==> r.value[3..] == NatToString(zone)
  {
    ParseNatToString(zone);
    if lat < 0.0 then Some("327" + NatToString(zone))
    else if lat > 0.0 then Some("326" + NatToString(zone))
    else None
  }

  /** A zone number below one hundred written with two digits. */
  function Pad2(zone: nat): (r: string)
    requires zone < 100
    ensures |r| == 2 && AllDigits(r) && ParseDecimal(r) == zone
  {
    var r := [DigitChar(zone / 10), DigitChar(zone % 10)];
    assert r[..1] == [r[0]];
    assert [r[0]][..0] == [];
    assert ParseDecimal(r[..1]) == zone / 10;
    assert ParseDecimal(r) == 10 * (zone / 10) + zone % 10;
    r
  }

  /** The hemisphere prefix of a WGS 84 / UTM code: 327 south of the equator,
      326 on and north of it. */
  function Hemisphere(lat: real): (r: string)
    ensures |r| == 3 && AllDigits(r) && r[0] != '0'
    ensures ParseDecimal(r) == if lat < 0.0 then 327 else 326
  {
    var r := if lat < 0.0 then "327" else "326";
    assert r[..2] == [r[0], r[1]] && [r[0], r[1]][..1] == [r[0]] && [r[0]][..0] == [];
    assert ParseDecimal([r[0]]) == 3;
    assert ParseDecimal([r[0], r[1]]) == 32;
    r
  }

  /** The registry code of the WGS 84 / UTM zone: 32600 + zone in the north
      (the equator included), 32700 + zone in the south. For zone numbers
      below one hundred it is the hemisphere prefix followed by the zone in
      two digits, so zone 5 north is "32605". */
  function EpsgCode(lat: real, zone: nat): (r: string)
    ensures AllDigits(r)
    ensures ParseDecimal(r) == (if lat < 0.0 then 32700 else 32600) + zone
    ensures zone < 100 ==> r == Hemisphere(lat) + Pad2(zone)
  {
    var n := (if lat < 0.0 then 32700 else 32600) + zone;
    ParseNatToString(n);
    if zone < 100 then
      var h := Hemisphere(lat);
      ParseAppendTwo(h, Pad2(zone));
      NatToStringParse(h + Pad2(zone));
      NatToString(n)
    else
      NatToString(n)
  }

  /** Off the equator the two definitions agree for zones 10 and above. */
  lemma EpsgAgreesFromZoneTen(lat: real, zone: nat)
    requires lat != 0.0 && 10 <= zone < 100
    ensures GetEpsgCode(lat, zone) == Some(EpsgCode(lat, zone))
  {
    NatToStringLength(zone);
    var s := NatToString(zone);
    ParseNatToString(zone);
    var p := Pad2(zone);
    NatToStringParse(p);
    assert p[0] != '0';
  }

  /** As written, zone 5 north gets "3265" rather than the registry's "32605",
      and the equator gets no code at all. */
  lemma EpsgUnpadded()
    ensures GetEpsgCode(45.0, 5) == Some("3265")
    ensures EpsgCode(45.0, 5) == "32605"
    ensures GetEpsgCode(0.0, 33).None? && EpsgCode(0.0, 33) == "32633"
  {
    assert NatToString(5) == "5";
    assert "326" + "5" == "3265";
  }

  /** What the pairwise `resize_bands` does: which array it resizes and to
      what (height, width). */
  datatype ResizePlan = ResizePlan(resizeFirst: bool, height: nat, width: nat)

  /** `helpers.resize_bands(band1, band2)`: if band1's shape tuple is greater,
      band2 is resized to band1's height and width; otherwise, equal shapes
      included, band1 is resized to band2's. Reading the height and width
      fails (IndexError, `None`) for a target shape of fewer than two entries. */
  function ResizeChoice(shape1: Shapes.Shape, shape2: Shapes.Shape): (r: Option<ResizePlan>)
    ensures var target := if Shapes.Less(shape2, shape1) then shape1 else shape2;
            r.Some? <==> |target| >= 2
    ensures r.Some? ==> (r.value.resizeFirst <==> !Shapes.Less(shape2, shape1))
    ensures r.Some? ==> var target := Shapes.Max([shape1, shape2]);
                        |target| >= 2 && [r.value.height, r.value.width] == target[..2]
  {
    Shapes.LessTotal(shape1, shape2);
    if Shapes.Less(shape2, shape1) then
      Shapes.LessAsymmetric(shape2, shape1);
      if |shape1| >= 2 then Some(ResizePlan(false, shape1[0], shape1[1])) else None
    else
      if |shape2| >= 2 then Some(ResizePlan(true, shape2[0], shape2[1])) else None
  }
}
