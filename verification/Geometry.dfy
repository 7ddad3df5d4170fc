/**
 Geometry values on their way to the SDK and back (types/sdk.go:38-189, types/types.go:143-605).
 Coordinates are opaque numbers. A Go `interface{}` holds a value or a pointer, and the two
 directions of the conversion do not treat the two alike.
 */
module Geometry {
  import opened Wrappers

  type Position = seq<real>

  datatype Geo =
    | Point(kind: string, position: Position)
    | Line(kind: string, line: seq<Position>)
    | MultiPoint(kind: string, line: seq<Position>)
    | Polygon(kind: string, rings: seq<seq<Position>>)
    | MultiLine(kind: string, rings: seq<seq<Position>>)
    | MultiPolygon(kind: string, polygons: seq<seq<seq<Position>>>)
    | Collection(kind: string, items: seq<Any>)

  datatype SdkPoint = SdkPoint(longitude: real, latitude: real)

  datatype SdkGeo =
    | SPoint(point: SdkPoint)
    | SLine(line: seq<SdkPoint>)
    | SMultiPoint(line: seq<SdkPoint>)
    | SPolygon(rings: seq<seq<SdkPoint>>)
    | SMultiLine(rings: seq<seq<SdkPoint>>)
    | SMultiPolygon(polygons: seq<seq<seq<SdkPoint>>>)
    | SCollection(items: seq<Any>)

  /** An `interface{}`: a driver geometry or a pointer to one, an SDK geometry or a pointer to
      one, nil, another driver type (a time, duration, record id, UUID, ...) with the SDK value it
      is converted to, if it is no nil pointer, or anything else. */
  datatype Any =
    | Value(g: Geo)
    | Pointer(p: Option<Geo>)
    | Sdk(s: SdkGeo)
    | SdkPointer(s: SdkGeo)
    | Nil
    | Custom(native: Option<int>)
    | Other(id: int)

  const ZERO := SdkPoint(0.0, 0.0)

  // ------------------------------------------------------------ to the SDK, as functions

  function ToPoint(c: Position): SdkPoint {
    if |c| == 2 then SdkPoint(c[0], c[1]) else ZERO
  }

  function ToLine(cs: seq<Position>): seq<SdkPoint> {
    seq(|cs|, i requires 0 <= i < |cs| => ToPoint(cs[i]))
  }

  function ToRings(rs: seq<seq<Position>>): seq<seq<SdkPoint>> {
    seq(|rs|, i requires 0 <= i < |rs| => ToLine(rs[i]))
  }

  function ToPolygons(ps: seq<seq<seq<Position>>>): seq<seq<seq<SdkPoint>>> {
    seq(|ps|, i requires 0 <= i < |ps| => ToRings(ps[i]))
  }

  function ToSDK(v: Any): Any
    decreases v, 1
  {
    match v
    case Value(g) => GeoToSDK(g)
    case Pointer(Some(g)) => GeoToSDK(g)
    case Pointer(None) => Nil
    case Custom(Some(native)) => Other(native)
    case Custom(None) => Nil
    case _ => v
  }

  function GeoToSDK(g: Geo): Any
    decreases g, 0
  {
    match g
    case Point(_, c) => if |c| == 2 then SdkPointer(SPoint(ToPoint(c))) else Nil
    case Line(_, cs) => SdkPointer(SLine(ToLine(cs)))
    case MultiPoint(_, cs) => SdkPointer(SMultiPoint(ToLine(cs)))
    case Polygon(_, rs) => SdkPointer(SPolygon(ToRings(rs)))
    case MultiLine(_, rs) => SdkPointer(SMultiLine(ToRings(rs)))
    case MultiPolygon(_, ps) => SdkPointer(SMultiPolygon(ToPolygons(ps)))
    case Collection(_, items) =>
      SdkPointer(SCollection(seq(|items|, i requires 0 <= i < |items| => ToSDK(items[i]))))
  }

  // ------------------------------------------------------------- to the SDK, as loops

  method LineToSDK(cs: seq<Position>) returns (r: seq<SdkPoint>)
    ensures r == ToLine(cs)
  {
    var line := new SdkPoint[|cs|](_ => ZERO);
    for i := 0 to |cs|
      invariant forall k | 0 <= k < i :: line[k] == ToPoint(cs[k])
      invariant forall k | i <= k < |cs| :: line[k] == ZERO
    {
      if |cs[i]| == 2 {
        line[i] := SdkPoint(cs[i][0], cs[i][1]);
      }
    }
    r := line[..];
  }

  method RingsToSDK(rs: seq<seq<Position>>) returns (r: seq<seq<SdkPoint>>)
    ensures r == ToRings(rs)
  {
    var poly := new seq<SdkPoint>[|rs|](_ => []);
    for i := 0 to |rs|
      invariant forall k | 0 <= k < i :: poly[k] == ToLine(rs[k])
    {
      var ring := rs[i];
      var line := new SdkPoint[|ring|](_ => ZERO);
      for j := 0 to |ring|
        invariant forall k | 0 <= k < i :: poly[k] == ToLine(rs[k])
        invariant forall k | 0 <= k < j :: line[k] == ToPoint(ring[k])
        invariant forall k | j <= k < |ring| :: line[k] == ZERO
      {
        if |ring[j]| == 2 {
          line[j] := SdkPoint(ring[j][0], ring[j][1]);
        }
      }
      assert line[..] == ToLine(ring);
      poly[i] := line[..];
    }
    r := poly[..];
  }

  method PolygonsToSDK(ps: seq<seq<seq<Position>>>) returns (r: seq<seq<seq<SdkPoint>>>)
    ensures r == ToPolygons(ps)
  {
    var mp := new seq<seq<SdkPoint>>[|ps|](_ => []);
    for i := 0 to |ps|
      invariant forall k | 0 <= k < i :: mp[k] == ToRings(ps[k])
    {
      var rings := ps[i];
      var poly := new seq<SdkPoint>[|rings|](_ => []);
      for j := 0 to |rings|
        invariant forall k | 0 <= k < i :: mp[k] == ToRings(ps[k])
        invariant forall k | 0 <= k < j :: poly[k] == ToLine(rings[k])
      {
        var ring := rings[j];
        var line := new SdkPoint[|ring|](_ => ZERO);
        for k := 0 to |ring|
          invariant forall x | 0 <= x < i :: mp[x] == ToRings(ps[x])
          invariant forall x | 0 <= x < j :: poly[x] == ToLine(rings[x])
          invariant forall x | 0 <= x < k :: line[x] == ToPoint(ring[x])
          invariant forall x | k <= x < |ring| :: line[x] == ZERO
        {
          if |ring[k]| == 2 {
            line[k] := SdkPoint(ring[k][0], ring[k][1]);
          }
        }
        assert line[..] == ToLine(ring);
        poly[j] := line[..];
      }
      assert poly[..] == ToRings(rings);
      mp[i] := poly[..];
    }
    r := mp[..];
  }

  method GeoToSDKValue(g: Geo) returns (r: Any)
    ensures r == GeoToSDK(g)
    decreases g, 0
  {
    match g {
      case Point(_, c) =>
        if |c| == 2 {
          return SdkPointer(SPoint(SdkPoint(c[0], c[1])));
        }
        r := Nil;
      case Line(_, cs) =>
        var line := LineToSDK(cs);
        r := SdkPointer(SLine(line));
      case MultiPoint(_, cs) =>
        var line := LineToSDK(cs);
        r := SdkPointer(SMultiPoint(line));
      case Polygon(_, rs) =>
        var rings := RingsToSDK(rs);
        r := SdkPointer(SPolygon(rings));
      case MultiLine(_, rs) =>
        var rings := RingsToSDK(rs);
        r := SdkPointer(SMultiLine(rings));
      case MultiPolygon(_, ps) =>
        var polygons := PolygonsToSDK(ps);
        r := SdkPointer(SMultiPolygon(polygons));
      case Collection(_, items) =>
        var coll := new Any[|items|](_ => Nil);
        for i := 0 to |items|
          invariant forall k | 0 <= k < i :: coll[k] == ToSDK(items[k])
        {
          coll[i] := ToSDKValue(items[i]);
        }
        assert coll[..] == seq(|items|, i requires 0 <= i < |items| => ToSDK(items[i]));
        r := SdkPointer(SCollection(coll[..]));
    }
  }

  method ToSDKValue(v: Any) returns (r: Any)
    ensures r == ToSDK(v)
    decreases v, 1
  {
    match v {
      case Value(g) => r := GeoToSDKValue(g);
      case Pointer(Some(g)) => r := GeoToSDKValue(g);
      case Pointer(None) => r := Nil;
      case Custom(Some(native)) => r := Other(native);
      case Custom(None) => r := Nil;
      case _ => r := v;
    }
  }

  // ------------------------------------------------------------------ back, as functions

  function FromPoint(p: SdkPoint): Position {
    [p.longitude, p.latitude]
  }

  function FromLine(ps: seq<SdkPoint>): seq<Position> {
    seq(|ps|, i requires 0 <= i < |ps| => FromPoint(ps[i]))
  }

  function FromRings(ls: seq<seq<SdkPoint>>): seq<seq<Position>> {
    seq(|ls|, i requires 0 <= i < |ls| => FromLine(ls[i]))
  }

  function FromPolygons(ps: seq<seq<seq<SdkPoint>>>): seq<seq<seq<Position>>> {
    seq(|ps|, i requires 0 <= i < |ps| => FromRings(ps[i]))
  }

  /** The driver geometry an SDK geometry is scanned into; nothing for a collection. */
  function FromSDK(s: SdkGeo): Option<Geo> {
    match s
    case SPoint(p) => Some(Point("Point", FromPoint(p)))
    case SLine(ps) => Some(Line("LineString", FromLine(ps)))
    case SMultiPoint(ps) => Some(MultiPoint("MultiPoint", FromLine(ps)))
    case SPolygon(ls) => Some(Polygon("Polygon", FromRings(ls)))
    case SMultiLine(ls) => Some(MultiLine("MultiLineString", FromRings(ls)))
    case SMultiPolygon(ps) => Some(MultiPolygon("MultiPolygon", FromPolygons(ps)))
    case SCollection(_) => None
  }

  /** An element of a scanned collection: SDK values are converted, anything else, SDK pointers
      and nested collections included, is kept as it is. */
  function ScanItem(item: Any): Any {
    if item.Sdk? && FromSDK(item.s).Some? then Value(FromSDK(item.s).value) else item
  }

  function ScanItems(items: seq<Any>): seq<Any> {
    seq(|items|, i requires 0 <= i < |items| => ScanItem(items[i]))
  }

  /** Whether a receiver that holds `g` is of the Go type that scans `s`. */
  predicate SameType(g: Geo, s: SdkGeo) {
    match g
    case Point(_, _) => s.SPoint?
    case Line(_, _) => s.SLine?
    case MultiPoint(_, _) => s.SMultiPoint?
    case Polygon(_, _) => s.SPolygon?
    case MultiLine(_, _) => s.SMultiLine?
    case MultiPolygon(_, _) => s.SMultiPolygon?
    case Collection(_, _) => s.SCollection?
  }

  /** What Scan stores in a receiver holding `g`; None when it hands the value to the GeoJSON decoder. */
  function Scanned(g: Geo, v: Any): Option<Geo> {
    if (v.Sdk? || v.SdkPointer?) && SameType(g, v.s) then
      if v.s.SCollection? then Some(Collection("GeometryCollection", ScanItems(v.s.items))) else FromSDK(v.s)
    else None
  }

  // ---------------------------------------------------------------- back, as loops

  method LineFromSDK(ps: seq<SdkPoint>) returns (r: seq<Position>)
    ensures r == FromLine(ps)
  {
    var coords := new Position[|ps|](_ => []);
    for i := 0 to |ps|
      invariant forall k | 0 <= k < i :: coords[k] == FromPoint(ps[k])
    {
      coords[i] := [ps[i].longitude, ps[i].latitude];
    }
    r := coords[..];
  }

  method RingsFromSDK(ls: seq<seq<SdkPoint>>) returns (r: seq<seq<Position>>)
    ensures r == FromRings(ls)
  {
    var coords := new seq<Position>[|ls|](_ => []);
    for i := 0 to |ls|
      invariant forall k | 0 <= k < i :: coords[k] == FromLine(ls[k])
    {
      var ring := ls[i];
      var line := new Position[|ring|](_ => []);
      for j := 0 to |ring|
        invariant forall k | 0 <= k < i :: coords[k] == FromLine(ls[k])
        invariant forall k | 0 <= k < j :: line[k] == FromPoint(ring[k])
      {
        line[j] := [ring[j].longitude, ring[j].latitude];
      }
      assert line[..] == FromLine(ring);
      coords[i] := line[..];
    }
    r := coords[..];
  }

  method PolygonsFromSDK(ps: seq<seq<seq<SdkPoint>>>) returns (r: seq<seq<seq<Position>>>)
    ensures r == FromPolygons(ps)
  {
    var coords := new seq<seq<Position>>[|ps|](_ => []);
    for i := 0 to |ps|
      invariant forall k | 0 <= k < i :: coords[k] == FromRings(ps[k])
    {
      var polygon := ps[i];
      var poly := new seq<Position>[|polygon|](_ => []);
      for j := 0 to |polygon|
        invariant forall k | 0 <= k < i :: coords[k] == FromRings(ps[k])
        invariant forall k | 0 <= k < j :: poly[k] == FromLine(polygon[k])
      {
        var ring := polygon[j];
        var line := new Position[|ring|](_ => []);
        for k := 0 to |ring|
          invariant forall x | 0 <= x < i :: coords[x] == FromRings(ps[x])
          invariant forall x | 0 <= x < j :: poly[x] == FromLine(polygon[x])
          invariant forall x | 0 <= x < k :: line[x] == FromPoint(ring[x])
        {
          line[k] := [ring[k].longitude, ring[k].latitude];
        }
        assert line[..] == FromLine(ring);
        poly[j] := line[..];
      }
      assert poly[..] == FromRings(polygon);
      coords[i] := poly[..];
    }
    r := coords[..];
  }

  method ConvertSDK(s: SdkGeo) returns (r: Option<Geo>)
    ensures r == FromSDK(s)
  {
    match s {
      case SPoint(p) => r := Some(Point("Point", [p.longitude, p.latitude]));
      case SLine(ps) =>
        var line := LineFromSDK(ps);
        r := Some(Line("LineString", line));
      case SMultiPoint(ps) =>
        var line := LineFromSDK(ps);
        r := Some(MultiPoint("MultiPoint", line));
      case SPolygon(ls) =>
        var rings := RingsFromSDK(ls);
        r := Some(Polygon("Polygon", rings));
      case SMultiLine(ls) =>
        var rings := RingsFromSDK(ls);
        r := Some(MultiLine("MultiLineString", rings));
      case SMultiPolygon(ps) =>
        var polygons := PolygonsFromSDK(ps);
        r := Some(MultiPolygon("MultiPolygon", polygons));
      case SCollection(_) => r := None;
    }
  }

  /** A geometry variable as the receiver of Scan. */
  class Receiver {
    var value: Geo

    constructor (g: Geo)
      ensures value == g
    {
      value := g;
    }

    method Scan(v: Any) returns (done: bool)
      modifies this
      ensures done <==> Scanned(old(value), v).Some?
      ensures value == if done then Scanned(old(value), v).value else old(value)
    {
      done := false;
      if !(v.Sdk? || v.SdkPointer?) || !SameType(value, v.s) {
        return;
      }
      if v.s.SCollection? {
        var items := v.s.items;
        var geoms := new Any[|items|](_ => Nil);
        for i := 0 to |items|
          invariant forall k | 0 <= k < i :: geoms[k] == ScanItem(items[k])
          invariant value == old(value)
        {
          geoms[i] := items[i];
          if items[i].Sdk? {
            var g := ConvertSDK(items[i].s);
            if g.Some? {
              geoms[i] := Value(g.value);
            }
          }
        }
        assert geoms[..] == ScanItems(items);
        value := Collection("GeometryCollection", geoms[..]);
        return true;
      }
      var g := ConvertSDK(v.s);
      value := g.value;
      done := true;
    }
  }

  // ---------------------------------------------------------------- main results

  predicate Flat(c: Position) {
    |c| == 2
  }

  predicate FlatLine(cs: seq<Position>) {
    forall i | 0 <= i < |cs| :: Flat(cs[i])
  }

  predicate FlatRings(rs: seq<seq<Position>>) {
    forall i | 0 <= i < |rs| :: FlatLine(rs[i])
  }

  predicate FlatPolygons(ps: seq<seq<seq<Position>>>) {
    forall i | 0 <= i < |ps| :: FlatRings(ps[i])
  }

  function TypeName(g: Geo): string {
    match g
    case Point(_, _) => "Point"
    case Line(_, _) => "LineString"
    case MultiPoint(_, _) => "MultiPoint"
    case Polygon(_, _) => "Polygon"
    case MultiLine(_, _) => "MultiLineString"
    case MultiPolygon(_, _) => "MultiPolygon"
    case Collection(_, _) => "GeometryCollection"
  }

  /** The canonical type name and two coordinates at every position. */
  predicate Canonical(g: Geo) {
    && g.kind == TypeName(g)
    && match g
       case Point(_, c) => Flat(c)
       case Line(_, cs) => FlatLine(cs)
       case MultiPoint(_, cs) => FlatLine(cs)
       case Polygon(_, rs) => FlatRings(rs)
       case MultiLine(_, rs) => FlatRings(rs)
       case MultiPolygon(_, ps) => FlatPolygons(ps)
       case Collection(_, _) => true
  }

  lemma LineTrip(cs: seq<Position>)
    ensures FromLine(ToLine(cs)) == cs <==> FlatLine(cs)
  {
    var r := FromLine(ToLine(cs));
    forall i | 0 <= i < |cs| ensures r[i] == cs[i] <==> Flat(cs[i]) {
      if Flat(cs[i]) {
        assert cs[i] == [cs[i][0], cs[i][1]];
      } else {
        assert |r[i]| == 2;
      }
    }
  }

  lemma RingsTrip(rs: seq<seq<Position>>)
    ensures FromRings(ToRings(rs)) == rs <==> FlatRings(rs)
  {
    var r := FromRings(ToRings(rs));
    forall i | 0 <= i < |rs| ensures r[i] == rs[i] <==> FlatLine(rs[i]) {
      LineTrip(rs[i]);
    }
  }

  lemma PolygonsTrip(ps: seq<seq<seq<Position>>>)
    ensures FromPolygons(ToPolygons(ps)) == ps <==> FlatPolygons(ps)
  {
    var r := FromPolygons(ToPolygons(ps));
    forall i | 0 <= i < |ps| ensures r[i] == ps[i] <==> FlatRings(ps[i]) {
      RingsTrip(ps[i]);
    }
  }

  /** Of the six non-collection types, exactly the canonical geometries survive the way to the SDK and back. */
  lemma RoundTripExact(g: Geo)
    requires !g.Collection?
    ensures Scanned(g, ToSDK(Value(g))) == Some(g) <==> Canonical(g)
  {
    match g
    case Point(_, c) =>
      if Flat(c) { assert c == [c[0], c[1]]; }
    case Line(_, cs) => LineTrip(cs);
    case MultiPoint(_, cs) => LineTrip(cs);
    case Polygon(_, rs) => RingsTrip(rs);
    case MultiLine(_, rs) => RingsTrip(rs);
    case MultiPolygon(_, ps) => PolygonsTrip(ps);
    case Collection(_, _) =>
  }

  lemma LineBack(ps: seq<SdkPoint>)
    ensures ToLine(FromLine(ps)) == ps
  {
  }

  lemma RingsBack(ls: seq<seq<SdkPoint>>)
    ensures ToRings(FromRings(ls)) == ls
  {
    forall i | 0 <= i < |ls| ensures ToRings(FromRings(ls))[i] == ls[i] {
      LineBack(ls[i]);
    }
  }

  lemma PolygonsBack(ps: seq<seq<seq<SdkPoint>>>)
    ensures ToPolygons(FromPolygons(ps)) == ps
  {
    forall i | 0 <= i < |ps| ensures ToPolygons(FromPolygons(ps))[i] == ps[i] {
      RingsBack(ps[i]);
    }
  }

  /** The other way round nothing is lost: a scanned geometry converts back to the SDK value it came from. */
  lemma ScanThenConvert(s: SdkGeo)
    requires !s.SCollection?
    ensures FromSDK(s).Some? && Canonical(FromSDK(s).value) && ToSDK(Value(FromSDK(s).value)) == SdkPointer(s)
  {
    match s
    case SPoint(p) => assert ToPoint(FromPoint(p)) == p;
    case SLine(ps) => LineBack(ps);
    case SMultiPoint(ps) => LineBack(ps);
    case SPolygon(ls) => RingsBack(ls);
    case SMultiLine(ls) => RingsBack(ls);
    case SMultiPolygon(ps) => PolygonsBack(ps);
  }

  /** `e` is the driver value an element of a scanned collection ends as. */
  ghost predicate Restores(item: Any, e: Any) {
    if item.Sdk? && !item.s.SCollection? then e.Value? && Canonical(e.g) && ToSDK(e) == SdkPointer(item.s) else e == item
  }

  /**
   Scanning, for every receiver and every input: an SDK geometry of the receiver's own kind, as a
   value or behind a pointer alike, becomes the canonical geometry that converts back to it; every
   other input is handed on. A collection restores its plain elements and keeps the others.
   */
  lemma ScanExact(g: Geo, v: Any)
    ensures !v.Sdk? && !v.SdkPointer? ==> Scanned(g, v) == None
    ensures v.Sdk? || v.SdkPointer? ==>
              if v.s.SCollection? then
                if g.Collection? then
                  && Scanned(g, v).Some? && Scanned(g, v).value.Collection? && Canonical(Scanned(g, v).value)
                  && |Scanned(g, v).value.items| == |v.s.items|
                  && forall i | 0 <= i < |v.s.items| :: Restores(v.s.items[i], Scanned(g, v).value.items[i])
                else Scanned(g, v) == None
              else
                && (Scanned(g, v).Some? <==> FromSDK(v.s).Some? && TypeName(FromSDK(v.s).value) == TypeName(g))
                && (Scanned(g, v).Some? ==> Restores(Sdk(v.s), Value(Scanned(g, v).value)) && TypeName(Scanned(g, v).value) == TypeName(g))
  {
    if v.Sdk? || v.SdkPointer? {
      if v.s.SCollection? {
        forall i | 0 <= i < |v.s.items| ensures Restores(v.s.items[i], ScanItem(v.s.items[i])) {
          ItemRestored(v.s.items[i]);
        }
      } else {
        ScanThenConvert(v.s);
      }
    }
  }

  lemma ItemRestored(item: Any)
    ensures Restores(item, ScanItem(item))
  {
    if item.Sdk? && !item.s.SCollection? {
      ScanThenConvert(item.s);
    }
  }

  // ----------------------------------------------------------------------- shape

  /** `p` copies a position of two numbers and is the zero point for any other. */
  predicate MirrorsPoint(c: Position, p: SdkPoint) {
    if |c| == 2 then c == [p.longitude, p.latitude] else p.longitude == 0.0 && p.latitude == 0.0
  }

  predicate MirrorsLine(cs: seq<Position>, ps: seq<SdkPoint>) {
    |ps| == |cs| && forall i | 0 <= i < |cs| :: MirrorsPoint(cs[i], ps[i])
  }

  predicate MirrorsRings(rs: seq<seq<Position>>, ls: seq<seq<SdkPoint>>) {
    |ls| == |rs| && forall i | 0 <= i < |rs| :: MirrorsLine(rs[i], ls[i])
  }

  predicate MirrorsPolygons(ps: seq<seq<seq<Position>>>, qs: seq<seq<seq<SdkPoint>>>) {
    |qs| == |ps| && forall i | 0 <= i < |ps| :: MirrorsRings(ps[i], qs[i])
  }

  /** `r` has the shape of `v` at every nesting level, with mirrored positions at the leaves. */
  predicate Mirrors(v: Any, r: Any)
    decreases v, 1
  {
    match v
    case Value(g) => MirrorsGeo(g, r)
    case Pointer(Some(g)) => MirrorsGeo(g, r)
    case Pointer(None) => r == Nil
    case Custom(native) => if native.Some? then r == Other(native.value) else r == Nil
    case _ => r == v
  }

  predicate MirrorsGeo(g: Geo, r: Any)
    decreases g, 0
  {
    match g
    case Point(_, c) =>
      if |c| == 2 then r.SdkPointer? && r.s.SPoint? && MirrorsPoint(c, r.s.point) else r == Nil
    case Line(_, cs) => r.SdkPointer? && r.s.SLine? && MirrorsLine(cs, r.s.line)
    case MultiPoint(_, cs) => r.SdkPointer? && r.s.SMultiPoint? && MirrorsLine(cs, r.s.line)
    case Polygon(_, rs) => r.SdkPointer? && r.s.SPolygon? && MirrorsRings(rs, r.s.rings)
    case MultiLine(_, rs) => r.SdkPointer? && r.s.SMultiLine? && MirrorsRings(rs, r.s.rings)
    case MultiPolygon(_, ps) => r.SdkPointer? && r.s.SMultiPolygon? && MirrorsPolygons(ps, r.s.polygons)
    case Collection(_, items) =>
      r.SdkPointer? && r.s.SCollection? && |r.s.items| == |items| &&
      forall i | 0 <= i < |items| :: Mirrors(items[i], r.s.items[i])
  }

  lemma LineMirrors(cs: seq<Position>, ps: seq<SdkPoint>)
    ensures MirrorsLine(cs, ps) <==> ps == ToLine(cs)
  {
    if MirrorsLine(cs, ps) {
      forall i | 0 <= i < |cs| ensures ps[i] == ToPoint(cs[i]) {
        assert MirrorsPoint(cs[i], ps[i]);
      }
    }
  }

  lemma RingsMirror(rs: seq<seq<Position>>, ls: seq<seq<SdkPoint>>)
    ensures MirrorsRings(rs, ls) <==> ls == ToRings(rs)
  {
    if |ls| == |rs| {
      forall i | 0 <= i < |rs| ensures MirrorsLine(rs[i], ls[i]) <==> ls[i] == ToRings(rs)[i] {
        LineMirrors(rs[i], ls[i]);
      }
    }
  }

  lemma PolygonsMirror(ps: seq<seq<seq<Position>>>, qs: seq<seq<seq<SdkPoint>>>)
    ensures MirrorsPolygons(ps, qs) <==> qs == ToPolygons(ps)
  {
    if |qs| == |ps| {
      forall i | 0 <= i < |ps| ensures MirrorsRings(ps[i], qs[i]) <==> qs[i] == ToPolygons(ps)[i] {
        RingsMirror(ps[i], qs[i]);
      }
    }
  }

  /**
   The conversion keeps length and order at every level and copies every position of two
   numbers, through collections nested to any depth; and its result is the only value that does.
   */
  lemma {:induction false} ConversionKeepsShape(v: Any, r: Any)
    ensures Mirrors(v, r) <==> r == ToSDK(v)
    decreases v, 1
  {
    match v
    case Value(g) => GeoKeepsShape(g, r);
    case Pointer(Some(g)) => GeoKeepsShape(g, r);
    case Pointer(None) =>
    case _ =>
  }

  lemma {:induction false} GeoKeepsShape(g: Geo, r: Any)
    ensures MirrorsGeo(g, r) <==> r == GeoToSDK(g)
    decreases g, 0
  {
    match g
    case Point(_, c) =>
      assert |c| == 2 ==> c == [c[0], c[1]];
    case Line(_, cs) => if r.SdkPointer? && r.s.SLine? { LineMirrors(cs, r.s.line); }
    case MultiPoint(_, cs) => if r.SdkPointer? && r.s.SMultiPoint? { LineMirrors(cs, r.s.line); }
    case Polygon(_, rs) => if r.SdkPointer? && r.s.SPolygon? { RingsMirror(rs, r.s.rings); }
    case MultiLine(_, rs) => if r.SdkPointer? && r.s.SMultiLine? { RingsMirror(rs, r.s.rings); }
    case MultiPolygon(_, ps) => if r.SdkPointer? && r.s.SMultiPolygon? { PolygonsMirror(ps, r.s.polygons); }
    case Collection(_, items) =>
      if r.SdkPointer? && r.s.SCollection? && |r.s.items| == |items| {
        forall i | 0 <= i < |items| ensures Mirrors(items[i], r.s.items[i]) <==> r.s.items[i] == ToSDK(items[i]) {
          ConversionKeepsShape(items[i], r.s.items[i]);
        }
        assert (forall i | 0 <= i < |items| :: r.s.items[i] == ToSDK(items[i])) <==>
               r.s.items == seq(|items|, i requires 0 <= i < |items| => ToSDK(items[i]));
      }
  }

  // ------------------------------------------------------------------- collections

  /** An element neither conversion touches: no driver value, and no plain SDK geometry but a collection. */
  predicate Untouched(e: Any) {
    !e.Value? && !e.Pointer? && !e.Custom? && !(e.Sdk? && !e.s.SCollection?)
  }

  lemma ItemTrip(e: Any)
    ensures ScanItem(ToSDK(e)) == e <==> Untouched(e)
  {
    match e
    case Value(g) =>
    case Pointer(p) =>
    case Sdk(s) =>
    case _ =>
  }

  /**
   A collection does not survive the way to the SDK and straight back, unless there was
   nothing to convert in it: the conversion makes pointers of its elements, and Scan converts
   values only.
   */
  lemma CollectionTripExact(kind: string, items: seq<Any>)
    ensures Scanned(Collection(kind, items), ToSDK(Value(Collection(kind, items)))) == Some(Collection(kind, items)) <==>
            kind == "GeometryCollection" && forall i | 0 <= i < |items| :: Untouched(items[i])
  {
    var sent := seq(|items|, i requires 0 <= i < |items| => ToSDK(items[i]));
    var back := ScanItems(sent);
    forall i | 0 <= i < |items| ensures back[i] == items[i] <==> Untouched(items[i]) {
      ItemTrip(items[i]);
    }
    assert back == items <==> forall i | 0 <= i < |items| :: back[i] == items[i];
  }

  /** What a decoder that yields values instead of pointers makes of converted elements. */
  function Decoded(e: Any): Any {
    if e.SdkPointer? then Sdk(e.s) else e
  }

  /** With values instead of pointers, the canonical non-collection elements of a collection are
      restored, and no other driver geometry is: a nested collection stays an SDK collection. */
  lemma DecodedItemExact(g: Geo)
    ensures ScanItem(Decoded(ToSDK(Value(g)))) == Value(g) <==> !g.Collection? && Canonical(g)
  {
    if !g.Collection? {
      RoundTripExact(g);
    }
  }
}
