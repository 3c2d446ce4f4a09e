/** The conversions between GeoJSON and Well-Known Text. The two primitives of the
    betterknown library, `geoJSONToWkt` and `wktToGeoJSON`, are not part of this
    model: every operation takes them as the parameters `encode` and `decode`,
    about which nothing is assumed unless a lemma says so. */
module Wkt {
  import opened Wrappers
  import opened GeoJson
  import opened Strip
  import opened Reducer

  /** `geoJSONToWkt`: the text of a geometry. It is handed whatever the caller
      passes, which for a Feature's geometry may be null. */
  type Encoder = Option<Geometry> -> string

  /** `wktToGeoJSON`: the geometry a text denotes, `null`, or the error it
      throws. */
  type Decoder = string -> Outcome<Option<Geometry>>

  /** The text of a FeatureCollection without features (src/index.ts:51). */
  const EmptyGeometryCollectionWkt := "GEOMETRYCOLLECTION EMPTY"

  /** What precedes and follows the joined feature texts (src/index.ts:52-54). */
  const CollectionOpen := "GEOMETRYCOLLECTION("
  const CollectionClose := ")"
  const Separator := ","

  /** The `properties` argument `parseFromWK` falls back to: `{}`. */
  const DefaultProperties: Option<Properties> := Some(map[])

  // Array.prototype.join.

  /** `parts.join(sep)`. */
  function Join(parts: seq<string>, sep: string): string {
    if |parts| == 0 then ""
    else if |parts| == 1 then parts[0]
    else parts[0] + sep + Join(parts[1..], sep)
  }

  /** Where the `i`-th part starts in `Join(parts, sep)`: the lengths of the
      parts before it, each followed by a separator. */
  function Offset(parts: seq<string>, sep: string, i: nat): nat
    requires i <= |parts|
  {
    if i == 0 then 0 else |parts[0]| + |sep| + Offset(parts[1..], sep, i - 1)
  }

  /** `part` stands at `at` in `text`, and `after` follows it. */
  predicate PlacedAt(text: string, at: nat, part: string, after: string) {
    && at + |part| + |after| <= |text|
    && text[at..at + |part|] == part
    && text[at + |part|..at + |part| + |after|] == after
  }

  /** A slice of the second half of a concatenation is a slice of that half. */
  lemma SliceOfSuffix(a: string, b: string, x: nat, y: nat)
    requires x <= y <= |b|
    ensures (a + b)[|a| + x..|a| + y] == b[x..y]
  {
  }

  /** What stands in the second half of a concatenation stands in the whole,
      shifted by the length of the first half. */
  lemma PlacedInSuffix(head: string, rest: string, at: nat, part: string, after: string)
    requires PlacedAt(rest, at, part, after)
    ensures PlacedAt(head + rest, |head| + at, part, after)
  {
    SliceOfSuffix(head, rest, at, at + |part|);
    SliceOfSuffix(head, rest, at + |part|, at + |part| + |after|);
  }

  /** What stands in the first half of a concatenation stands in the whole. */
  lemma PlacedInPrefix(text: string, tail: string, at: nat, part: string, after: string)
    requires PlacedAt(text, at, part, after)
    ensures PlacedAt(text + tail, at, part, after)
  {
  }

  /** A text stands at the start of itself, followed by nothing. */
  lemma PlacedWhole(part: string)
    ensures PlacedAt(part, 0, part, "")
  {
  }

  /** The first part of `part + sep + rest` stands at its start, followed by `sep`. */
  lemma PlacedFront(part: string, sep: string, rest: string)
    ensures PlacedAt(part + sep + rest, 0, part, sep)
  {
  }

  /** The joined text holds the parts in order, each at its offset, with one
      separator after every part but the last and nothing after the last. */
  lemma {:induction false} JoinAt(parts: seq<string>, sep: string, i: nat)
    requires i < |parts|
    ensures i + 1 < |parts| ==> PlacedAt(Join(parts, sep), Offset(parts, sep, i), parts[i], sep)
    ensures i + 1 == |parts| ==>
      && PlacedAt(Join(parts, sep), Offset(parts, sep, i), parts[i], "")
      && Offset(parts, sep, i) + |parts[i]| == |Join(parts, sep)|
  {
    if |parts| == 1 {
      PlacedWhole(parts[0]);
    } else {
      var rest := Join(parts[1..], sep);
      if i == 0 {
        PlacedFront(parts[0], sep, rest);
      } else {
        var head := parts[0] + sep;
        JoinAt(parts[1..], sep, i - 1);
        assert parts[1..][i - 1] == parts[i];
        var more := if i + 1 < |parts| then sep else "";
        PlacedInSuffix(head, rest, Offset(parts[1..], sep, i - 1), parts[i], more);
      }
    }
  }

  // Geometries and Features to WKT.

  /** `convertGeometryToWK` (src/index.ts:22-24). */
  function ConvertGeometryToWK(encode: Encoder, g: Geometry): string {
    encode(Some(g))
  }

  /** `convertFeatureToWK` (src/index.ts:33-35): the encoder applied to the
      Feature's geometry, which may be null. */
  function ConvertFeatureToWK(encode: Encoder, f: Feature): string {
    encode(f.geometry)
  }

  /** The text of each feature, in order. */
  function FeatureTexts(encode: Encoder, fs: seq<Feature>): seq<string> {
    seq(|fs|, i requires 0 <= i < |fs| => ConvertFeatureToWK(encode, fs[i]))
  }

  /** A Feature is written as its bare geometry would be, whatever its
      properties; a Feature with a null geometry is written the same whatever its
      properties. */
  lemma FeatureTextIsGeometryText(encode: Encoder, geometry: Option<Geometry>, p: Option<Properties>, q: Option<Properties>)
    ensures ConvertFeatureToWK(encode, Feature(geometry, p)) == ConvertFeatureToWK(encode, Feature(geometry, q))
    ensures geometry.Some? ==>
      ConvertToWK(encode, FeatureObject(Feature(geometry, p))) == ConvertToWK(encode, GeometryObject(geometry.value))
  {
  }

  /** The text of a FeatureCollection depends on its features' geometries alone:
      two collections whose features have the same geometries, in the same order,
      are written the same, whatever the features' properties. */
  lemma {:induction false} FeatureCollectionTextIgnoresProperties(encode: Encoder, fs: seq<Feature>, gs: seq<Feature>)
    requires |fs| == |gs|
    requires forall i | 0 <= i < |fs| :: fs[i].geometry == gs[i].geometry
    ensures ConvertFeatureCollection(encode, FeatureCollectionObject(FeatureCollection(fs)))
         == ConvertFeatureCollection(encode, FeatureCollectionObject(FeatureCollection(gs)))
  {
    assert FeatureTexts(encode, fs) == FeatureTexts(encode, gs);
  }

  /** `convertFeatureCollection` (src/index.ts:43-55). Anything whose `type` is
      not FeatureCollection throws; no features give the empty-collection
      literal; otherwise the feature texts are joined with a comma and wrapped
      in `GEOMETRYCOLLECTION(` and `)`. */
  function ConvertFeatureCollection(encode: Encoder, x: GeoJsonObject): (r: Outcome<string>)
    ensures r.Failure? <==> !x.FeatureCollectionObject?
    ensures r.Failure? ==> r.error == NotAFeatureCollection
    ensures r.Success? && |x.collection.features| == 0 ==> r.value == EmptyGeometryCollectionWkt
    ensures r.Success? && |x.collection.features| > 0 ==>
      && |r.value| > |CollectionOpen|
      && r.value[..|CollectionOpen|] == CollectionOpen
      && r.value[|r.value| - 1..] == CollectionClose
      && r.value != EmptyGeometryCollectionWkt
  {
    if x.Type() != "FeatureCollection" then
      Failure(NotAFeatureCollection)
    else if |x.collection.features| == 0 then
      Success(EmptyGeometryCollectionWkt)
    else
      var text := CollectionOpen + Join(FeatureTexts(encode, x.collection.features), Separator) + CollectionClose;
      assert text[..|CollectionOpen|] == CollectionOpen;
      assert text[|CollectionOpen| - 1] == '(' != EmptyGeometryCollectionWkt[|CollectionOpen| - 1];
      Success(text)
  }

  /** The text of a non-empty FeatureCollection: its features' texts joined by
      commas inside `GEOMETRYCOLLECTION(` and `)`. */
  lemma ConvertFeatureCollectionText(encode: Encoder, fc: FeatureCollection)
    requires |fc.features| > 0
    ensures ConvertFeatureCollection(encode, FeatureCollectionObject(fc))
         == Success(CollectionOpen + (Join(FeatureTexts(encode, fc.features), Separator) + CollectionClose))
  {
    var joined := Join(FeatureTexts(encode, fc.features), Separator);
    assert CollectionOpen + joined + CollectionClose == CollectionOpen + (joined + CollectionClose);
  }

  /** In `open` + the parts joined by `sep` + `close` the `i`-th part stands at
      its offset after the opening, followed by the separator when another part
      comes next and by the closing, which ends the text, when it is the last:
      for `convertFeatureCollection`, `GEOMETRYCOLLECTION(`, `,` and `)`. */
  lemma CollectionTextAt(open: string, parts: seq<string>, sep: string, close: string, i: nat)
    requires i < |parts|
    ensures var text := open + (Join(parts, sep) + close);
            var start := |open| + Offset(parts, sep, i);
            && (i + 1 < |parts| ==> PlacedAt(text, start, parts[i], sep))
            && (i + 1 == |parts| ==> PlacedAt(text, start, parts[i], close) && start + |parts[i]| + |close| == |text|)
  {
    JoinAt(parts, sep, i);
    if i + 1 < |parts| {
      PlacedInWrapped(open, Join(parts, sep), close, Offset(parts, sep, i), parts[i], sep);
    } else {
      PlacedLastInWrapped(open, Join(parts, sep), close, Offset(parts, sep, i), parts[i]);
    }
  }

  /** What stands in `joined` stands in `open + (joined + close)`, shifted by
      the length of `open`. */
  lemma PlacedInWrapped(open: string, joined: string, close: string, at: nat, part: string, after: string)
    requires PlacedAt(joined, at, part, after)
    ensures PlacedAt(open + (joined + close), |open| + at, part, after)
  {
    PlacedInPrefix(joined, close, at, part, after);
    PlacedInSuffix(open, joined + close, at, part, after);
  }

  /** The part that ends `joined` is followed by `close` in
      `open + (joined + close)`, and `close` ends that text. */
  lemma PlacedLastInWrapped(open: string, joined: string, close: string, at: nat, part: string)
    requires PlacedAt(joined, at, part, "")
    requires at + |part| == |joined|
    ensures PlacedAt(open + (joined + close), |open| + at, part, close)
    ensures |open| + at + |part| + |close| == |open + (joined + close)|
  {
    PlacedBeforeTail(joined, close, at, part);
    PlacedInSuffix(open, joined + close, at, part, close);
  }

  /** A part that ends its text is followed by whatever is appended to it. */
  lemma PlacedBeforeTail(text: string, tail: string, at: nat, part: string)
    requires PlacedAt(text, at, part, "")
    requires at + |part| == |text|
    ensures PlacedAt(text + tail, at, part, tail)
  {
  }

  /** In the text of a non-empty FeatureCollection the `i`-th feature's text
      stands at its offset after `GEOMETRYCOLLECTION(`, followed by a comma when
      another feature comes next and by the closing `)`, which ends the text,
      when it is the last: the features' texts appear in input order, separated
      by `,` with no spaces. */
  lemma ConvertFeatureCollectionAt(encode: Encoder, fc: FeatureCollection, i: nat)
    requires i < |fc.features|
    ensures var text := ConvertFeatureCollection(encode, FeatureCollectionObject(fc)).value;
            var start := |CollectionOpen| + Offset(FeatureTexts(encode, fc.features), Separator, i);
            var w := ConvertFeatureToWK(encode, fc.features[i]);
            && (i + 1 < |fc.features| ==> PlacedAt(text, start, w, Separator))
            && (i + 1 == |fc.features| ==> PlacedAt(text, start, w, CollectionClose) && start + |w| + 1 == |text|)
  {
    var ws := FeatureTexts(encode, fc.features);
    assert |ws| == |fc.features| && ws[i] == ConvertFeatureToWK(encode, fc.features[i]);
    assert |CollectionClose| == 1;
    ConvertFeatureCollectionText(encode, fc);
    CollectionTextAt(CollectionOpen, ws, Separator, CollectionClose, i);
  }

  /** `convertToWK` (src/index.ts:64-73): a Feature is written as its geometry,
      a FeatureCollection as a GEOMETRYCOLLECTION, anything else by the encoder
      directly. The dispatch never hands `convertFeatureCollection` anything but
      a FeatureCollection, so this conversion never throws. */
  function ConvertToWK(encode: Encoder, x: GeoJsonObject): (r: string)
    ensures x.FeatureObject? ==> r == ConvertFeatureToWK(encode, x.feature)
    ensures x.FeatureCollectionObject? ==> ConvertFeatureCollection(encode, x) == Success(r)
    ensures x.GeometryObject? ==> r == ConvertGeometryToWK(encode, x.geometry)
  {
    if x.Type() == "Feature" then ConvertFeatureToWK(encode, x.feature)
    else if x.Type() == "FeatureCollection" then ConvertFeatureCollection(encode, x).value
    else ConvertGeometryToWK(encode, x.geometry)
  }

  /** The properties an object spread `...properties` contributes: none for null. */
  function Spread(properties: Option<Properties>): Properties {
    if properties.None? then map[] else properties.value
  }

  /** `{ wkt, ...properties }` (src/index.ts:88-91): every property, plus a `wkt`
      member holding the text. The spread comes after `wkt`, so a property named
      `wkt` replaces the text. */
  function WithWkt(wkt: string, properties: Option<Properties>): (rec: Properties)
    ensures rec.Keys == {"wkt"} + Spread(properties).Keys
    ensures forall k | k in Spread(properties) :: rec[k] == Spread(properties)[k]
    ensures "wkt" !in Spread(properties) ==> rec["wkt"] == JsonString(wkt)
  {
    map["wkt" := JsonString(wkt)] + Spread(properties)
  }

  /** `convertFeatureCollectionToWktCollection` (src/index.ts:85-92): one record
      per feature, in order, holding every property of that feature and, unless
      a property is itself named `wkt`, the feature's text under `wkt`. The
      source calls `convertGeometryToWK(d.geometry)`, which is what
      `ConvertFeatureToWK` computes. */
  function ConvertFeatureCollectionToWktCollection(encode: Encoder, fc: FeatureCollection): (rs: seq<Properties>)
    ensures |rs| == |fc.features|
    ensures forall i | 0 <= i < |rs| :: rs[i].Keys == {"wkt"} + Spread(fc.features[i].properties).Keys
    ensures forall i, k | 0 <= i < |rs| && k in Spread(fc.features[i].properties) ::
      rs[i][k] == Spread(fc.features[i].properties)[k]
    ensures forall i | 0 <= i < |rs| && "wkt" !in Spread(fc.features[i].properties) ::
      rs[i]["wkt"] == JsonString(ConvertFeatureToWK(encode, fc.features[i]))
  {
    seq(|fc.features|, i requires 0 <= i < |fc.features| =>
      WithWkt(ConvertFeatureToWK(encode, fc.features[i]), fc.features[i].properties))
  }

  // WKT to GeoJSON.

  /** `parseFromWK` (src/index.ts:103-119): decode the text, and wrap what the
      decoder returns, even `null`, in a Feature with the given properties when
      asked to. */
  function ParseFromWK(decode: Decoder, item: string, asFeature: bool, properties: Option<Properties>): Outcome<Option<GeoJsonObject>> {
    var parsed :- decode(item);
    if asFeature then
      Success(Some(FeatureObject(Feature(parsed, properties))))
    else if parsed.None? then
      Success(None)
    else
      Success(Some(GeometryObject(parsed.value)))
  }

  /** The parse is the decoder's result: its error, for either flag, when the
      decoder throws; otherwise the decoded geometry as it is, or, when asked, a
      Feature holding it (or `null`) with the given properties. The bare parse
      ignores the properties; the wrapped parse fails exactly when the bare one
      does, with the same error, and otherwise is a Feature holding the bare
      result as its geometry (null when the bare result is null). */
  lemma ParseFromWKWrap(decode: Decoder, item: string, p: Option<Properties>, q: Option<Properties>)
    ensures decode(item).Failure? ==>
      && ParseFromWK(decode, item, false, p) == Failure(decode(item).error)
      && ParseFromWK(decode, item, true, p) == Failure(decode(item).error)
    ensures decode(item).Success? && decode(item).value.Some? ==>
      && ParseFromWK(decode, item, false, p) == Success(Some(GeometryObject(decode(item).value.value)))
      && ParseFromWK(decode, item, true, p) == Success(Some(FeatureObject(Feature(decode(item).value, p))))
    ensures decode(item) == Success(None) ==>
      && ParseFromWK(decode, item, false, p) == Success(None)
      && ParseFromWK(decode, item, true, p) == Success(Some(FeatureObject(Feature(None, p))))
    ensures ParseFromWK(decode, item, false, p) == ParseFromWK(decode, item, false, q)
    ensures var bare := ParseFromWK(decode, item, false, p);
            var wrapped := ParseFromWK(decode, item, true, p);
            && (wrapped.Failure? <==> bare.Failure?)
            && (wrapped.Failure? ==> wrapped.error == bare.error)
            && (bare.Success? && bare.value.Some? ==>
                  && bare.value.value.GeometryObject?
                  && wrapped.value == Some(FeatureObject(Feature(Some(bare.value.value.geometry), p))))
            && (bare.Success? && bare.value.None? ==>
                  wrapped.value == Some(FeatureObject(Feature(None, p))))
  {
  }

  /** Wrapping the decoded geometry in a Feature changes nothing about its text,
      and reducing the wrapped parse to 2D gives the wrapped reduction of the
      bare parse: both act on the geometry alone. When the decoder returns
      `null`, the wrapped parse is a Feature without geometry, which the reducer
      returns as it is. */
  lemma ParseFromWKWrapTransparent(encode: Encoder, decode: Decoder, item: string, p: Option<Properties>)
    ensures var bare := ParseFromWK(decode, item, false, p);
            var wrapped := ParseFromWK(decode, item, true, p);
            bare.Success? && bare.value.Some? ==>
              && ConvertToWK(encode, wrapped.value.value) == ConvertToWK(encode, bare.value.value)
              && (ConvertZGeojsonTo2D(wrapped.value.value).Failure? <==> ConvertZGeojsonTo2D(bare.value.value).Failure?)
              && (ConvertZGeojsonTo2D(wrapped.value.value).Failure? ==>
                    ConvertZGeojsonTo2D(wrapped.value.value).error == ConvertZGeojsonTo2D(bare.value.value).error)
              && (ConvertZGeojsonTo2D(wrapped.value.value).Success? ==>
                    && ConvertZGeojsonTo2D(bare.value.value).value.GeometryObject?
                    && ConvertZGeojsonTo2D(wrapped.value.value).value
                       == FeatureObject(Feature(Some(ConvertZGeojsonTo2D(bare.value.value).value.geometry), p)))
    ensures var wrapped := ParseFromWK(decode, item, true, p);
            decode(item) == Success(None) ==>
              ConvertZGeojsonTo2D(wrapped.value.value) == Success(wrapped.value.value)
  {
  }

  // The 2D pipeline.

  /** `convertWkTo2DWk` (src/index.ts:192-196): decode, reduce to 2D, encode.
      When the decoder returns `null`, the reducer's read of its `type`
      (src/index.ts:172) throws. */
  function ConvertWkTo2DWk(encode: Encoder, decode: Decoder, wkt: string): Outcome<string> {
    var geojson :- ParseFromWK(decode, wkt, false, DefaultProperties);
    if geojson.None? then
      Failure(NullHasNoType)
    else
      var flat :- ConvertZGeojsonTo2D(geojson.value);
      Success(ConvertToWK(encode, flat))
  }

  /** The pipeline throws the decoder's error on text the decoder rejects, a
      TypeError when the decoder returns `null`, and the reducer's error when the
      decoded tree holds an unsupported `type`. Otherwise it writes out a
      geometry with the decoded structure whose positions are the decoded ones
      cut to two ordinates. */
  lemma ConvertWkTo2DWkCorrect(encode: Encoder, decode: Decoder, wkt: string)
    ensures decode(wkt).Failure? ==> ConvertWkTo2DWk(encode, decode, wkt) == Failure(decode(wkt).error)
    ensures decode(wkt) == Success(None) ==> ConvertWkTo2DWk(encode, decode, wkt) == Failure(NullHasNoType)
    ensures decode(wkt).Success? && decode(wkt).value.Some? ==>
      var g := decode(wkt).value.value;
      && (UnsupportedTags(g) != [] ==>
            ConvertWkTo2DWk(encode, decode, wkt) == Failure(GeometryTypeNotSupported(UnsupportedTags(g)[0])))
      && (UnsupportedTags(g) == [] ==>
            && ProcessGeometry(g).Success?
            && ConvertWkTo2DWk(encode, decode, wkt) == Success(encode(Some(ProcessGeometry(g).value)))
            && SameTree(g, ProcessGeometry(g).value)
            && GeometryPositions(ProcessGeometry(g).value) == Truncated(GeometryPositions(g))
            && AtMost2D(GeometryPositions(ProcessGeometry(g).value)))
  {
    if decode(wkt).Success? && decode(wkt).value.Some? {
      var g := decode(wkt).value.value;
      ProcessGeometryCorrect(g);
      TruncatedIsPlanar(GeometryPositions(g));
    }
  }

  /** When the decoder reads back the 2D geometry the encoder wrote, running the
      pipeline on its own output gives that output again. */
  lemma ConvertWkTo2DWkIdempotent(encode: Encoder, decode: Decoder, wkt: string, g: Geometry, h: Geometry)
    requires decode(wkt) == Success(Some(g))
    requires ProcessGeometry(g) == Success(h)
    requires decode(encode(Some(h))) == Success(Some(h))
    ensures ConvertWkTo2DWk(encode, decode, wkt) == Success(encode(Some(h)))
    ensures ConvertWkTo2DWk(encode, decode, encode(Some(h))) == Success(encode(Some(h)))
  {
    ProcessGeometryIdempotent(g);
  }

  // The repository's test cases, stated for any encoder.

  /** A collection of two copies of one feature is written as the feature's
      text twice, separated by a comma (tests/index.test.ts:97-101). */
  lemma TwoFeaturesExample(encode: Encoder, f: Feature)
    ensures ConvertFeatureCollection(encode, FeatureCollectionObject(FeatureCollection([f, f])))
         == Success("GEOMETRYCOLLECTION(" + ConvertFeatureToWK(encode, f) + "," + ConvertFeatureToWK(encode, f) + ")")
  {
    var w := ConvertFeatureToWK(encode, f);
    var ws := FeatureTexts(encode, [f, f]);
    assert ws == [w, w];
    assert ws[1..] == [w];
    assert Join(ws, Separator) == w + "," + w;
    assert ConvertFeatureCollection(encode, FeatureCollectionObject(FeatureCollection([f, f])))
        == Success(CollectionOpen + Join(ws, Separator) + CollectionClose);
    assert CollectionOpen + (w + "," + w) + CollectionClose == "GEOMETRYCOLLECTION(" + w + "," + w + ")";
  }

  /** The records of a Point and a LineString feature carry their names and
      descriptions beside their texts (tests/index.test.ts:103-150). */
  lemma WktCollectionExample(encode: Encoder, point: Geometry, line: Geometry)
    ensures var fc := FeatureCollection([
              Feature(Some(point), Some(map["name" := JsonString("Sample Point"),
                                            "description" := JsonString("A point in the middle of nowhere")])),
              Feature(Some(line), Some(map["name" := JsonString("Sample LineString")]))]);
            ConvertFeatureCollectionToWktCollection(encode, fc)
            == [map["wkt" := JsonString(encode(Some(point))),
                    "name" := JsonString("Sample Point"),
                    "description" := JsonString("A point in the middle of nowhere")],
                map["wkt" := JsonString(encode(Some(line))),
                    "name" := JsonString("Sample LineString")]]
  {
    var p := map["name" := JsonString("Sample Point"),
                 "description" := JsonString("A point in the middle of nowhere")];
    var q := map["name" := JsonString("Sample LineString")];
    assert WithWkt(encode(Some(point)), Some(p))
        == map["wkt" := JsonString(encode(Some(point))),
               "name" := JsonString("Sample Point"),
               "description" := JsonString("A point in the middle of nowhere")];
    assert WithWkt(encode(Some(line)), Some(q))
        == map["wkt" := JsonString(encode(Some(line))), "name" := JsonString("Sample LineString")];
  }

  /** Text that decodes to a geometry parses to that geometry, and, with the
      properties `{test: "Test"}`, to a Feature holding it and those properties
      (tests/index.test.ts:85-95). */
  lemma ParseFromWKExample(decode: Decoder, item: string, g: Geometry)
    requires decode(item) == Success(Some(g))
    ensures ParseFromWK(decode, item, false, DefaultProperties) == Success(Some(GeometryObject(g)))
    ensures ParseFromWK(decode, item, true, Some(map["test" := JsonString("Test")]))
         == Success(Some(FeatureObject(Feature(Some(g), Some(map["test" := JsonString("Test")])))))
  {
  }

  /** The 3D polygon of the tests reduces to one whose first position is the
      input's first position without its Z ordinate (tests/index.test.ts:158-161). */
  lemma PolygonWithZExample()
    ensures var ring := Node([
              Leaf([-3.706512451171875, 40.420074462890625, 0.0]),
              Leaf([-3.70513916015625, 40.420074462890625, 0.0]),
              Leaf([-3.70513916015625, 40.42144775390625, 0.0]),
              Leaf([-3.706512451171875, 40.42144775390625, 0.0]),
              Leaf([-3.706512451171875, 40.420074462890625, 0.0])]);
            var r := ConvertZGeojsonTo2D(GeometryObject(Polygon(Node([ring]))));
            && r.Success?
            && r.value.GeometryObject?
            && r.value.geometry.Polygon?
            && r.value.geometry.coordinates.children[0].children[0] == Leaf([-3.706512451171875, 40.420074462890625])
  {
    var first: Position := [-3.706512451171875, 40.420074462890625, 0.0];
    var ring := Node([
      Leaf(first),
      Leaf([-3.70513916015625, 40.420074462890625, 0.0]),
      Leaf([-3.70513916015625, 40.42144775390625, 0.0]),
      Leaf([-3.706512451171875, 40.42144775390625, 0.0]),
      Leaf([-3.706512451171875, 40.420074462890625, 0.0])]);
    assert Slice2(first) == first[..2] == [-3.706512451171875, 40.420074462890625];
    assert StripCoords(Leaf(first)) == Leaf(first[..2]);
    assert StripCoords(ring).children[0] == StripCoords(ring.children[0]);
    assert StripCoords(Node([ring])).children[0] == StripCoords(ring);
  }
}
