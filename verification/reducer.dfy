/** `convertZGeojsonTo2D`: drop every ordinate after the second from a geometry,
    a Feature or a FeatureCollection, keeping everything else, and reject a
    geometry whose `type` is not one of the seven supported ones. */
module Reducer {
  import opened Wrappers
  import opened GeoJson
  import opened Strip

  // The operations.

  /** `processGeometry` (src/index.ts:139-163). A geometry with coordinates gets
      them stripped; a GeometryCollection gets each child processed, in order;
      any other `type` throws. */
  function ProcessGeometry(g: Geometry): Outcome<Geometry> {
    if g.HasCoordinates() then
      Success(g.(coordinates := StripCoords(g.coordinates)))
    else if g.GeometryCollection? then
      var hs :- ProcessGeometries(g.geometries);
      Success(GeometryCollection(hs))
    else
      Failure(GeometryTypeNotSupported(g.tag))
  }

  /** `geometries.map(processGeometry)`: the children processed from first to
      last; the first child that throws ends the walk. */
  function ProcessGeometries(gs: seq<Geometry>): Outcome<seq<Geometry>> {
    if gs == [] then Success([])
    else
      var h :- ProcessGeometry(gs[0]);
      var hs :- ProcessGeometries(gs[1..]);
      Success([h] + hs)
  }

  /** `processFeature` (src/index.ts:165-170): the geometry, when not null (the
      test at line 166; a geometry object is always truthy), is processed; the
      properties are kept. */
  function ProcessFeature(f: Feature): (r: Outcome<Feature>)
    ensures r.Success? ==> r.value.properties == f.properties
    ensures f.geometry.None? ==> r == Success(f)
    ensures f.geometry.Some? ==> (r.Success? <==> ProcessGeometry(f.geometry.value).Success?)
  {
    if f.geometry.None? then Success(f)
    else
      var g :- ProcessGeometry(f.geometry.value);
      Success(f.(geometry := Some(g)))
  }

  /** `features.map(processFeature)` (src/index.ts:177). */
  function ProcessFeatures(fs: seq<Feature>): Outcome<seq<Feature>> {
    if fs == [] then Success([])
    else
      var e :- ProcessFeature(fs[0]);
      var es :- ProcessFeatures(fs[1..]);
      Success([e] + es)
  }

  /** `convertZGeojsonTo2D` (src/index.ts:128-183), dispatching on `type`. The
      source works on a deep copy of its argument; here every value is
      immutable, so the argument is never changed. */
  function ConvertZGeojsonTo2D(x: GeoJsonObject): Outcome<GeoJsonObject> {
    match x
    case FeatureObject(f) =>
      var e :- ProcessFeature(f);
      Success(FeatureObject(e))
    case FeatureCollectionObject(fc) =>
      var es :- ProcessFeatures(fc.features);
      Success(FeatureCollectionObject(fc.(features := es)))
    case GeometryObject(g) =>
      var h :- ProcessGeometry(g);
      Success(GeometryObject(h))
  }

  // What the operations are specified against.

  /** Every position of a geometry, in document order. */
  function GeometryPositions(g: Geometry): seq<Position> {
    if g.GeometryCollection? then GeometriesPositions(g.geometries)
    else if g.Unsupported? then []
    else Positions(g.coordinates)
  }

  function GeometriesPositions(gs: seq<Geometry>): seq<Position> {
    if gs == [] then [] else GeometryPositions(gs[0]) + GeometriesPositions(gs[1..])
  }

  /** The `type` of every geometry of unsupported type, in document order. */
  function UnsupportedTags(g: Geometry): seq<string> {
    if g.GeometryCollection? then UnsupportedTagsOf(g.geometries)
    else if g.Unsupported? then [g.tag]
    else []
  }

  function UnsupportedTagsOf(gs: seq<Geometry>): seq<string> {
    if gs == [] then [] else UnsupportedTags(gs[0]) + UnsupportedTagsOf(gs[1..])
  }

  /** The two geometries have the same structure: the same `type` everywhere,
      collections of the same size, coordinate arrays of the same nesting. */
  predicate SameTree(g: Geometry, h: Geometry) {
    g.Type() == h.Type() &&
    if g.GeometryCollection? then
      |g.geometries| == |h.geometries| &&
      forall i | 0 <= i < |g.geometries| :: SameTree(g.geometries[i], h.geometries[i])
    else if g.Unsupported? then
      h == g
    else
      SameSkeleton(g.coordinates, h.coordinates)
  }

  /** Two sequences of geometries of the same length and structure. */
  predicate SameTrees(gs: seq<Geometry>, hs: seq<Geometry>) {
    |gs| == |hs| && forall i | 0 <= i < |gs| :: SameTree(gs[i], hs[i])
  }

  function FeaturePositions(f: Feature): seq<Position> {
    if f.geometry.None? then [] else GeometryPositions(f.geometry.value)
  }

  function FeatureTags(f: Feature): seq<string> {
    if f.geometry.None? then [] else UnsupportedTags(f.geometry.value)
  }

  function FeaturesPositions(fs: seq<Feature>): seq<Position> {
    if fs == [] then [] else FeaturePositions(fs[0]) + FeaturesPositions(fs[1..])
  }

  function FeaturesTags(fs: seq<Feature>): seq<string> {
    if fs == [] then [] else FeatureTags(fs[0]) + FeaturesTags(fs[1..])
  }

  /** The same properties, a null geometry where the other's is null, and
      geometries of the same structure otherwise. */
  predicate SameFeature(f: Feature, e: Feature) {
    e.properties == f.properties &&
    e.geometry.None? == f.geometry.None? &&
    (f.geometry.Some? ==> SameTree(f.geometry.value, e.geometry.value))
  }

  predicate SameFeatures(fs: seq<Feature>, es: seq<Feature>) {
    |fs| == |es| && forall i | 0 <= i < |fs| :: SameFeature(fs[i], es[i])
  }

  function ObjectPositions(x: GeoJsonObject): seq<Position> {
    match x
    case GeometryObject(g) => GeometryPositions(g)
    case FeatureObject(f) => FeaturePositions(f)
    case FeatureCollectionObject(fc) => FeaturesPositions(fc.features)
  }

  function ObjectTags(x: GeoJsonObject): seq<string> {
    match x
    case GeometryObject(g) => UnsupportedTags(g)
    case FeatureObject(f) => FeatureTags(f)
    case FeatureCollectionObject(fc) => FeaturesTags(fc.features)
  }

  /** The same `type`, and the same structure below it. */
  predicate SameObject(x: GeoJsonObject, y: GeoJsonObject) {
    x.Type() == y.Type() &&
    match x
    case GeometryObject(g) => y.GeometryObject? && SameTree(g, y.geometry)
    case FeatureObject(f) => y.FeatureObject? && SameFeature(f, y.feature)
    case FeatureCollectionObject(fc) =>
      y.FeatureCollectionObject? && SameFeatures(fc.features, y.collection.features)
  }

  // processGeometry: when it throws, and what it returns otherwise.

  /** `processGeometry` throws exactly when some geometry in the tree, nested at
      any depth, has an unsupported `type`, and then it reports the first such
      `type` in document order. Otherwise it returns a geometry of the same
      structure whose positions are the input's cut to two ordinates. */
  lemma {:induction false} ProcessGeometryCorrect(g: Geometry)
    ensures ProcessGeometry(g).Failure? <==> UnsupportedTags(g) != []
    ensures ProcessGeometry(g).Failure? ==>
      ProcessGeometry(g).error == GeometryTypeNotSupported(UnsupportedTags(g)[0])
    ensures ProcessGeometry(g).Success? ==>
      && SameTree(g, ProcessGeometry(g).value)
      && GeometryPositions(ProcessGeometry(g).value) == Truncated(GeometryPositions(g))
      && UnsupportedTags(ProcessGeometry(g).value) == []
  {
    if g.GeometryCollection? {
      ProcessGeometriesCorrect(g.geometries);
    } else if !g.Unsupported? {
      StripCoordsSkeleton(g.coordinates);
      StripCoordsPositions(g.coordinates);
    }
  }

  lemma {:induction false} ProcessGeometriesCorrect(gs: seq<Geometry>)
    ensures ProcessGeometries(gs).Failure? <==> UnsupportedTagsOf(gs) != []
    ensures ProcessGeometries(gs).Failure? ==>
      ProcessGeometries(gs).error == GeometryTypeNotSupported(UnsupportedTagsOf(gs)[0])
    ensures ProcessGeometries(gs).Success? ==>
      && SameTrees(gs, ProcessGeometries(gs).value)
      && GeometriesPositions(ProcessGeometries(gs).value) == Truncated(GeometriesPositions(gs))
      && UnsupportedTagsOf(ProcessGeometries(gs).value) == []
  {
    if gs != [] {
      ProcessGeometryCorrect(gs[0]);
      ProcessGeometriesCorrect(gs[1..]);
      var r := ProcessGeometries(gs);
      if r.Success? {
        var h, hs := ProcessGeometry(gs[0]).value, ProcessGeometries(gs[1..]).value;
        assert r.value == [h] + hs;
        assert ([h] + hs)[0] == h && ([h] + hs)[1..] == hs;
        TruncatedConcat(GeometryPositions(gs[0]), GeometriesPositions(gs[1..]));
        forall i | 0 <= i < |gs| ensures SameTree(gs[i], r.value[i]) {
          if i > 0 {
            assert gs[1..][i - 1] == gs[i] && hs[i - 1] == r.value[i];
          }
        }
      }
    }
  }

  /** A geometry tree with supported types only, whose positions are already 2D,
      comes back unchanged. */
  lemma {:induction false} ProcessGeometryPlanarUnchanged(g: Geometry)
    requires UnsupportedTags(g) == []
    requires AtMost2D(GeometryPositions(g))
    ensures ProcessGeometry(g) == Success(g)
  {
    if g.GeometryCollection? {
      ProcessGeometriesPlanarUnchanged(g.geometries);
    } else if !g.Unsupported? {
      StripCoordsPlanarUnchanged(g.coordinates);
    }
  }

  lemma {:induction false} ProcessGeometriesPlanarUnchanged(gs: seq<Geometry>)
    requires UnsupportedTagsOf(gs) == []
    requires AtMost2D(GeometriesPositions(gs))
    ensures ProcessGeometries(gs) == Success(gs)
  {
    if gs != [] {
      AtMost2DSplit(GeometryPositions(gs[0]), GeometriesPositions(gs[1..]));
      ProcessGeometryPlanarUnchanged(gs[0]);
      ProcessGeometriesPlanarUnchanged(gs[1..]);
      assert [gs[0]] + gs[1..] == gs;
    }
  }

  /** Processing a geometry twice gives what processing it once gives. */
  lemma ProcessGeometryIdempotent(g: Geometry)
    requires ProcessGeometry(g).Success?
    ensures ProcessGeometry(ProcessGeometry(g).value) == ProcessGeometry(g)
  {
    ProcessGeometryCorrect(g);
    TruncatedIsPlanar(GeometryPositions(g));
    ProcessGeometryPlanarUnchanged(ProcessGeometry(g).value);
  }

  // processFeature and the features of a collection.

  lemma {:induction false} ProcessFeatureCorrect(f: Feature)
    ensures ProcessFeature(f).Failure? <==> FeatureTags(f) != []
    ensures ProcessFeature(f).Failure? ==>
      ProcessFeature(f).error == GeometryTypeNotSupported(FeatureTags(f)[0])
    ensures ProcessFeature(f).Success? ==>
      && SameFeature(f, ProcessFeature(f).value)
      && FeaturePositions(ProcessFeature(f).value) == Truncated(FeaturePositions(f))
      && FeatureTags(ProcessFeature(f).value) == []
  {
    if f.geometry.Some? {
      ProcessGeometryCorrect(f.geometry.value);
    }
  }

  lemma {:induction false} ProcessFeaturesCorrect(fs: seq<Feature>)
    ensures ProcessFeatures(fs).Failure? <==> FeaturesTags(fs) != []
    ensures ProcessFeatures(fs).Failure? ==>
      ProcessFeatures(fs).error == GeometryTypeNotSupported(FeaturesTags(fs)[0])
    ensures ProcessFeatures(fs).Success? ==>
      && SameFeatures(fs, ProcessFeatures(fs).value)
      && FeaturesPositions(ProcessFeatures(fs).value) == Truncated(FeaturesPositions(fs))
      && FeaturesTags(ProcessFeatures(fs).value) == []
  {
    if fs != [] {
      ProcessFeatureCorrect(fs[0]);
      ProcessFeaturesCorrect(fs[1..]);
      var r := ProcessFeatures(fs);
      if r.Success? {
        var e, es := ProcessFeature(fs[0]).value, ProcessFeatures(fs[1..]).value;
        assert r.value == [e] + es;
        assert ([e] + es)[0] == e && ([e] + es)[1..] == es;
        TruncatedConcat(FeaturePositions(fs[0]), FeaturesPositions(fs[1..]));
        forall i | 0 <= i < |fs| ensures SameFeature(fs[i], r.value[i]) {
          if i > 0 {
            assert fs[1..][i - 1] == fs[i] && es[i - 1] == r.value[i];
          }
        }
      }
    }
  }

  lemma ProcessFeaturePlanarUnchanged(f: Feature)
    requires FeatureTags(f) == []
    requires AtMost2D(FeaturePositions(f))
    ensures ProcessFeature(f) == Success(f)
  {
    if f.geometry.Some? {
      ProcessGeometryPlanarUnchanged(f.geometry.value);
    }
  }

  lemma {:induction false} ProcessFeaturesPlanarUnchanged(fs: seq<Feature>)
    requires FeaturesTags(fs) == []
    requires AtMost2D(FeaturesPositions(fs))
    ensures ProcessFeatures(fs) == Success(fs)
  {
    if fs != [] {
      assert FeatureTags(fs[0]) == [] && FeaturesTags(fs[1..]) == [] by {
        assert FeaturesTags(fs) == FeatureTags(fs[0]) + FeaturesTags(fs[1..]);
      }
      AtMost2DSplit(FeaturePositions(fs[0]), FeaturesPositions(fs[1..]));
      ProcessFeaturePlanarUnchanged(fs[0]);
      ProcessFeaturesPlanarUnchanged(fs[1..]);
      assert ProcessFeatures(fs) == Success([fs[0]] + fs[1..]);
      assert [fs[0]] + fs[1..] == fs;
    }
  }

  // convertZGeojsonTo2D.

  /** `convertZGeojsonTo2D` throws exactly when some geometry anywhere in its
      argument has an unsupported `type`, reporting the first one. Otherwise the
      result has the argument's `type` and structure (a Feature keeps its
      properties and its null geometry, a collection keeps the number and order
      of its members) and its positions, in order, are the argument's cut to
      two ordinates. */
  lemma ConvertZGeojsonTo2DCorrect(x: GeoJsonObject)
    ensures ConvertZGeojsonTo2D(x).Failure? <==> ObjectTags(x) != []
    ensures ConvertZGeojsonTo2D(x).Failure? ==>
      ConvertZGeojsonTo2D(x).error == GeometryTypeNotSupported(ObjectTags(x)[0])
    ensures ConvertZGeojsonTo2D(x).Success? ==>
      && SameObject(x, ConvertZGeojsonTo2D(x).value)
      && ObjectPositions(ConvertZGeojsonTo2D(x).value) == Truncated(ObjectPositions(x))
      && ObjectTags(ConvertZGeojsonTo2D(x).value) == []
  {
    match x
    case GeometryObject(g) => ProcessGeometryCorrect(g);
    case FeatureObject(f) => ProcessFeatureCorrect(f);
    case FeatureCollectionObject(fc) => ProcessFeaturesCorrect(fc.features);
  }

  /** After `convertZGeojsonTo2D` no position anywhere has more than two
      ordinates, and when every input position had two or three, every output
      position has exactly two. */
  lemma ConvertZGeojsonTo2DPlanar(x: GeoJsonObject)
    requires ConvertZGeojsonTo2D(x).Success?
    ensures AtMost2D(ObjectPositions(ConvertZGeojsonTo2D(x).value))
    ensures AtLeast2D(ObjectPositions(x)) ==> Exactly2D(ObjectPositions(ConvertZGeojsonTo2D(x).value))
  {
    ConvertZGeojsonTo2DCorrect(x);
    TruncatedIsPlanar(ObjectPositions(x));
  }

  /** An object of supported types whose positions are already 2D comes back
      unchanged. */
  lemma ConvertZGeojsonTo2DPlanarUnchanged(x: GeoJsonObject)
    requires ObjectTags(x) == []
    requires AtMost2D(ObjectPositions(x))
    ensures ConvertZGeojsonTo2D(x) == Success(x)
  {
    match x
    case GeometryObject(g) => ProcessGeometryPlanarUnchanged(g);
    case FeatureObject(f) =>
      if f.geometry.Some? {
        ProcessGeometryPlanarUnchanged(f.geometry.value);
      }
    case FeatureCollectionObject(fc) =>
      ProcessFeaturesPlanarUnchanged(fc.features);
  }

  /** Reducing to 2D twice gives what reducing once gives. */
  lemma ConvertZGeojsonTo2DIdempotent(x: GeoJsonObject)
    requires ConvertZGeojsonTo2D(x).Success?
    ensures ConvertZGeojsonTo2D(ConvertZGeojsonTo2D(x).value) == ConvertZGeojsonTo2D(x)
  {
    ConvertZGeojsonTo2DCorrect(x);
    ConvertZGeojsonTo2DPlanar(x);
    ConvertZGeojsonTo2DPlanarUnchanged(ConvertZGeojsonTo2D(x).value);
  }
}
