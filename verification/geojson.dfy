/** The GeoJSON values the converters work on: positions and coordinate arrays,
    the seven geometry types, features with their properties, feature collections,
    and the errors the converters throw. */
module GeoJson {
  import opened Wrappers

  /** One ordinate (X, Y or Z) of a position. The converters never compute with
      ordinates, so their floating-point nature plays no part. */
  type Ordinate = real

  /** A position: an array of ordinates, normally [X, Y] or [X, Y, Z]. */
  type Position = seq<Ordinate>

  /** The `coordinates` member of a geometry: a position, or an array of nested
      coordinate arrays. A Point holds a position; a LineString or MultiPoint an
      array of positions; a Polygon or MultiLineString an array of those; a
      MultiPolygon one level more. The empty array `[]` is written `Node([])`
      (as an array of nothing) or `Leaf([])` (as a position without ordinates);
      both stand for the same JavaScript value. */
  datatype Coords = Leaf(position: Position) | Node(children: seq<Coords>)

  /** The `type` strings of the geometries the converters accept. */
  const SupportedGeometryTypes: set<string> :=
    {"Point", "MultiPoint", "LineString", "MultiLineString", "Polygon", "MultiPolygon", "GeometryCollection"}

  /** A `type` string that names neither a supported geometry nor a Feature or a
      FeatureCollection: the tag of an object the reducer rejects. */
  type UnsupportedTag = t: string | t !in SupportedGeometryTypes && t != "Feature" && t != "FeatureCollection"
    witness ""

  /** A GeoJSON geometry object, discriminated by its `type` member. `Unsupported`
      stands for an object whose `type` is none of the seven. */
  datatype Geometry =
    | Point(coordinates: Coords)
    | MultiPoint(coordinates: Coords)
    | LineString(coordinates: Coords)
    | MultiLineString(coordinates: Coords)
    | Polygon(coordinates: Coords)
    | MultiPolygon(coordinates: Coords)
    | GeometryCollection(geometries: seq<Geometry>)
    | Unsupported(tag: UnsupportedTag)
  {
    /** The `type` member. */
    function Type(): (t: string)
      ensures t in SupportedGeometryTypes <==> !Unsupported?
      ensures t == "GeometryCollection" <==> GeometryCollection?
    {
      match this
      case Point(_) => "Point"
      case MultiPoint(_) => "MultiPoint"
      case LineString(_) => "LineString"
      case MultiLineString(_) => "MultiLineString"
      case Polygon(_) => "Polygon"
      case MultiPolygon(_) => "MultiPolygon"
      case GeometryCollection(_) => "GeometryCollection"
      case Unsupported(t) => t
    }

    /** The six types that carry a `coordinates` member. */
    predicate HasCoordinates() {
      !GeometryCollection? && !Unsupported?
    }
  }

  /** A JSON value: what a feature's properties map names to. */
  datatype Json =
    | JsonNull
    | JsonBool(b: bool)
    | JsonNumber(n: real)
    | JsonString(s: string)
    | JsonArray(items: seq<Json>)
    | JsonObject(fields: map<string, Json>)

  /** A feature's `properties`: a JSON object. */
  type Properties = map<string, Json>

  /** A GeoJSON Feature. Both members may be `null`. */
  datatype Feature = Feature(geometry: Option<Geometry>, properties: Option<Properties>)

  /** A GeoJSON FeatureCollection; the order of `features` is significant. */
  datatype FeatureCollection = FeatureCollection(features: seq<Feature>)

  /** Any GeoJSON object: a geometry, a Feature or a FeatureCollection. */
  datatype GeoJsonObject =
    | GeometryObject(geometry: Geometry)
    | FeatureObject(feature: Feature)
    | FeatureCollectionObject(collection: FeatureCollection)
  {
    /** The `type` member. */
    function Type(): (t: string)
      ensures t == "Feature" <==> FeatureObject?
      ensures t == "FeatureCollection" <==> FeatureCollectionObject?
    {
      match this
      case GeometryObject(g) => g.Type()
      case FeatureObject(_) => "Feature"
      case FeatureCollectionObject(_) => "FeatureCollection"
    }
  }

  /** The errors the converters throw. `InvalidWkt` is whatever the WKT decoder
      reports for text it cannot parse; `NullHasNoType` is the TypeError raised by
      reading the `type` of `null`. */
  datatype Error =
    | NotAFeatureCollection
    | GeometryTypeNotSupported(tag: string)
    | InvalidWkt(text: string)
    | NullHasNoType
  {
    /** The message of the thrown error (src/index.ts:47 and 159). Kept as a record
        of the texts callers see; no operation inspects it. */
    function Message(): string {
      match this
      case NotAFeatureCollection => "GeoJSON is not a FeatureCollection"
      case GeometryTypeNotSupported(tag) => "geometry type not supported: " + tag
      case InvalidWkt(text) => text
      case NullHasNoType => "Cannot read properties of null (reading 'type')"
    }
  }

  /** A value or the error thrown while computing it. */
  type Outcome<T> = Result<T, Error>
}
