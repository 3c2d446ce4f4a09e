# wkt-parser-helper in Dafny

This project is a Dafny model of the logic in `src/index.ts` of wkt-parser-helper. That file converts
between GeoJSON (geometries, Features and FeatureCollections) and Well-Known Text (WKT).
It also drops the Z ordinate from every position of a GeoJSON object. The model has five modules:

- `Wrappers` (`wrappers.dfy`): `Option`, used for JavaScript `null`, and `Result`, used for thrown errors.
- `GeoJson` (`geojson.dfy`): the values.
  - Coordinate arrays of any depth: `Leaf` holds a position, `Node` holds an array of arrays.
  - The seven geometry types, plus `Unsupported(tag)` for an object whose `type` is none of them.
  - Features: both the geometry and the properties may be null.
  - FeatureCollections and JSON property values.
  - The errors: the two the code throws itself, with their messages (src/index.ts:47 and 159), the decoder's error for text it cannot parse, and the TypeError raised by reading the `type` of `null`.
- `Strip` (`strip.dfy`): `stripCoords`. It tests for a leaf by shape: is the first element a number?
- `Reducer` (`reducer.dfy`): `processGeometry`, `processFeature` and `convertZGeojsonTo2D`.
- `Wkt` (`wkt.dfy`): the converters.
  - `convertGeometryToWK`, `convertFeatureToWK`, `convertFeatureCollection` and `convertToWK`.
  - `convertFeatureCollectionToWktCollection`, `parseFromWK` and `convertWkTo2DWk`.
  - `Array.prototype.join`.

The WKT encoder `geoJSONToWkt` and decoder `wktToGeoJSON` come from the betterknown library, which is not part of this model.
Every operation that uses them takes them as function parameters:

- `encode: Option<Geometry> -> string`. It takes an `Option` because `convertFeatureToWK` can pass it a null geometry.
- `decode: string -> Result<Option<Geometry>, Error>`. It may return `null` (`None`), which `parseFromWK` passes on and which makes `convertWkTo2DWk` throw a TypeError when the reducer reads its `type`.

Nothing is assumed about either parameter, except in the one lemma that says so: `ConvertWkTo2DWkIdempotent`.

The code and its documentation disagree in two places. The model follows the code both times:

- `convertFeatureCollectionToWktCollection` builds `{ wkt, ...properties }`. A feature property named `wkt` therefore replaces the encoded text; it does not give way to it.
- `parseFromWK` passes the text straight to the decoder. It does not intercept the literal `GEOMETRYCOLLECTION EMPTY`.

## Model

| member | source | states |
|---|---|---|
| `GeoJson.Geometry.Type` | src/index.ts:142-159 | a geometry's `type` is one of the seven supported tags exactly when it is not `Unsupported`, and it is `GeometryCollection` exactly for a collection |
| `GeoJson.GeoJsonObject.Type` | src/index.ts:172-181 | an object's `type` is `Feature` exactly for a Feature and `FeatureCollection` exactly for a FeatureCollection |
| `Strip.Slice2` | src/index.ts:133 | `slice(0, 2)` keeps a prefix of at most two ordinates: exactly two when there are two or more, and the whole position when there are two or fewer |
| `Strip.TruncatedIsPlanar` | src/index.ts:133 | after truncation no position has more than two ordinates, and 2D or 3D positions all become exactly 2D |
| `Strip.StripCoordsPositions` | src/index.ts:131-137 | `StripCoords`: the positions of the stripped array, in document order, are exactly the input's positions each cut to its first two ordinates |
| `Strip.StripCoordsSkeleton` | src/index.ts:131-137 | `StripCoords`: stripping keeps the nesting: a position stays a position, and every enclosing array keeps its length |
| `Strip.StripCoordsUnique` | src/index.ts:131-137 | `StripCoords`: any array with the input's nesting whose positions are the truncated input positions is the stripped array, so the two facts above specify `stripCoords` completely |
| `Strip.StripCoordsPlanar` | src/index.ts:131-137 | after stripping every position has at most two ordinates, and exactly two when every input position had two or three |
| `Strip.StripCoordsPlanarUnchanged` | src/index.ts:131-137 | an array whose positions are already 2D is returned unchanged |
| `Strip.StripCoordsIdempotent` | src/index.ts:131-137 | stripping twice gives the same result as stripping once |
| `Reducer.ProcessGeometryCorrect` | src/index.ts:139-163 | `ProcessGeometry` (`processGeometry`) throws exactly when some geometry at any depth has an unsupported `type`, and reports the first such `type` in document order. Otherwise the result has the same types, collection sizes and nesting, its positions are the input's cut to two ordinates, and it contains no unsupported type |
| `Reducer.ProcessGeometriesCorrect` | src/index.ts:155 | `ProcessGeometries`, mapping `processGeometry` over a collection's children throws with the first unsupported `type` among them; otherwise it keeps their count and order, and each child keeps its structure with its positions truncated |
| `Reducer.ProcessGeometryPlanarUnchanged` | src/index.ts:139-163 | a geometry of supported types whose positions are already 2D is returned unchanged |
| `Reducer.ProcessGeometryIdempotent` | src/index.ts:139-163 | processing the result of `processGeometry` again returns it unchanged |
| `Reducer.ProcessFeature` | src/index.ts:165-170 | `processFeature` keeps the properties. A Feature with a null geometry comes back unchanged; otherwise it throws exactly when processing its geometry throws |
| `Reducer.ProcessFeatureCorrect` | src/index.ts:165-170 | a Feature is rejected exactly when its geometry holds an unsupported `type`. Otherwise the properties are unchanged, a null geometry stays null, and the geometry keeps its structure with its positions truncated |
| `Reducer.ProcessFeaturesCorrect` | src/index.ts:177 | `ProcessFeatures` (`features.map(processFeature)`) throws with the first unsupported `type` among the features; otherwise it keeps the number and order of features, each one's properties, and each one's geometry structure |
| `Reducer.ConvertZGeojsonTo2DCorrect` | src/index.ts:128-183 | `ConvertZGeojsonTo2D` (`convertZGeojsonTo2D`) throws exactly when its argument holds an unsupported geometry `type`, and reports the first one. Otherwise it returns an object with the same `type` and structure, whose positions are the argument's cut to two ordinates |
| `Reducer.ConvertZGeojsonTo2DPlanar` | src/index.ts:128-183 | after `convertZGeojsonTo2D` no position anywhere has more than two ordinates, and every position has exactly two when the input was 2D or 3D |
| `Reducer.ConvertZGeojsonTo2DPlanarUnchanged` | src/index.ts:128-183 | an object of supported types whose positions are already 2D is returned unchanged |
| `Reducer.ConvertZGeojsonTo2DIdempotent` | src/index.ts:128-183 | reducing to 2D twice gives the same result as reducing once |
| `Wkt.JoinAt` | src/index.ts:52-54 | `Join` (`join(sep)`) places each part at its offset in input order, with a separator after every part except the last and nothing after the last |
| `Wkt.CollectionTextAt` | src/index.ts:52-54 | in an opening + the parts joined by a separator + a closing (for this code `GEOMETRYCOLLECTION(`, `,` and `)`), each part stands at its offset after the opening and is followed by the separator, or, when it is the last part, by the closing, which ends the text |
| `Wkt.FeatureTextIsGeometryText` | src/index.ts:22-35 | `ConvertFeatureToWK` and `ConvertGeometryToWK`: a Feature's text does not depend on its properties, and a Feature with a geometry is written exactly as `convertToWK` writes that bare geometry |
| `Wkt.ConvertFeatureCollection` | src/index.ts:43-55 | anything that is not a FeatureCollection throws `NotAFeatureCollection`. No features give exactly `GEOMETRYCOLLECTION EMPTY`. Otherwise the text starts with `GEOMETRYCOLLECTION(`, ends with `)`, and is never the empty literal |
| `Wkt.FeatureCollectionTextIgnoresProperties` | src/index.ts:43-55 | `FeatureTexts` and `ConvertFeatureCollection`: two collections whose features have the same geometries in the same order get the same text (or the same error), whatever the features' properties |
| `Wkt.ConvertFeatureCollectionAt` | src/index.ts:50-54 | in a non-empty collection's text, feature i's encoding stands at its offset after `GEOMETRYCOLLECTION(`. It is followed by `,` when another feature comes next, and by the closing `)`, which ends the text, when it is last |
| `Wkt.ConvertToWK` | src/index.ts:64-73 | a Feature is written as its geometry, a FeatureCollection by `convertFeatureCollection`, and any other object by the encoder. The dispatch never makes `convertFeatureCollection` throw |
| `Wkt.WithWkt` | src/index.ts:88-91 | the record's keys are `wkt` plus the feature's property keys (none when the properties are null). Every property keeps its value, and `wkt` holds the text unless a property of that name replaces it |
| `Wkt.ConvertFeatureCollectionToWktCollection` | src/index.ts:85-92 | there is one record per feature, in order. Each holds all of its feature's properties and the feature's text under `wkt`, unless a property named `wkt` overrides it |
| `Wkt.ParseFromWKWrap` | src/index.ts:103-119 | `ParseFromWK` is the decoder's result. When the decoder throws, both forms fail with its error. Otherwise the bare parse is the decoded geometry (or `null`) unchanged, and the wrapped parse is a Feature whose geometry is the decoded geometry (or `null`) and whose properties are the given ones. The bare parse does not depend on the properties |
| `Wkt.ParseFromWKExample` | tests/index.test.ts:85-95 | text that decodes to a geometry parses to that same geometry, and with the properties `{test: "Test"}` to a Feature holding that geometry and exactly those properties |
| `Wkt.ParseFromWKWrapTransparent` | src/index.ts:103-119 | for a non-null decoded geometry, wrapping it in a Feature does not change its text, and reducing the wrapped parse gives the same error, or the wrapped reduction of the bare parse. A `null` decoded geometry wraps into a Feature that the reducer returns unchanged |
| `Wkt.ConvertWkTo2DWkCorrect` | src/index.ts:192-196 | `ConvertWkTo2DWk`, the 2D pipeline, passes on the decoder's error. It throws a TypeError when the decoder returns `null` (the read of `type` at src/index.ts:172), and the reducer's error when the decoded tree holds an unsupported `type`. Otherwise it writes out a geometry with the decoded structure whose positions are all at most 2D: the decoded positions cut to two ordinates |
| `Wkt.ConvertWkTo2DWkIdempotent` | src/index.ts:192-196 | when the decoder reads back the 2D geometry the encoder wrote, running the 2D pipeline on its own output returns that output |
| `Wkt.TwoFeaturesExample` | tests/index.test.ts:97-101 | a collection of the same feature twice is written `GEOMETRYCOLLECTION(w,w)`, with no space |
| `Wkt.WktCollectionExample` | tests/index.test.ts:103-150 | the Point and LineString features of the test give records holding `wkt`, `name` and `description` exactly |
| `Wkt.PolygonWithZExample` | tests/index.test.ts:158-161 | `convertZGeojsonTo2D` succeeds on the test's 3D polygon and returns a polygon whose first position is the input's first position without Z |

## Left out

- WKT grammar, tokenising and number formatting belong to betterknown's `geoJSONToWkt` and `wktToGeoJSON` (src/index.ts:10). They are the `encode` and `decode` parameters, and no WKT round trip is claimed about them.
- An error thrown by the encoder is not modelled: `encode` is a total function. This includes whatever betterknown does with a null geometry.
- The empty-collection literal on decode: `GEOMETRYCOLLECTION EMPTY` becomes an empty GeometryCollection only if `decode` does that. `parseFromWK` adds no intercept.
- `klona` (src/index.ts:129) and the in-place reassignments of `coordinates`, `geometries`, `geometry` and `features` on the copy it makes (src/index.ts:151, 155, 167, 177) are not modelled as updates in place. The copy is private, so no caller can see those updates. The model builds new immutable values instead, and the caller's argument is never changed.
- Ordinates are `real`. Floating-point behaviour is not modelled; no operation computes with an ordinate.
- `processGeometry`'s null check (src/index.ts:140) is not modelled. In the source it is reached only by a null child of a GeometryCollection, which cannot be expressed here: a collection's children are all geometries. The model's null test in `ProcessFeature` stands for the truthiness test of `processFeature` (src/index.ts:166), which keeps a null geometry away from `processGeometry`.
- `ConvertZGeojsonTo2D` and `ConvertToWK` take a non-null object. Called with `null`, the source throws a TypeError when it reads `type` (src/index.ts:65 and 172; `klona(null)` is `null`). The model covers that TypeError only where the file itself can produce the `null`: a decoder returning `null` inside `convertWkTo2DWk`.
- Foreign members are not modelled: `bbox` on any object, a Feature's `id`, and any other member. `convertZGeojsonTo2D` copies them through untouched, so a 3D `bbox` keeps its six numbers after reduction to 2D.
- `WithWkt`: the record `{ wkt, ...properties }` is a `map`, so JavaScript key order is lost. In the source `wkt` is the first key, and it stays first even when a property named `wkt` replaces its value.
- A geometry tagged `Feature` or `FeatureCollection` cannot be expressed wherever a geometry is expected: as a child of a GeometryCollection, as a Feature's geometry, or as what the decoder returns. The source would reject the first two with the "geometry type not supported" error (src/index.ts:158-159, reached through lines 155 and 167). The `Unsupported` tag excludes these two names so that a top-level `Unsupported` geometry cannot be confused with a Feature or a FeatureCollection.
- Arrays that mix numbers and nested arrays in one coordinate array are outside the GeoJSON types and cannot be expressed.
- Stack depth on deeply nested input is not modelled.
- The default arguments of `parseFromWK` become explicit parameters. `DefaultProperties` is the `{}` default; `convertWkTo2DWk` passes `asFeature = false`.
- `index.js` is an older wrapper whose methods call the wkx library directly. It has no logic of its own to model.
- The test file imports names that `src/index.ts` does not export, such as `geojsonToWkt` and `geojson3dTo2d`. The example lemmas map them to the functions of the same role.
