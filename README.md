# MultiPolygon model

A Dafny model of the `MultiPolygon` of the OpenStreetMap Atlas library. A
multipolygon maps each outer polygon to the list of its inner polygons
(holes). The model covers:

- building one from a single polygon;
- the outer and inner views and iteration;
- merging, which appends the other's holes on a shared outer;
- concatenating, which keeps only the other's holes on a shared outer;
- containment of a location or a polyline, where any hole excludes;
- overlap with a polyline;
- the surface;
- the 32-bit hash code;
- `equals`;
- the lazily cached bounding box;
- the GeoJSON property projection;
- the truncated simple string.

Files:

- `geography.dfy`: locations, polylines, polygons and rectangles. The
  single-polygon operations (enclosure, overlap, surface, hash code) are a
  `Kernel` passed in as a parameter. `Rectangle.forLocations` is modelled
  as the `ForLocations` loop.
- `multimap.dfy`: the `MultiMap` class with its put/add operations.
- `multipolygon.dfy`: the `MultiPolygon` class and the specification
  functions its methods are proved against.
- `multipolygon_lemmas.dfy`: properties that relate several operations.
  It also holds the counterexamples behind the findings below.
- `collections.dfy`, `java_ints.dfy`, `wrappers.dfy`: supporting material.
  These are list and set sums, an enumeration of a finite set, Java `int`
  wrap-around, and `Option`.

The source never promises an order in which its hash map yields keys:

- The methods visit the outers by picking any outer not yet visited.
- Every sum is therefore stated as an order-free set sum (`SumOver`).
- The sequence views (`Inners`, `Iterator`, the projection) use one fixed
  but unspecified enumeration of the outers.

## Model

| member | source | states |
|---|---|---|
| MultiPolygons.MultiPolygon.ForPolygon | src/main/java/org/openstreetmap/atlas/geography/MultiPolygon.java:59-64 | the new multipolygon has exactly the given polygon as outer, with no hole, and no cached box |
| MultiPolygons.MultiPolygon.constructor | src/main/java/org/openstreetmap/atlas/geography/MultiPolygon.java:78-81 | the multipolygon holds the given outer-to-inners map and has no cached box |
| MultiPolygons.MultiPolygon.Outers | src/main/java/org/openstreetmap/atlas/geography/MultiPolygon.java:277-280 | the outers are exactly the keys of the map, one per entry |
| MultiPolygons.MultiPolygon.InnersOf | src/main/java/org/openstreetmap/atlas/geography/MultiPolygon.java:246-253 | the stored list of an outer, and the empty list for a polygon that is not an outer |
| MultiPolygons.MultiPolygon.Iterator | src/main/java/org/openstreetmap/atlas/geography/MultiPolygon.java:255-259 | iteration yields every outer exactly once, then the list of all inners |
| MultiPolygonLemmas.IteratorMembers | src/main/java/org/openstreetmap/atlas/geography/MultiPolygon.java:255-259 | a polygon is met while iterating exactly when it is an outer or a hole of some outer |
| MultiPolygons.MultiPolygon.AsLocationIterableProperties | src/main/java/org/openstreetmap/atlas/geography/MultiPolygon.java:88-103 | one entry per iterated polygon, in iteration order, each with an empty property map |
| MultiPolygons.MultiPolygon.AsTaggedLocationIterableProperties | src/main/java/org/openstreetmap/atlas/geography/MultiPolygon.java:88-103 | corrected projection: outers carry the "outer" role tag and holes the "inner" role tag |
| MultiPolygons.Project | src/main/java/org/openstreetmap/atlas/geography/MultiPolygon.java:90-102 | the outers' entries come first, then the inners', each paired with its role's property map |
| MultiPolygonLemmas.ProjectionDropsRoleTags | src/main/java/org/openstreetmap/atlas/geography/MultiPolygon.java:90-95 | the first outer is projected with an empty map, where the corrected projection gives it the non-empty outer tag |
| MultiMaps.MultiMap.constructor | src/main/java/org/openstreetmap/atlas/geography/MultiPolygon.java:61 | a new multimap is empty |
| MultiMaps.MultiMap.Put | src/main/java/org/openstreetmap/atlas/geography/MultiPolygon.java:62 | the key's list becomes the given list; every other key is unchanged |
| MultiMaps.MultiMap.Add | src/main/java/org/openstreetmap/atlas/geography/MultiPolygon.java:273 | one step of `addAll`: the given list is appended to the key's list, and a new key starts with it; every other key is unchanged (the single-value `add(k, v)` is `Add(k, [v])`) |
| MultiMaps.MultiMap.PutAll | src/main/java/org/openstreetmap/atlas/geography/MultiPolygon.java:141-142 | the new entries are the old entries overridden by the other map on shared keys |
| MultiMaps.MultiMap.AddAll | src/main/java/org/openstreetmap/atlas/geography/MultiPolygon.java:273 | the new entries are the old entries with the other map's lists appended on shared keys and added on new keys |
| MultiMaps.AccumulatedStep | src/main/java/org/openstreetmap/atlas/geography/MultiPolygon.java:273 | adding one more key's list extends the accumulation by exactly that key |
| MultiMaps.Accumulated | src/main/java/org/openstreetmap/atlas/geography/MultiPolygon.java:261-275 | keys of both; a shared key gets this list then the other's, and any other key keeps its own list |
| MultiMaps.AllValuesMembers | src/main/java/org/openstreetmap/atlas/geography/MultiPolygon.java:241-244 | the list of all values holds a value exactly when some key lists it |
| MultiPolygons.MultiPolygon.Inners | src/main/java/org/openstreetmap/atlas/geography/MultiPolygon.java:241-244 | the inners hold a polygon exactly when some outer lists it as a hole; how often each hole occurs is fixed by `IterationSums` |
| MultiPolygons.MultiPolygon.Concatenate | src/main/java/org/openstreetmap/atlas/geography/MultiPolygon.java:129-144 | the result's map is this map overridden by the other's: a shared outer keeps only the other's holes |
| MultiPolygons.MultiPolygon.Merge | src/main/java/org/openstreetmap/atlas/geography/MultiPolygon.java:261-275 | the result's map is the accumulation of both: a shared outer gets this one's holes followed by the other's |
| MultiPolygonLemmas.MergeHoles | src/main/java/org/openstreetmap/atlas/geography/MultiPolygon.java:261-275 | a polygon is a hole of an outer in the merge exactly when it is a hole of that outer on either side |
| MultiPolygonLemmas.MergeEncloses | src/main/java/org/openstreetmap/atlas/geography/MultiPolygon.java:269-275 | a merge encloses a location exactly when no hole of either side and some outer of one side encloses it |
| MultiPolygonLemmas.MergeSurface | src/main/java/org/openstreetmap/atlas/geography/MultiPolygon.java:269-275 | the merged surface is the sum of both surfaces, less the surface of the outers both share, which count once |
| MultiPolygonLemmas.MergeHoleSurface | src/main/java/org/openstreetmap/atlas/geography/MultiPolygon.java:269-275 | merging keeps every hole: the merged holes' surface is the sum of both sides' holes' surfaces |
| MultiPolygonLemmas.ConcatenateInnerTotals | src/main/java/org/openstreetmap/atlas/geography/MultiPolygon.java:138-144 | the holes of a concatenation are all of the other's, plus this one's on outers the other lacks |
| MultiPolygonLemmas.ConcatenateSurface | src/main/java/org/openstreetmap/atlas/geography/MultiPolygon.java:129-144 | concatenation's surface exceeds the merge's by exactly the surface of this side's holes on shared outers, which it erases |
| MultiPolygonLemmas.ConcatenateKeepsEnclosed | src/main/java/org/openstreetmap/atlas/geography/MultiPolygon.java:129-144 | a location this side encloses stays enclosed by the concatenation unless a hole of the other side encloses it |
| MultiPolygons.MultiPolygon.FullyEnclosesLocation | src/main/java/org/openstreetmap/atlas/geography/MultiPolygon.java:181-204 | true exactly when no hole of any outer encloses the location and some outer does |
| MultiPolygonLemmas.SingleOuterEncloses | src/main/java/org/openstreetmap/atlas/geography/MultiPolygon.java:59-64 | a single outer without holes encloses exactly what that polygon encloses |
| MultiPolygons.MultiPolygon.FullyEnclosesPolyLine | src/main/java/org/openstreetmap/atlas/geography/MultiPolygon.java:206-228 | true exactly when no hole of any outer overlaps the polyline and some outer fully encloses it |
| MultiPolygons.MultiPolygon.Overlaps | src/main/java/org/openstreetmap/atlas/geography/MultiPolygon.java:282-292 | true exactly when some location of the polyline is enclosed by the multipolygon |
| MultiPolygons.MultiPolygon.Surface | src/main/java/org/openstreetmap/atlas/geography/MultiPolygon.java:301-313 | the minimum surface plus every outer's surface, less every hole's surface |
| MultiPolygons.MultiPolygon.AddOuterSurfaces | src/main/java/org/openstreetmap/atlas/geography/MultiPolygon.java:304-307 | adding the outers' surfaces one at a time gives the start plus their set sum |
| MultiPolygons.MultiPolygon.SubtractInnerSurfaces | src/main/java/org/openstreetmap/atlas/geography/MultiPolygon.java:308-311 | taking every hole's surface away, outer by outer, gives the start less the total surface of the holes |
| MultiPolygons.MultiPolygon.SubtractSurfaces | src/main/java/org/openstreetmap/atlas/geography/MultiPolygon.java:308-311 | taking a list's surfaces away one at a time gives the start less their list sum |
| MultiPolygonLemmas.SingleOuterSurface | src/main/java/org/openstreetmap/atlas/geography/MultiPolygon.java:301-313 | one outer with holes has the outer's surface less the sum of its holes' surfaces |
| MultiPolygonLemmas.SurfaceIsIterationSum | src/main/java/org/openstreetmap/atlas/geography/MultiPolygon.java:301-313 | the order-free surface equals the sum over the outers as iterated, less the sum over the list of inners |
| MultiPolygons.MultiPolygon.HashCode | src/main/java/org/openstreetmap/atlas/geography/MultiPolygon.java:230-239 | the 32-bit wrapped sum of the hash codes of every outer and every hole |
| MultiPolygons.MultiPolygon.AddOuterHashes | src/main/java/org/openstreetmap/atlas/geography/MultiPolygon.java:233-237 | adding the outers' hash codes one at a time with wrap-around gives the wrapped total |
| MultiPolygons.MultiPolygon.AddInnerHashes | src/main/java/org/openstreetmap/atlas/geography/MultiPolygon.java:233-237 | adding every hole's hash code one at a time with wrap-around gives the wrapped total |
| MultiPolygons.MultiPolygon.AddHashes | src/main/java/org/openstreetmap/atlas/geography/MultiPolygon.java:233-237 | adding a list's hash codes one at a time with wrap-around gives the wrapped total |
| MultiPolygonLemmas.HashCodeIsIterationSum | src/main/java/org/openstreetmap/atlas/geography/MultiPolygon.java:230-239 | the hash code is the wrapped sum of the hash codes met while iterating, whatever the order |
| MultiPolygonLemmas.IterationSums | src/main/java/org/openstreetmap/atlas/geography/MultiPolygon.java:233-237 | a sum along the iteration equals the order-free sum over outers plus the sum over every hole |
| MultiPolygonLemmas.FlattenSum | src/main/java/org/openstreetmap/atlas/geography/MultiPolygon.java:241-244 | summing over the list of inners is summing each outer's hole total |
| JavaInts.Wrap32 | src/main/java/org/openstreetmap/atlas/geography/MultiPolygon.java:236 | the result is a Java int congruent to the input modulo 2^32, and equal to it when it already fits |
| JavaInts.Wrap32Add | src/main/java/org/openstreetmap/atlas/geography/MultiPolygon.java:236 | wrapping after every addition gives the same result as wrapping once at the end |
| MultiPolygons.MultiPolygon.Equals | src/main/java/org/openstreetmap/atlas/geography/MultiPolygon.java:146-179 | true exactly when the other is a multipolygon with as many outers and, for each outer here, the other has it with a hole list of the same length containing each of this one's holes |
| MultiPolygonLemmas.EqualsSameOuters | src/main/java/org/openstreetmap/atlas/geography/MultiPolygon.java:152-162 | equal multipolygons have the same set of outers |
| MultiPolygonLemmas.SameRingsAreEqual | src/main/java/org/openstreetmap/atlas/geography/MultiPolygon.java:146-179 | the same outers with the same holes, counted with multiplicity, are equal |
| MultiPolygonLemmas.EqualsWithoutRepeats | src/main/java/org/openstreetmap/atlas/geography/MultiPolygon.java:146-179 | when no outer repeats a hole, equality holds exactly when both have the same outers with the same holes |
| MultiPolygonLemmas.SameRingsIsEquivalence | src/main/java/org/openstreetmap/atlas/geography/MultiPolygon.java:146-179 | the corrected equality is reflexive, symmetric and transitive |
| MultiPolygonLemmas.SameRingsSameHashAndSurface | src/main/java/org/openstreetmap/atlas/geography/MultiPolygon.java:230-239 | multipolygons with the same rings have the same hash code and the same surface |
| MultiPolygonLemmas.SameRingsSameHoleTotal | src/main/java/org/openstreetmap/atlas/geography/MultiPolygon.java:230-239 | with the same rings, the holes add up to the same total whatever their order |
| MultiPolygonLemmas.EqualsWithoutRepeatsSameHash | src/main/java/org/openstreetmap/atlas/geography/MultiPolygon.java:146-179 | when no outer repeats a hole, equal multipolygons have equal hash codes |
| MultiPolygonLemmas.RepeatedHoleBreaksSymmetry | src/main/java/org/openstreetmap/atlas/geography/MultiPolygon.java:163-174 | holes [h1, h1] equal holes [h1, h2] one way round and not the other |
| MultiPolygonLemmas.RepeatedHoleBreaksHashCode | src/main/java/org/openstreetmap/atlas/geography/MultiPolygon.java:163-174 | those two multipolygons are equal as written yet have different hash codes |
| MultiPolygons.MultiPolygon.CollectLocations | src/main/java/org/openstreetmap/atlas/geography/MultiPolygon.java:110-111 | the collected set is exactly the locations of every outer and every hole |
| Geography.ForLocations | src/main/java/org/openstreetmap/atlas/geography/MultiPolygon.java:112 | no rectangle for no location; otherwise the rectangle holds every location and each side touches one |
| Geography.BoundingBoxUnique | src/main/java/org/openstreetmap/atlas/geography/MultiPolygon.java:112 | a set of locations has at most one bounding box |
| MultiPolygons.MultiPolygon.Bounds | src/main/java/org/openstreetmap/atlas/geography/MultiPolygon.java:105-115 | the bounding box of every ring's locations, computed on the first call and cached; once cached, later calls return it unchanged |
| MultiPolygonLemmas.BoundsHoldEveryRing | src/main/java/org/openstreetmap/atlas/geography/MultiPolygon.java:108-113 | every location of every outer and every hole lies inside the bounds |
| MultiPolygonLemmas.EnclosedLiesInBounds | src/main/java/org/openstreetmap/atlas/geography/MultiPolygon.java:105-115 | when each polygon encloses only locations between its extreme points, every enclosed location lies inside the bounds |
| MultiPolygons.ToSimpleString | src/main/java/org/openstreetmap/atlas/geography/MultiPolygon.java:339-347 | a compact string of at most 201 characters is returned as it is; a longer one becomes its first 200 characters followed by "..." |

## Left out

- `clip` only packages its arguments for a clipping engine that is not part of this model.
- The converters are not part of this model: `wkt`, `toWkt`, `toString`, `toCompactString`, `asGeoJson` and `toReadableString`. `ToSimpleString` takes the compact string as a parameter.
- `saveAsGeoJson` is I/O.
- The static fixtures `MAXIMUM` and `TEST_MULTI_POLYGON` are left out.
- `Serializable` is left out.
- `getOuterToInners` is left out. The model reads the `outerToInners` field directly.
- Single-polygon geometry is a `Kernel` parameter: point-in-polygon, polyline enclosure and overlap, area and hash code. The library code behind it is not part of this model.
- `EnclosedLiesInBounds` assumes of the kernel that a polygon encloses only locations between its extreme points. Nothing in the model establishes this.
- `MultiPolygons.MultiPolygon.Surface`: a surface is an unbounded integer. It does not model the clamping or overflow of the `Surface` type, and takes `Surface.MINIMUM` to be zero.
- `Geography.ForLocations`: it returns no rectangle for an empty set of locations. What `Rectangle.forLocations` does then is not part of this model.
- `MultiPolygons.MultiPolygon.Merge`: it assumes that `putAll` and `addAll` neither share nor change the hole lists of either argument. The code of `MultiMap` is not part of this model. If `putAll` copies list references, as `java.util.Map.putAll` does, then the `addAll` that follows appends the other's holes to this multipolygon's own lists as well. The model does not capture that.
- `MultiPolygons.ToSimpleString`: lengths are counted in characters (Unicode scalar values), where Java's `length` and `substring` count UTF-16 code units. For text outside the Basic Multilingual Plane the cut falls at a different place, and the model never splits a surrogate pair as Java can. The compact converter is not part of this model. When its output is coordinates and separators, every character is a single code unit, and the two counts agree.
- The map is held by value. Aliasing between a multipolygon and the `MultiMap` it was built from, which the source shares, is not captured.
- The order in which the hash map yields its keys is left unspecified. See the top of this file.
- The two test files are not modelled: the relation multipolygon geometry test and the sharding test.

## Findings

| source | as written | input that shows it | evidently intended | confidence | as-written member | corrected member |
|---|---|---|---|---|---|---|
| src/main/java/org/openstreetmap/atlas/geography/MultiPolygon.java:163-174 | `equals` compares hole lists by length and by membership in one direction | outer o with holes [h1, h1] against o with holes [h1, h2]: equal one way round, not the other, and the two hash codes differ | the same outers with the same holes counted with multiplicity, symmetric and consistent with `hashCode` | medium, not executed | MultiPolygonLemmas.RepeatedHoleBreaksSymmetry | MultiPolygonLemmas.SameRingsIsEquivalence |
| src/main/java/org/openstreetmap/atlas/geography/MultiPolygon.java:90-101 | a "MultiPolygon" role tag map is built for every entry and then dropped: an empty map is passed on | any multipolygon with one outer: its entry carries no properties | outers tagged "outer" and holes tagged "inner" | low, not executed | MultiPolygons.MultiPolygon.AsLocationIterableProperties | MultiPolygons.MultiPolygon.AsTaggedLocationIterableProperties |
