/**
 * The geometric values a multipolygon is built from. Single-polygon
 * geometry (point-in-polygon, polyline overlap, area, hash code) lives in
 * library code outside this model and is handed in as a `Kernel`.
 */
module Geography {
  import opened Wrappers

  /** A point, in the integer coordinate units of the atlas. */
  datatype Location = Location(latitude: int, longitude: int)

  /** An open line through an ordered list of locations. */
  datatype PolyLine = PolyLine(points: seq<Location>)

  /** A closed ring; two polygons are equal exactly when their point lists are. */
  datatype Polygon = Polygon(points: seq<Location>)

  /** An axis-aligned box given by its lower-left and upper-right corners. */
  datatype Rectangle = Rectangle(lowerLeft: Location, upperRight: Location)

  /**
   * The single-polygon operations a multipolygon delegates to: whether a
   * polygon fully encloses a location or a polyline, whether it overlaps a
   * polyline, its surface and its hash code.
   */
  datatype Kernel = Kernel(
    enclosesLocation: (Polygon, Location) -> bool,
    enclosesPolyLine: (Polygon, PolyLine) -> bool,
    overlapsPolyLine: (Polygon, PolyLine) -> bool,
    surface: Polygon -> int,
    hash: Polygon -> int)

  /** `l` lies between the extreme latitudes and longitudes of the points of `p`. */
  ghost predicate WithinHull(p: Polygon, l: Location) {
    && (exists a :: a in p.points && a.latitude <= l.latitude)
    && (exists a :: a in p.points && l.latitude <= a.latitude)
    && (exists a :: a in p.points && a.longitude <= l.longitude)
    && (exists a :: a in p.points && l.longitude <= a.longitude)
  }

  /** A kernel whose polygons enclose only locations between their own extreme points. */
  ghost predicate EnclosesWithinHull(g: Kernel) {
    forall p, l :: g.enclosesLocation(p, l) ==> WithinHull(p, l)
  }

  predicate Inside(r: Rectangle, l: Location) {
    && r.lowerLeft.latitude <= l.latitude <= r.upperRight.latitude
    && r.lowerLeft.longitude <= l.longitude <= r.upperRight.longitude
  }

  /** The locations a polygon is drawn through. */
  function PointSet(p: Polygon): set<Location> {
    set l | l in p.points
  }

  /** `r` encloses every location of `locations` and each of its four sides touches one of them. */
  ghost predicate IsBoundingBox(r: Rectangle, locations: set<Location>) {
    && (forall l :: l in locations ==> Inside(r, l))
    && (exists l :: l in locations && l.latitude == r.lowerLeft.latitude)
    && (exists l :: l in locations && l.longitude == r.lowerLeft.longitude)
    && (exists l :: l in locations && l.latitude == r.upperRight.latitude)
    && (exists l :: l in locations && l.longitude == r.upperRight.longitude)
  }

  /** A set of locations has at most one bounding box. */
  lemma BoundingBoxUnique(r1: Rectangle, r2: Rectangle, locations: set<Location>)
    requires IsBoundingBox(r1, locations) && IsBoundingBox(r2, locations)
    ensures r1 == r2
  {
  }

  function Min(a: int, b: int): int { if a <= b then a else b }
  function Max(a: int, b: int): int { if a <= b then b else a }

  /**
   * The smallest rectangle holding every location of `locations`, found by
   * widening a box one location at a time; no rectangle when there is no
   * location at all.
   */
  method ForLocations(locations: set<Location>) returns (r: Option<Rectangle>)
    ensures r.None? <==> locations == {}
    ensures r.Some? ==> IsBoundingBox(r.value, locations)
  {
    if locations == {} {
      return None;
    }
    var first :| first in locations;
    var lower, upper := first, first;
    var rest := locations - {first};
    ghost var seen := {first};
    while rest != {}
      invariant rest + seen == locations && first in seen
      invariant IsBoundingBox(Rectangle(lower, upper), seen)
      decreases rest
    {
      var l :| l in rest;
      lower := Location(Min(lower.latitude, l.latitude), Min(lower.longitude, l.longitude));
      upper := Location(Max(upper.latitude, l.latitude), Max(upper.longitude, l.longitude));
      rest := rest - {l};
      seen := seen + {l};
    }
    return Some(Rectangle(lower, upper));
  }
}
