/**
 * A multipolygon: outer polygons, each with the list of inner polygons
 * (holes) that belong to it. The value never changes after construction;
 * only its bounding box is computed on first request and kept.
 *
 * Key iteration order of the underlying hash map is never promised: the
 * methods below walk the outers by picking any outer not yet visited, and
 * the sequence views (inners, iteration, projection) use one fixed but
 * unspecified enumeration of the outers.
 */
module MultiPolygons {
  import opened Wrappers
  import opened Geography
  import opened Collections
  import opened JavaInts
  import opened MultiMaps

  /** Each outer polygon with the list of its inner polygons. */
  type Rings = map<Polygon, seq<Polygon>>

  /** Length at which the simple string form is cut. */
  const SimpleStringLength: nat := 200

  /** The zero surface every surface sum starts from. */
  const MinimumSurface: int := 0

  /** Some hole, of any outer, encloses `l`. */
  ghost predicate InsideSomeHole(g: Kernel, m: Rings, l: Location) {
    exists o, i :: o in m && i in m[o] && g.enclosesLocation(i, l)
  }

  /** Some outer encloses `l`. */
  ghost predicate InsideSomeOuter(g: Kernel, m: Rings, l: Location) {
    exists o :: o in m && g.enclosesLocation(o, l)
  }

  /** The multipolygon encloses `l`: inside an outer and inside no hole at all. */
  ghost predicate Encloses(g: Kernel, m: Rings, l: Location) {
    !InsideSomeHole(g, m, l) && InsideSomeOuter(g, m, l)
  }

  /** Some hole, of any outer, overlaps `line`. */
  ghost predicate SomeHoleOverlaps(g: Kernel, m: Rings, line: PolyLine) {
    exists o, i :: o in m && i in m[o] && g.overlapsPolyLine(i, line)
  }

  /** Some outer fully encloses `line`. */
  ghost predicate SomeOuterEncloses(g: Kernel, m: Rings, line: PolyLine) {
    exists o :: o in m && g.enclosesPolyLine(o, line)
  }

  /** The multipolygon encloses `line`: one outer encloses it and no hole overlaps it. */
  ghost predicate EnclosesLine(g: Kernel, m: Rings, line: PolyLine) {
    !SomeHoleOverlaps(g, m, line) && SomeOuterEncloses(g, m, line)
  }

  /** One of the locations of `line` is enclosed by the multipolygon. */
  ghost predicate OverlapsLine(g: Kernel, m: Rings, line: PolyLine) {
    exists k :: 0 <= k < |line.points| && Encloses(g, m, line.points[k])
  }

  /** For an outer, the sum of `f` over its own holes. */
  function InnerTotal(m: Rings, f: Polygon -> int): Polygon -> int {
    o => ListSum(ValuesFor(m, o), f)
  }

  /** The surface of every outer, less the surface of every hole. */
  ghost function SurfaceOf(g: Kernel, m: Rings): int {
    MinimumSurface + SumOver(m.Keys, g.surface) - SumOver(m.Keys, InnerTotal(m, g.surface))
  }

  /** The Java sum of the hash codes of every outer and every hole. */
  ghost function HashOf(g: Kernel, m: Rings): int {
    Wrap32(HashTotal(g, m))
  }

  /** The hash codes of every outer and every hole, added without wrap-around. */
  ghost function HashTotal(g: Kernel, m: Rings): int {
    SumOver(m.Keys, g.hash) + SumOver(m.Keys, InnerTotal(m, g.hash))
  }

  ghost function OuterLocations(outers: set<Polygon>): set<Location> {
    set o, l | o in outers && l in o.points :: l
  }

  ghost function ListLocations(polygons: seq<Polygon>): set<Location> {
    set p, l | p in polygons && l in p.points :: l
  }

  ghost function HoleLocations(m: Rings, outers: set<Polygon>): set<Location> {
    set o, i, l | o in outers && o in m && i in m[o] && l in i.points :: l
  }

  /** Every location of every outer and every hole. */
  ghost function RingLocations(m: Rings): set<Location> {
    OuterLocations(m.Keys) + HoleLocations(m, m.Keys)
  }

  /** The test `equals` applies to one outer `o` of `a`. */
  ghost predicate InnersMatch(a: Rings, b: Rings, o: Polygon) {
    && o in b
    && |ValuesFor(b, o)| == |ValuesFor(a, o)|
    && forall i :: i in ValuesFor(a, o) ==> i in ValuesFor(b, o)
  }

  /**
   * Equality as the source decides it: as many outers, and for each outer of
   * `a` an outer of `b` with a hole list of the same length holding each of
   * `a`'s holes.
   */
  ghost predicate EqualsAsWritten(a: Rings, b: Rings) {
    |a| == |b| && forall o :: o in a ==> InnersMatch(a, b, o)
  }

  /** The same outers, each with the same holes counted with multiplicity. */
  ghost predicate SameRings(a: Rings, b: Rings) {
    a.Keys == b.Keys && forall o :: o in a ==> multiset(a[o]) == multiset(b[o])
  }

  /** A polygon with its properties, as handed to the GeoJSON writer. */
  datatype LocationIterableProperties = LocationIterableProperties(polygon: Polygon, properties: map<string, string>)

  /** The property maps the source builds, and then does not pass on, for each role. */
  const OuterTags: map<string, string> := map["MultiPolygon" := "outer"]
  const InnerTags: map<string, string> := map["MultiPolygon" := "inner"]

  /** The outers, then the holes, each paired with the property map given for its role. */
  function Project(outers: seq<Polygon>, inners: seq<Polygon>, outerTags: map<string, string>,
                   innerTags: map<string, string>): (r: seq<LocationIterableProperties>)
    ensures |r| == |outers| + |inners|
    ensures forall k :: 0 <= k < |outers| ==> r[k] == LocationIterableProperties(outers[k], outerTags)
    ensures forall k :: |outers| <= k < |r| ==> r[k] == LocationIterableProperties(inners[k - |outers|], innerTags)
  {
    seq(|outers|, k requires 0 <= k < |outers| => LocationIterableProperties(outers[k], outerTags))
      + seq(|inners|, k requires 0 <= k < |inners| => LocationIterableProperties(inners[k], innerTags))
  }

  /**
   * The simple string form: a compact string longer than one past the cut
   * length keeps its first 200 characters followed by "...".
   */
  function ToSimpleString(compact: string): (r: string)
    ensures |compact| <= SimpleStringLength + 1 ==> r == compact
    ensures |compact| > SimpleStringLength + 1 ==>
      && |r| == SimpleStringLength + 3
      && r[..SimpleStringLength] == compact[..SimpleStringLength]
      && r[SimpleStringLength..] == "..."
    ensures |r| <= SimpleStringLength + 3 && |r| <= |compact| + 1
  {
    if |compact| > SimpleStringLength + 1 then compact[..SimpleStringLength] + "..." else compact
  }

  class MultiPolygon {
    const outerToInners: Rings
    var bounds: Option<Rectangle>

    /** A cached box is the bounding box of every location of every ring. */
    ghost predicate Valid()
      reads this
    {
      bounds.Some? ==> IsBoundingBox(bounds.value, RingLocations(outerToInners))
    }

    /** Wraps the given map as it is, with no box computed yet. */
    constructor (outerToInners: Rings)
      ensures this.outerToInners == outerToInners && bounds == None
      ensures Valid()
    {
      this.outerToInners := outerToInners;
      bounds := None;
    }

    /** A multipolygon with `polygon` as its single outer and no hole. */
    static method ForPolygon(polygon: Polygon) returns (r: MultiPolygon)
      ensures fresh(r) && r.Valid() && r.bounds == None
      ensures r.Outers() == {polygon} && r.InnersOf(polygon) == []
    {
      var multiMap := new MultiMap<Polygon, Polygon>();
      multiMap.Put(polygon, []);
      r := new MultiPolygon(multiMap.entries);
    }

    function Outers(): (r: set<Polygon>)
      ensures |r| == |outerToInners|
      ensures forall o :: o in r <==> o in outerToInners
    {
      outerToInners.Keys
    }

    /** The holes of `outer`: its stored list, or no hole when it is not an outer. */
    function InnersOf(outer: Polygon): (r: seq<Polygon>)
      ensures outer in Outers() ==> r == outerToInners[outer]
      ensures outer !in Outers() ==> r == []
    {
      ValuesFor(outerToInners, outer)
    }

    /** Every hole of every outer, outer after outer. */
    ghost function Inners(): (r: seq<Polygon>)
      ensures forall i :: i in r <==> exists o :: o in outerToInners && i in outerToInners[o]
    {
      forall i ensures i in AllValues(outerToInners) <==> exists o :: o in outerToInners && i in outerToInners[o] {
        AllValuesMembers(outerToInners, i);
      }
      AllValues(outerToInners)
    }

    /** What iterating the multipolygon yields: every outer once, then every hole. */
    ghost function Iterator(): (r: seq<Polygon>)
      ensures |r| == |outerToInners| + |Inners()|
      ensures Distinct(r[..|outerToInners|]) && Elements(r[..|outerToInners|]) == Outers()
      ensures r[|outerToInners|..] == Inners()
    {
      var outers := Enumerate(outerToInners.Keys);
      assert (outers + Inners())[..|outers|] == outers;
      outers + Inners()
    }

    /** Every polygon of the iteration, each paired with an empty property map. */
    ghost function AsLocationIterableProperties(): (r: seq<LocationIterableProperties>)
      ensures |r| == |Iterator()|
      ensures forall k :: 0 <= k < |r| ==> r[k] == LocationIterableProperties(Iterator()[k], map[])
    {
      var outers := Enumerate(outerToInners.Keys);
      assert Iterator() == outers + Inners();
      Project(outers, Inners(), map[], map[])
    }

    /**
     * The projection with the role tag each entry was evidently meant to
     * carry: "outer" for the outers, "inner" for the holes.
     */
    ghost function AsTaggedLocationIterableProperties(): (r: seq<LocationIterableProperties>)
      ensures |r| == |Iterator()|
      ensures forall k :: 0 <= k < |outerToInners| ==>
        r[k] == LocationIterableProperties(Iterator()[k], OuterTags)
      ensures forall k :: |outerToInners| <= k < |r| ==>
        r[k] == LocationIterableProperties(Iterator()[k], InnerTags)
    {
      var outers := Enumerate(outerToInners.Keys);
      assert Iterator() == outers + Inners();
      Project(outers, Inners(), OuterTags, InnerTags)
    }

    /** The outers of both; an outer of `other` keeps only `other`'s holes. */
    method Concatenate(other: MultiPolygon) returns (r: MultiPolygon)
      ensures fresh(r) && r.Valid() && r.bounds == None
      ensures r.outerToInners == outerToInners + other.outerToInners
    {
      var result := new MultiMap<Polygon, Polygon>();
      result.PutAll(outerToInners);
      result.PutAll(other.outerToInners);
      assert map[] + outerToInners == outerToInners;
      r := new MultiPolygon(result.entries);
    }

    /** The outers of both; a shared outer gets this one's holes followed by `other`'s. */
    method Merge(other: MultiPolygon) returns (r: MultiPolygon)
      ensures fresh(r) && r.Valid() && r.bounds == None
      ensures r.outerToInners == Accumulated(outerToInners, other.outerToInners)
    {
      var result := new MultiMap<Polygon, Polygon>();
      result.PutAll(outerToInners);
      result.AddAll(other.outerToInners);
      assert map[] + outerToInners == outerToInners;
      r := new MultiPolygon(result.entries);
    }

    /** Holes first: a location inside any hole is not enclosed, whichever outer it lies in. */
    method FullyEnclosesLocation(g: Kernel, location: Location) returns (r: bool)
      ensures r <==> Encloses(g, outerToInners, location)
    {
      var rest := outerToInners.Keys;
      while rest != {}
        invariant rest <= outerToInners.Keys
        invariant forall o, i :: o in outerToInners && o !in rest && i in outerToInners[o] ==>
          !g.enclosesLocation(i, location)
        decreases rest
      {
        var outer :| outer in rest;
        var inners := outerToInners[outer];
        for k := 0 to |inners|
          invariant forall j :: 0 <= j < k ==> !g.enclosesLocation(inners[j], location)
        {
          if g.enclosesLocation(inners[k], location) {
            assert inners[k] in outerToInners[outer];
            return false;
          }
        }
        rest := rest - {outer};
      }
      rest := outerToInners.Keys;
      while rest != {}
        invariant rest <= outerToInners.Keys
        invariant forall o :: o in outerToInners && o !in rest ==> !g.enclosesLocation(o, location)
        decreases rest
      {
        var outer :| outer in rest;
        if g.enclosesLocation(outer, location) {
          return true;
        }
        rest := rest - {outer};
      }
      return false;
    }

    /** Holes first: a polyline that any hole overlaps is not enclosed. */
    method FullyEnclosesPolyLine(g: Kernel, line: PolyLine) returns (r: bool)
      ensures r <==> EnclosesLine(g, outerToInners, line)
    {
      var rest := outerToInners.Keys;
      while rest != {}
        invariant rest <= outerToInners.Keys
        invariant forall o, i :: o in outerToInners && o !in rest && i in outerToInners[o] ==>
          !g.overlapsPolyLine(i, line)
        decreases rest
      {
        var outer :| outer in rest;
        var inners := outerToInners[outer];
        for k := 0 to |inners|
          invariant forall j :: 0 <= j < k ==> !g.overlapsPolyLine(inners[j], line)
        {
          if g.overlapsPolyLine(inners[k], line) {
            assert inners[k] in outerToInners[outer];
            return false;
          }
        }
        rest := rest - {outer};
      }
      rest := outerToInners.Keys;
      while rest != {}
        invariant rest <= outerToInners.Keys
        invariant forall o :: o in outerToInners && o !in rest ==> !g.enclosesPolyLine(o, line)
        decreases rest
      {
        var outer :| outer in rest;
        if g.enclosesPolyLine(outer, line) {
          return true;
        }
        rest := rest - {outer};
      }
      return false;
    }

    /** True as soon as one location of the polyline is enclosed. */
    method Overlaps(g: Kernel, line: PolyLine) returns (r: bool)
      ensures r <==> OverlapsLine(g, outerToInners, line)
    {
      for k := 0 to |line.points|
        invariant forall j :: 0 <= j < k ==> !Encloses(g, outerToInners, line.points[j])
      {
        var enclosed := FullyEnclosesLocation(g, line.points[k]);
        if enclosed {
          return true;
        }
      }
      return false;
    }

    /** Adds every outer's surface, then takes away every hole's surface. */
    method Surface(g: Kernel) returns (r: int)
      ensures r == SurfaceOf(g, outerToInners)
    {
      r := AddOuterSurfaces(g, MinimumSurface, outerToInners.Keys);
      r := SubtractInnerSurfaces(g, r, outerToInners);
    }

    /** Adds the surface of each outer of `outers` to `start`. */
    static method AddOuterSurfaces(g: Kernel, start: int, outers: set<Polygon>) returns (r: int)
      ensures r == start + SumOver(outers, g.surface)
    {
      r := start;
      var rest := outers;
      while rest != {}
        invariant rest <= outers
        invariant r + SumOver(rest, g.surface) == start + SumOver(outers, g.surface)
        decreases rest
      {
        var outer :| outer in rest;
        SumOverRemove(rest, g.surface, outer);
        r := r + g.surface(outer);
        rest := rest - {outer};
      }
    }

    /** Takes the surface of every hole of `m` away from `start`, outer by outer. */
    static method SubtractInnerSurfaces(g: Kernel, start: int, m: Rings) returns (r: int)
      ensures r == start - SumOver(m.Keys, InnerTotal(m, g.surface))
    {
      var holes := InnerTotal(m, g.surface);
      r := start;
      var rest := m.Keys;
      while rest != {}
        invariant rest <= m.Keys
        invariant r - SumOver(rest, holes) == start - SumOver(m.Keys, holes)
        decreases rest
      {
        var outer :| outer in rest;
        r := SubtractSurfaces(g, r, m[outer]);
        SumOverRemove(rest, holes, outer);
        rest := rest - {outer};
      }
    }

    /** Takes the surface of each polygon of `polygons` away from `start`. */
    static method SubtractSurfaces(g: Kernel, start: int, polygons: seq<Polygon>) returns (r: int)
      ensures r == start - ListSum(polygons, g.surface)
    {
      r := start;
      for k := 0 to |polygons|
        invariant r == start - ListSum(polygons[..k], g.surface)
      {
        assert polygons[..k + 1][..k] == polygons[..k];
        r := r - g.surface(polygons[k]);
      }
      assert polygons[..|polygons|] == polygons;
    }

    /** Adds up, with Java's 32-bit wrap-around, the hash codes of every outer and every hole. */
    method HashCode(g: Kernel) returns (r: int)
      ensures r == HashOf(g, outerToInners)
    {
      r := AddOuterHashes(g, 0, 0, outerToInners.Keys);
      r := AddInnerHashes(g, r, SumOver(outerToInners.Keys, g.hash), outerToInners);
    }

    /** Adds the hash codes of the outers `outers` to a running Java `int` sum. */
    static method AddOuterHashes(g: Kernel, start: int, ghost total: int, outers: set<Polygon>) returns (r: int)
      requires start == Wrap32(total)
      ensures r == Wrap32(total + SumOver(outers, g.hash))
    {
      ghost var sum := total;
      r := start;
      var rest := outers;
      while rest != {}
        invariant rest <= outers
        invariant r == Wrap32(sum)
        invariant sum + SumOver(rest, g.hash) == total + SumOver(outers, g.hash)
        decreases rest
      {
        var outer :| outer in rest;
        SumOverRemove(rest, g.hash, outer);
        Wrap32Add(sum, g.hash(outer));
        r := Wrap32(r + g.hash(outer));
        sum := sum + g.hash(outer);
        rest := rest - {outer};
      }
    }

    /** Adds the hash codes of every hole of `m` to a running Java `int` sum, outer by outer. */
    static method AddInnerHashes(g: Kernel, start: int, ghost total: int, m: Rings) returns (r: int)
      requires start == Wrap32(total)
      ensures r == Wrap32(total + SumOver(m.Keys, InnerTotal(m, g.hash)))
    {
      var holes := InnerTotal(m, g.hash);
      ghost var sum := total;
      r := start;
      var rest := m.Keys;
      while rest != {}
        invariant rest <= m.Keys
        invariant r == Wrap32(sum)
        invariant sum + SumOver(rest, holes) == total + SumOver(m.Keys, holes)
        decreases rest
      {
        var outer :| outer in rest;
        ghost var added := ListSum(m[outer], g.hash);
        r := AddHashes(g, r, sum, m[outer]);
        sum := sum + added;
        assert r == Wrap32(sum);
        SumOverRemove(rest, holes, outer);
        assert holes(outer) == added;
        rest := rest - {outer};
      }
      assert sum == total + SumOver(m.Keys, holes);
    }

    /** Adds the hash codes of `polygons` to a running Java `int` sum. */
    static method AddHashes(g: Kernel, start: int, ghost total: int, polygons: seq<Polygon>) returns (r: int)
      requires start == Wrap32(total)
      ensures r == Wrap32(total + ListSum(polygons, g.hash))
    {
      r := start;
      for k := 0 to |polygons|
        invariant r == Wrap32(total + ListSum(polygons[..k], g.hash))
      {
        assert polygons[..k + 1][..k] == polygons[..k];
        Wrap32Add(total + ListSum(polygons[..k], g.hash), g.hash(polygons[k]));
        r := Wrap32(r + g.hash(polygons[k]));
      }
      assert polygons[..|polygons|] == polygons;
    }

    /**
     * `equals`: false for anything that is not a multipolygon, then the outer
     * counts, then outer by outer the hole-list lengths and the membership of
     * each hole in the other's list for that outer.
     */
    method Equals(that: MultiPolygon?) returns (r: bool)
      ensures r <==> that != null && EqualsAsWritten(outerToInners, that.outerToInners)
    {
      if that == null {
        return false;
      }
      var thatOuters := that.Outers();
      if |thatOuters| != |Outers()| {
        return false;
      }
      var rest := Outers();
      while rest != {}
        invariant rest <= outerToInners.Keys
        invariant forall o :: o in outerToInners && o !in rest ==> InnersMatch(outerToInners, that.outerToInners, o)
        decreases rest
      {
        var outer :| outer in rest;
        if outer !in thatOuters {
          return false;
        }
        var thatInners := that.InnersOf(outer);
        var inners := InnersOf(outer);
        if |thatInners| != |inners| {
          return false;
        }
        for k := 0 to |inners|
          invariant forall j :: 0 <= j < k ==> inners[j] in thatInners
        {
          if inners[k] !in thatInners {
            return false;
          }
        }
        rest := rest - {outer};
      }
      return true;
    }

    /** Gathers the locations of every outer, then of every hole. */
    method CollectLocations() returns (locations: set<Location>)
      ensures locations == RingLocations(outerToInners)
    {
      locations := {};
      var rest := outerToInners.Keys;
      while rest != {}
        invariant rest <= outerToInners.Keys
        invariant locations == OuterLocations(outerToInners.Keys - rest)
        decreases rest
      {
        var outer :| outer in rest;
        assert OuterLocations(outerToInners.Keys - (rest - {outer}))
          == OuterLocations(outerToInners.Keys - rest) + PointSet(outer);
        locations := locations + PointSet(outer);
        rest := rest - {outer};
      }
      rest := outerToInners.Keys;
      while rest != {}
        invariant rest <= outerToInners.Keys
        invariant locations == OuterLocations(outerToInners.Keys) + HoleLocations(outerToInners, outerToInners.Keys - rest)
        decreases rest
      {
        var outer :| outer in rest;
        var inners := outerToInners[outer];
        ghost var before := locations;
        for k := 0 to |inners|
          invariant locations == before + ListLocations(inners[..k])
        {
          assert ListLocations(inners[..k + 1]) == ListLocations(inners[..k]) + PointSet(inners[k]) by {
            assert inners[..k + 1] == inners[..k] + [inners[k]];
          }
          locations := locations + PointSet(inners[k]);
        }
        assert inners[..|inners|] == inners;
        assert HoleLocations(outerToInners, outerToInners.Keys - (rest - {outer}))
          == HoleLocations(outerToInners, outerToInners.Keys - rest) + ListLocations(inners);
        rest := rest - {outer};
      }
    }

    /**
     * The bounding box of every location of every ring, computed on the first
     * call and kept: once cached, the same box is returned and nothing changes.
     * There is no box when the rings hold no location.
     */
    method Bounds() returns (r: Option<Rectangle>)
      requires Valid()
      modifies this
      ensures Valid() && bounds == r
      ensures r.Some? <==> RingLocations(outerToInners) != {}
      ensures r.Some? ==> IsBoundingBox(r.value, RingLocations(outerToInners))
      ensures old(bounds).Some? ==> r == old(bounds)
    {
      if bounds.None? {
        var locations := CollectLocations();
        bounds := ForLocations(locations);
      }
      r := bounds;
    }
  }
}
