/**
 * Properties of multipolygons that relate several operations: what merging
 * and concatenating do to containment and surface, how the order-free sums
 * relate to iteration, what `equals` does and does not guarantee, and where
 * the bounding box lies.
 */
module MultiPolygonLemmas {
  import opened Geography
  import opened Collections
  import opened JavaInts
  import opened MultiMaps
  import opened MultiPolygons

  // ---------------------------------------------------------------- single outer

  /** A single outer with holes `holes` has the outer's surface less the holes' surfaces. */
  lemma SingleOuterSurface(g: Kernel, outer: Polygon, holes: seq<Polygon>)
    ensures SurfaceOf(g, map[outer := holes]) == MinimumSurface + g.surface(outer) - ListSum(holes, g.surface)
  {
    var m := map[outer := holes];
    assert m.Keys == {outer};
    SumOverSingleton(outer, g.surface);
    SumOverSingleton(outer, InnerTotal(m, g.surface));
  }

  /** A single outer without holes encloses exactly what the outer polygon encloses. */
  lemma SingleOuterEncloses(g: Kernel, outer: Polygon, l: Location)
    ensures Encloses(g, map[outer := []], l) <==> g.enclosesLocation(outer, l)
  {
  }

  // ---------------------------------------------------------------- merge

  /** The holes of a merge are the holes of both sides, whatever outer they belong to. */
  lemma MergeHoles(a: Rings, b: Rings, o: Polygon, i: Polygon)
    ensures (o in Accumulated(a, b) && i in Accumulated(a, b)[o])
        <==> (o in a && i in a[o]) || (o in b && i in b[o])
  {
  }

  /**
   * A merge encloses a location exactly when no hole of either side encloses
   * it and an outer of one side does.
   */
  lemma MergeEncloses(g: Kernel, a: Rings, b: Rings, l: Location)
    ensures Encloses(g, Accumulated(a, b), l)
        <==> !InsideSomeHole(g, a, l) && !InsideSomeHole(g, b, l)
             && (InsideSomeOuter(g, a, l) || InsideSomeOuter(g, b, l))
  {
  }

  /** On every outer, the holes' total of a merge is the sum of both sides' totals. */
  lemma MergeInnerTotals(a: Rings, b: Rings, f: Polygon -> int, k: Polygon)
    ensures InnerTotal(Accumulated(a, b), f)(k) == InnerTotal(a, f)(k) + InnerTotal(b, f)(k)
  {
    var m := Accumulated(a, b);
    assert ValuesFor(m, k) == ValuesFor(a, k) + ValuesFor(b, k);
    ListSumAppend(ValuesFor(a, k), ValuesFor(b, k), f);
  }

  /** A ring total vanishes off the outers of its multipolygon. */
  lemma InnerTotalSupport(s: set<Polygon>, m: Rings, f: Polygon -> int)
    requires m.Keys <= s
    ensures SumOver(s, InnerTotal(m, f)) == SumOver(m.Keys, InnerTotal(m, f))
  {
    SumOverSupport(s, m.Keys, InnerTotal(m, f));
  }

  /** The holes' surface of a merge is the holes' surface of this plus that of other. */
  lemma MergeHoleSurface(a: Rings, b: Rings, f: Polygon -> int)
    ensures SumOver(a.Keys + b.Keys, InnerTotal(Accumulated(a, b), f))
         == SumOver(a.Keys, InnerTotal(a, f)) + SumOver(b.Keys, InnerTotal(b, f))
  {
    forall k | k in a.Keys + b.Keys
      ensures InnerTotal(Accumulated(a, b), f)(k) == InnerTotal(a, f)(k) + InnerTotal(b, f)(k)
    {
      MergeInnerTotals(a, b, f, k);
    }
    SumOverAdd(a.Keys + b.Keys, InnerTotal(a, f), InnerTotal(b, f), InnerTotal(Accumulated(a, b), f));
    InnerTotalSupport(a.Keys + b.Keys, a, f);
    InnerTotalSupport(a.Keys + b.Keys, b, f);
  }

  /**
   * Merging keeps every hole, so the merged surface is the sum of both
   * surfaces, except that an outer both sides share is counted once.
   */
  lemma MergeSurface(g: Kernel, a: Rings, b: Rings)
    ensures SurfaceOf(g, Accumulated(a, b))
         == SurfaceOf(g, a) + SurfaceOf(g, b) - MinimumSurface - SumOver(a.Keys * b.Keys, g.surface)
  {
    SumOverUnion(a.Keys, b.Keys, g.surface);
    MergeHoleSurface(a, b, g.surface);
  }

  // ---------------------------------------------------------------- concatenate

  /** On every outer, a concatenation holds the other side's holes, or else this side's. */
  lemma ConcatenateInnerTotals(a: Rings, b: Rings, f: Polygon -> int)
    ensures SumOver(a.Keys + b.Keys, InnerTotal(a + b, f))
         == SumOver(b.Keys, InnerTotal(b, f)) + SumOver(a.Keys - b.Keys, InnerTotal(a - b.Keys, f))
  {
    var kept := a - b.Keys;
    var s := a.Keys + b.Keys;
    forall k | k in s
      ensures InnerTotal(a + b, f)(k) == InnerTotal(b, f)(k) + InnerTotal(kept, f)(k)
    {
      if k in b {
        assert ValuesFor(a + b, k) == ValuesFor(b, k);
        assert ValuesFor(kept, k) == [];
      } else {
        assert ValuesFor(a + b, k) == ValuesFor(kept, k);
        assert ValuesFor(b, k) == [];
      }
    }
    SumOverAdd(s, InnerTotal(b, f), InnerTotal(kept, f), InnerTotal(a + b, f));
    InnerTotalSupport(s, b, f);
    assert kept.Keys == a.Keys - b.Keys;
    InnerTotalSupport(s, kept, f);
  }

  /** A set sum splits into the part outside `t` and the part inside it. */
  lemma SumOverSplit(s: set<Polygon>, t: set<Polygon>, f: Polygon -> int)
    ensures SumOver(s, f) == SumOver(s - t, f) + SumOver(s * t, f)
  {
    SumOverUnion(s - t, s * t, f);
    assert (s - t) + (s * t) == s;
    assert (s - t) * (s * t) == {};
  }

  /**
   * Concatenation erases this side's holes of every outer the other side
   * also has, so its surface exceeds the merge's by exactly their surface.
   */
  lemma ConcatenateSurface(g: Kernel, a: Rings, b: Rings)
    ensures SurfaceOf(g, a + b)
         == SurfaceOf(g, Accumulated(a, b)) + SumOver(a.Keys * b.Keys, InnerTotal(a, g.surface))
  {
    var f := g.surface;
    assert (a + b).Keys == a.Keys + b.Keys;
    ConcatenateInnerTotals(a, b, f);
    forall k | k in a.Keys - b.Keys ensures InnerTotal(a - b.Keys, f)(k) == InnerTotal(a, f)(k) {
      assert ValuesFor(a - b.Keys, k) == ValuesFor(a, k);
    }
    SumOverCongruent(a.Keys - b.Keys, InnerTotal(a - b.Keys, f), InnerTotal(a, f));
    SumOverSplit(a.Keys, b.Keys, InnerTotal(a, f));
    MergeHoleSurface(a, b, f);
  }

  /** Concatenation never loses an enclosed location unless the other side's holes take it. */
  lemma ConcatenateKeepsEnclosed(g: Kernel, a: Rings, b: Rings, l: Location)
    requires Encloses(g, a, l) && !InsideSomeHole(g, b, l)
    ensures Encloses(g, a + b, l)
  {
  }

  // ---------------------------------------------------------------- iteration

  /** Summing over a flattened list is summing the per-outer totals. */
  lemma {:induction false} FlattenSum(m: Rings, keys: seq<Polygon>, f: Polygon -> int)
    ensures ListSum(Flatten(m, keys), f) == ListSum(keys, InnerTotal(m, f))
    decreases |keys|
  {
    if keys != [] {
      var n := |keys| - 1;
      FlattenSum(m, keys[..n], f);
      ListSumAppend(Flatten(m, keys[..n]), ValuesFor(m, keys[n]), f);
    }
  }

  /**
   * Summing along the iteration, whatever order the outers come in, gives
   * the order-free sums: over the outers, and over every hole.
   */
  lemma IterationSums(mp: MultiPolygon, f: Polygon -> int)
    ensures ListSum(mp.Iterator()[..|mp.outerToInners|], f) == SumOver(mp.outerToInners.Keys, f)
    ensures ListSum(mp.Inners(), f) == SumOver(mp.outerToInners.Keys, InnerTotal(mp.outerToInners, f))
    ensures ListSum(mp.Iterator(), f)
         == SumOver(mp.outerToInners.Keys, f) + SumOver(mp.outerToInners.Keys, InnerTotal(mp.outerToInners, f))
  {
    var m := mp.outerToInners;
    var it := mp.Iterator();
    var n := |m|;
    assert Elements(it[..n]) == m.Keys;
    SumOverList(it[..n], f);
    var outers := Enumerate(m.Keys);
    assert mp.Inners() == Flatten(m, outers);
    FlattenSum(m, outers, f);
    SumOverList(outers, InnerTotal(m, f));
    assert it == it[..n] + mp.Inners();
    ListSumAppend(it[..n], mp.Inners(), f);
  }

  /** The hash code is the wrapped sum of the hash codes met while iterating. */
  lemma HashCodeIsIterationSum(g: Kernel, mp: MultiPolygon)
    ensures HashOf(g, mp.outerToInners) == Wrap32(ListSum(mp.Iterator(), g.hash))
  {
    var m := mp.outerToInners;
    var total := SumOver(m.Keys, g.hash) + SumOver(m.Keys, InnerTotal(m, g.hash));
    assert HashOf(g, m) == Wrap32(total);
    IterationSums(mp, g.hash);
    assert ListSum(mp.Iterator(), g.hash) == total;
  }

  /** The surface is the outers' surfaces less the surfaces of the list of inners. */
  lemma SurfaceIsIterationSum(g: Kernel, mp: MultiPolygon)
    ensures SurfaceOf(g, mp.outerToInners)
         == MinimumSurface + ListSum(mp.Iterator()[..|mp.outerToInners|], g.surface) - ListSum(mp.Inners(), g.surface)
  {
    IterationSums(mp, g.surface);
  }

  /** Iteration meets exactly the outers and the holes. */
  lemma IteratorMembers(mp: MultiPolygon, p: Polygon)
    ensures p in mp.Iterator()
        <==> p in mp.outerToInners || exists o :: o in mp.outerToInners && p in mp.outerToInners[o]
  {
  }

  // ---------------------------------------------------------------- equality

  /** Equal as the source decides implies the same outers. */
  lemma EqualsSameOuters(a: Rings, b: Rings)
    requires EqualsAsWritten(a, b)
    ensures a.Keys == b.Keys
  {
    assert a.Keys <= b.Keys;
    assert |a.Keys| == |b.Keys|;
    SubsetOfSameSize(a.Keys, b.Keys);
  }

  /** Every pair with the same rings, holes counted with multiplicity, is equal as the source decides. */
  lemma SameRingsAreEqual(a: Rings, b: Rings)
    requires SameRings(a, b)
    ensures EqualsAsWritten(a, b)
  {
    assert |a| == |a.Keys| == |b.Keys| == |b|;
    forall o | o in a ensures InnersMatch(a, b, o) {
      assert |a[o]| == |multiset(a[o])| == |multiset(b[o])| == |b[o]|;
      forall i | i in a[o] ensures i in b[o] {
        assert i in multiset(a[o]);
      }
    }
  }

  /** No outer of `m` lists the same hole twice. */
  ghost predicate NoRepeatedHoles(m: Rings) {
    forall o :: o in m ==> Distinct(m[o])
  }

  /**
   * When the left side repeats no hole, the source's equality is exactly
   * "same outers, same holes per outer", and so it is symmetric.
   */
  lemma EqualsWithoutRepeats(a: Rings, b: Rings)
    requires NoRepeatedHoles(a)
    ensures EqualsAsWritten(a, b) <==> SameRings(a, b)
  {
    if EqualsAsWritten(a, b) {
      EqualsSameOuters(a, b);
      forall o | o in a ensures multiset(a[o]) == multiset(b[o]) {
        var xs, ys := a[o], b[o];
        assert InnersMatch(a, b, o);
        assert Elements(xs) <= Elements(ys);
        ElementsCount(xs);
        ElementsCount(ys);
        assert |Elements(xs)| <= |Elements(ys)| by {
          assert Elements(ys) == Elements(xs) + (Elements(ys) - Elements(xs));
        }
        assert Distinct(ys);
        forall x ensures multiset(xs)[x] == multiset(ys)[x] {
          DistinctMultiplicity(xs, x);
          DistinctMultiplicity(ys, x);
          assert x in xs <==> x in Elements(xs);
          assert x in ys <==> x in Elements(ys);
        }
      }
    }
    if SameRings(a, b) {
      SameRingsAreEqual(a, b);
    }
  }

  /** Having the same rings is an equivalence, unlike the source's equality. */
  lemma SameRingsIsEquivalence(a: Rings, b: Rings, c: Rings)
    ensures SameRings(a, a)
    ensures SameRings(a, b) ==> SameRings(b, a)
    ensures SameRings(a, b) && SameRings(b, c) ==> SameRings(a, c)
  {
  }

  /** With the same rings, the holes of both sides add up to the same total. */
  lemma SameRingsSameHoleTotal(a: Rings, b: Rings, f: Polygon -> int)
    requires SameRings(a, b)
    ensures SumOver(a.Keys, InnerTotal(a, f)) == SumOver(b.Keys, InnerTotal(b, f))
  {
    forall o | o in a.Keys ensures InnerTotal(a, f)(o) == InnerTotal(b, f)(o) {
      ListSumPermutation(a[o], b[o], f);
    }
    SumOverCongruent(a.Keys, InnerTotal(a, f), InnerTotal(b, f));
  }

  /** Multipolygons with the same rings have the same hash code and the same surface. */
  lemma SameRingsSameHashAndSurface(g: Kernel, a: Rings, b: Rings)
    requires SameRings(a, b)
    ensures HashOf(g, a) == HashOf(g, b)
    ensures SurfaceOf(g, a) == SurfaceOf(g, b)
  {
    SameRingsSameHoleTotal(a, b, g.surface);
    SameRingsSameHoleTotal(a, b, g.hash);
    assert HashTotal(g, a) == HashTotal(g, b);
  }

  /** Without repeated holes on the left, equal multipolygons have equal hash codes. */
  lemma EqualsWithoutRepeatsSameHash(g: Kernel, a: Rings, b: Rings)
    requires NoRepeatedHoles(a) && EqualsAsWritten(a, b)
    ensures HashOf(g, a) == HashOf(g, b)
  {
    EqualsWithoutRepeats(a, b);
    SameRingsSameHashAndSurface(g, a, b);
  }

  /**
   * A repeated hole breaks the source's equality: holes [h1, h1] equal holes
   * [h1, h2] one way round but not the other.
   */
  lemma RepeatedHoleBreaksSymmetry(outer: Polygon, h1: Polygon, h2: Polygon)
    requires h1 != h2
    ensures EqualsAsWritten(map[outer := [h1, h1]], map[outer := [h1, h2]])
    ensures !EqualsAsWritten(map[outer := [h1, h2]], map[outer := [h1, h1]])
  {
    var a, b := map[outer := [h1, h1]], map[outer := [h1, h2]];
    assert InnersMatch(a, b, outer);
    assert h2 in ValuesFor(b, outer) && h2 !in ValuesFor(a, outer);
  }

  /** ... and the two, equal one way round, have different hash codes when h1 and h2 do. */
  lemma RepeatedHoleBreaksHashCode(g: Kernel, outer: Polygon, h1: Polygon, h2: Polygon)
    requires h1 != h2
    requires 0 <= g.hash(outer) < 0x1000_0000 && 0 <= g.hash(h1) < 0x1000_0000 && 0 <= g.hash(h2) < 0x1000_0000
    requires g.hash(h1) != g.hash(h2)
    ensures EqualsAsWritten(map[outer := [h1, h1]], map[outer := [h1, h2]])
    ensures HashOf(g, map[outer := [h1, h1]]) != HashOf(g, map[outer := [h1, h2]])
  {
    var a, b := map[outer := [h1, h1]], map[outer := [h1, h2]];
    RepeatedHoleBreaksSymmetry(outer, h1, h2);
    assert a.Keys == {outer} && b.Keys == {outer};
    SumOverSingleton(outer, g.hash);
    SumOverSingleton(outer, InnerTotal(a, g.hash));
    SumOverSingleton(outer, InnerTotal(b, g.hash));
    assert [h1, h1][..1] == [h1] && [h1, h2][..1] == [h1] && [h1][..0] == [];
    assert ListSum([h1], g.hash) == g.hash(h1);
    assert InnerTotal(a, g.hash)(outer) == 2 * g.hash(h1);
    assert InnerTotal(b, g.hash)(outer) == g.hash(h1) + g.hash(h2);
    assert HashOf(g, a) == Wrap32(g.hash(outer) + 2 * g.hash(h1));
    assert HashOf(g, b) == Wrap32(g.hash(outer) + g.hash(h1) + g.hash(h2));
  }

  // ---------------------------------------------------------------- projection

  /** The projection hands every entry an empty map, where the role tag was meant to go. */
  lemma ProjectionDropsRoleTags(mp: MultiPolygon)
    requires |mp.outerToInners| > 0
    ensures mp.AsLocationIterableProperties()[0].properties == map[]
    ensures mp.AsTaggedLocationIterableProperties()[0].properties == OuterTags != map[]
  {
    assert "MultiPolygon" in OuterTags;
  }

  // ---------------------------------------------------------------- bounds

  /** The bounding box holds every location of every outer and every hole. */
  lemma BoundsHoldEveryRing(m: Rings, r: Rectangle, o: Polygon, l: Location)
    requires IsBoundingBox(r, RingLocations(m))
    requires o in m
    ensures l in o.points ==> Inside(r, l)
    ensures forall i :: i in m[o] && l in i.points ==> Inside(r, l)
  {
  }

  /**
   * When each polygon encloses only locations between its own extreme
   * points, no location outside the bounding box is enclosed.
   */
  lemma EnclosedLiesInBounds(g: Kernel, m: Rings, r: Rectangle, l: Location)
    requires EnclosesWithinHull(g)
    requires IsBoundingBox(r, RingLocations(m))
    requires Encloses(g, m, l)
    ensures Inside(r, l)
  {
    var o :| o in m && g.enclosesLocation(o, l);
    assert WithinHull(o, l);
    var a1 :| a1 in o.points && a1.latitude <= l.latitude;
    var a2 :| a2 in o.points && l.latitude <= a2.latitude;
    var a3 :| a3 in o.points && a3.longitude <= l.longitude;
    var a4 :| a4 in o.points && l.longitude <= a4.longitude;
    BoundsHoldEveryRing(m, r, o, a1);
    BoundsHoldEveryRing(m, r, o, a2);
    BoundsHoldEveryRing(m, r, o, a3);
    BoundsHoldEveryRing(m, r, o, a4);
  }
}
