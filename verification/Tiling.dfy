/** Tilings of the heap's zones by blocks, and the canonical form kept by merging. */
module Tiling {
  import opened Dyadic

  const MIN_ORDER: nat := 6
  const MAX_ORDER: nat := 30

  /** Zones are aligned to their own size, hold at least one block and do not overlap. */
  ghost predicate ZonesOk(zones: set<Block>) {
    && (forall z <- zones :: AlignedBlock(z) && MIN_ORDER <= z.order <= MAX_ORDER && z.addr > 0)
    && (forall y <- zones, z <- zones :: y != z ==> !Overlaps(y, z))
  }

  /** A block the allocator may form: aligned, no smaller than the minimum, inside one zone. */
  ghost predicate Formable(zones: set<Block>, b: Block) {
    AlignedBlock(b) && MIN_ORDER <= b.order && exists z <- zones :: Contains(z, b)
  }

  ghost predicate Covered(tiles: set<Block>, x: nat) {
    exists b <- tiles :: Within(x, b)
  }

  /** The tiles are pairwise disjoint formable blocks that cover exactly the zones. */
  ghost predicate Tiles(zones: set<Block>, tiles: set<Block>) {
    && (forall b <- tiles :: Formable(zones, b))
    && (forall b <- tiles, c <- tiles :: b != c ==> !Overlaps(b, c))
    && (forall x: nat :: Covered(zones, x) ==> Covered(tiles, x))
  }

  /** No two buddies of one zone are both free. */
  ghost predicate Merged(zones: set<Block>, free: set<Block>) {
    forall b <- free :: b !in zones && AlignedBlock(b) ==> Buddy(b) !in free
  }

  /** The heap invariant: free and live blocks tile the zones and no merge is pending. */
  ghost predicate Canonical(zones: set<Block>, free: set<Block>, live: set<Block>) {
    && ZonesOk(zones)
    && free !! live
    && Tiles(zones, free + live)
    && Merged(zones, free)
  }

  // ---- splitting and merging ---------------------------------------------------

  lemma FormableOrder(zones: set<Block>, b: Block, z: Block)
    requires ZonesOk(zones) && Formable(zones, b) && z in zones && Overlaps(z, b)
    ensures Contains(z, b) && b.order <= z.order
    ensures b.order == z.order ==> b == z
  {
    var y :| y in zones && Contains(y, b);
    assert Overlaps(y, z) by { assert b.addr < End(b); }
    OrderOfContained(y, b);
  }

  lemma OrderOfContained(outer: Block, inner: Block)
    requires Contains(outer, inner)
    ensures inner.order <= outer.order
    ensures inner.order == outer.order ==> inner == outer
  {
    if outer.order < inner.order { Pow2Mono(outer.order, inner.order); }
  }

  lemma CommonPoint(b: Block, c: Block) returns (x: nat)
    ensures Overlaps(b, c) ==> Within(x, b) && Within(x, c)
  {
    x := if b.addr <= c.addr then c.addr else b.addr;
  }

  lemma PointOverlaps(x: nat, b: Block, c: Block)
    requires Within(x, b) && Within(x, c)
    ensures Overlaps(b, c)
  {
  }

  /** Exchanging some tiles for others that cover the same bytes keeps the tiling. */
  lemma ReplaceTiles(zones: set<Block>, tiles: set<Block>, olds: set<Block>, news: set<Block>)
    requires Tiles(zones, tiles) && olds <= tiles
    requires forall n <- news :: Formable(zones, n)
    requires forall m <- news, n <- news :: m != n ==> !Overlaps(m, n)
    requires forall x: nat :: Covered(olds, x) <==> Covered(news, x)
    ensures Tiles(zones, tiles - olds + news)
  {
    hide Formable, Overlaps, Within;
    var tiles' := tiles - olds + news;
    forall n, c | n in news && c in tiles - olds ensures !Overlaps(n, c) && !Overlaps(c, n) {
      NewMeetsNoOther(tiles, olds, news, n, c);
      var x := CommonPoint(c, n);
      if Overlaps(c, n) { PointOverlaps(x, n, c); }
    }
    forall x: nat | Covered(zones, x) ensures Covered(tiles', x) {
      var b :| b in tiles && Within(x, b);
      if b in olds {
        assert Covered(olds, x);
        var n :| n in news && Within(x, n);
        assert n in tiles';
      } else {
        assert b in tiles';
      }
    }
  }

  lemma NewMeetsNoOther(tiles: set<Block>, olds: set<Block>, news: set<Block>, n: Block, c: Block)
    requires olds <= tiles && n in news && c in tiles - olds
    requires forall b <- tiles, c <- tiles :: b != c ==> !Overlaps(b, c)
    requires forall x: nat :: Covered(olds, x) <==> Covered(news, x)
    ensures !Overlaps(n, c)
  {
    hide Overlaps, Within;
    var x := CommonPoint(n, c);
    if Overlaps(n, c) {
      assert Covered(news, x);
      var o :| o in olds && Within(x, o);
      PointOverlaps(x, o, c);
    }
  }

  lemma HalvesCover(p: Block)
    requires AlignedBlock(p) && p.order > 0
    ensures forall x: nat :: Covered({p}, x) <==> Covered({Left(p), Right(p)}, x)
  {
    Halves(p);
    hide Aligned, Within;
    forall x: nat ensures Covered({p}, x) <==> Covered({Left(p), Right(p)}, x) {
      assert Within(x, p) <==> Within(x, Left(p)) || Within(x, Right(p));
      assert p in {p} && Left(p) in {Left(p), Right(p)} && Right(p) in {Left(p), Right(p)};
    }
  }

  lemma HalvesInside(p: Block)
    requires p.order > 0
    ensures Contains(p, Left(p)) && Contains(p, Right(p)) && Overlaps(p, Left(p)) && Overlaps(p, Right(p))
    ensures Left(p) != p && Right(p) != p
    ensures !Overlaps(Left(p), Right(p)) && !Overlaps(Right(p), Left(p))
  {
    assert Pow2(p.order) == 2 * Pow2(p.order - 1);
  }

  lemma InsideFormable(zones: set<Block>, p: Block, b: Block)
    requires Formable(zones, p) && Contains(p, b) && AlignedBlock(b) && MIN_ORDER <= b.order
    ensures Formable(zones, b)
  {
    hide Aligned, Pow2;
    var z :| z in zones && Contains(z, p);
    assert Contains(z, b);
  }

  /** Cutting one tile in half keeps the tiling. */
  lemma SplitTile(zones: set<Block>, tiles: set<Block>, p: Block)
    requires Tiles(zones, tiles) && p in tiles && p.order > MIN_ORDER
    ensures Tiles(zones, tiles - {p} + {Left(p), Right(p)})
    ensures Left(p) !in tiles && Right(p) !in tiles
  {
    Halves(p);
    HalvesInside(p);
    HalvesCover(p);
    hide Covered, Overlaps, Aligned, Contains;
    InsideFormable(zones, p, Left(p));
    InsideFormable(zones, p, Right(p));
    ReplaceTiles(zones, tiles, {p}, {Left(p), Right(p)});
  }

  /** Joining two buddies into their parent keeps the tiling. */
  lemma MergeTiles(zones: set<Block>, tiles: set<Block>, b: Block)
    requires Tiles(zones, tiles) && AlignedBlock(b) && b in tiles && Buddy(b) in tiles
    requires Formable(zones, Parent(b))
    ensures Tiles(zones, tiles - {b, Buddy(b)} + {Parent(b)})
    ensures Parent(b) !in tiles
  {
    BuddyParent(b);
    var p := Parent(b);
    Halves(p);
    HalvesInside(p);
    HalvesCover(p);
    hide Covered, Overlaps, Aligned, Formable;
    ReplaceTiles(zones, tiles, {b, Buddy(b)}, {p});
  }

  /** A block below its zone's order has its parent, and so its buddy, inside the zone. */
  lemma ParentInZone(zones: set<Block>, b: Block, z: Block)
    requires ZonesOk(zones) && Formable(zones, b) && z in zones && Contains(z, b)
    requires b.order < z.order
    ensures Contains(z, Parent(b)) && Contains(z, Buddy(b)) && Formable(zones, Parent(b))
  {
    BuddyParent(b);
    var p := Parent(b);
    assert Overlaps(p, z) by { assert Contains(p, b) && Contains(z, b) && b.addr < End(b); }
    Nested(p, z);
  }

  // ---- the free blocks are determined by the live ones ----------------------------

  /** No byte of `b` belongs to a live block. */
  ghost predicate Vacant(live: set<Block>, b: Block) {
    forall c <- live :: !Overlaps(c, b)
  }

  /** In canonical form every vacant formable block lies inside one free block. */
  lemma {:induction false} VacantInsideFree(zones: set<Block>, free: set<Block>, live: set<Block>, d: Block)
    returns (f: Block)
    requires Canonical(zones, free, live) && Formable(zones, d) && Vacant(live, d)
    ensures f in free && Contains(f, d)
    decreases d.order
  {
    var c := TileAt(zones, free + live, d);
    assert c in free;
    if c.order >= d.order {
      Nested(d, c);
      return c;
    }
    Halves(d);
    HalvesInside(d);
    VacantPart(live, d, Left(d));
    VacantPart(live, d, Right(d));
    hide Canonical, Vacant, Aligned, Overlaps, Contains;
    InsideFormable(zones, d, Left(d));
    InsideFormable(zones, d, Right(d));
    var f1 := VacantInsideFree(zones, free, live, Left(d));
    var f2 := VacantInsideFree(zones, free, live, Right(d));
    TwoHalvesFree(zones, free, live, d, f1, f2);
    f := f1;
  }

  lemma TileAt(zones: set<Block>, tiles: set<Block>, d: Block) returns (c: Block)
    requires Tiles(zones, tiles) && Formable(zones, d)
    ensures c in tiles && AlignedBlock(c) && MIN_ORDER <= c.order && Overlaps(c, d)
  {
    hide Aligned;
    var z :| z in zones && Contains(z, d);
    assert Within(d.addr, z) && Covered(zones, d.addr);
    c :| c in tiles && Within(d.addr, c);
  }

  lemma VacantPart(live: set<Block>, d: Block, part: Block)
    requires Vacant(live, d) && Contains(d, part)
    ensures Vacant(live, part)
  {
    hide Pow2;
    forall c | c in live ensures !Overlaps(c, part) { assert !Overlaps(c, d); }
  }

  lemma HalfIsNoZone(zones: set<Block>, d: Block)
    requires ZonesOk(zones) && Formable(zones, d) && d.order > MIN_ORDER
    ensures Left(d) !in zones
  {
    var z :| z in zones && Contains(z, d);
    OrderOfContained(z, d);
    Pow2Mono(d.order - 1, d.order);
    assert Overlaps(Left(d), z);
  }

  lemma TwoHalvesFree(zones: set<Block>, free: set<Block>, live: set<Block>, d: Block, f1: Block, f2: Block)
    requires Canonical(zones, free, live) && Formable(zones, d) && d.order > MIN_ORDER
    requires f1 in free && f2 in free && Contains(f1, Left(d)) && Contains(f2, Right(d))
    ensures Contains(f1, d)
  {
    Halves(d);
    OrderOfContained(f1, Left(d));
    OrderOfContained(f2, Right(d));
    HalfIsNoZone(zones, d);
    assert f1 in free + live && f2 in free + live;
    if f1.order >= d.order {
      Nested(d, f1);
    } else if f2.order >= d.order {
      Nested(d, f2);
      assert Overlaps(f1, f2);
    }
  }

  /** A maximal vacant block: it cannot be merged upwards without meeting a live block. */
  ghost predicate MaximalVacant(zones: set<Block>, live: set<Block>, b: Block) {
    && Formable(zones, b)
    && Vacant(live, b)
    && (b in zones || !Vacant(live, Parent(b)))
  }

  /** Canonical form: the free blocks are exactly the maximal vacant blocks. */
  lemma FreeIsMaximalVacant(zones: set<Block>, free: set<Block>, live: set<Block>, b: Block)
    requires Canonical(zones, free, live)
    ensures b in free <==> MaximalVacant(zones, live, b)
  {
    if b in free { FreeImpliesMaximal(zones, free, live, b); }
    if MaximalVacant(zones, live, b) { MaximalImpliesFree(zones, free, live, b); }
  }

  lemma FreeImpliesMaximal(zones: set<Block>, free: set<Block>, live: set<Block>, b: Block)
    requires Canonical(zones, free, live) && b in free
    ensures MaximalVacant(zones, live, b)
  {
    hide Aligned, Pow2;
    assert b in free + live;
    assert Vacant(live, b) by {
      forall c | c in live ensures !Overlaps(c, b) { assert c in free + live; }
    }
    if b !in zones && Vacant(live, Parent(b)) {
      var z :| z in zones && Contains(z, b);
      FormableBelowZone(zones, b, z);
      ParentInZone(zones, b, z);
      var f := VacantInsideFree(zones, free, live, Parent(b));
      BuddyParent(b);
      OrderOfContained(f, Parent(b));
      TwoTiles(zones, free + live, f, b, Parent(b));
      assert false;
    }
  }

  lemma TwoTiles(zones: set<Block>, tiles: set<Block>, f: Block, b: Block, p: Block)
    requires Tiles(zones, tiles) && f in tiles && b in tiles && Contains(f, p) && Contains(p, b)
    ensures f == b
  {
    assert Overlaps(f, b);
  }

  lemma MaximalImpliesFree(zones: set<Block>, free: set<Block>, live: set<Block>, b: Block)
    requires Canonical(zones, free, live) && MaximalVacant(zones, live, b)
    ensures b in free
  {
    hide Aligned, Pow2;
    var f := VacantInsideFree(zones, free, live, b);
    assert f in free + live;
    if f != b {
      StrictlyInside(f, b);
      FreeIsVacant(free, live, zones, f);
      VacantPart(live, f, Parent(b));
      ZoneHoldsNoLarger(zones, f, b);
      assert false;
    }
  }

  lemma FreeIsVacant(free: set<Block>, live: set<Block>, zones: set<Block>, f: Block)
    requires Tiles(zones, free + live) && free !! live && f in free
    ensures Vacant(live, f)
  {
    hide Overlaps, Formable;
    forall c | c in live ensures !Overlaps(c, f) { assert c in free + live && f in free + live; }
  }

  lemma ZoneHoldsNoLarger(zones: set<Block>, f: Block, b: Block)
    requires ZonesOk(zones) && Formable(zones, f) && Contains(f, b) && b.order < f.order
    ensures b !in zones
  {
    hide Aligned, Pow2;
    var z :| z in zones && Contains(z, f);
    OrderOfContained(z, f);
    if b in zones { OverlapInside(z, f, b); }
  }

  lemma OverlapInside(z: Block, f: Block, b: Block)
    requires Contains(z, f) && Contains(f, b)
    ensures Overlaps(z, b)
  {
  }

  lemma FormableBelowZone(zones: set<Block>, b: Block, z: Block)
    requires Formable(zones, b) && z in zones && Contains(z, b) && b !in zones
    ensures b.order < z.order
  {
    OrderOfContained(z, b);
  }

  lemma StrictlyInside(f: Block, b: Block)
    requires AlignedBlock(f) && AlignedBlock(b) && Contains(f, b) && f != b
    ensures b.order < f.order && Contains(f, Parent(b))
  {
    OrderOfContained(f, b);
    BuddyParent(b);
    assert Overlaps(Parent(b), f);
    Nested(Parent(b), f);
  }

  /** The free blocks are a function of the zones and the live blocks alone. */
  lemma FreeDeterminedByLive(zones: set<Block>, live: set<Block>, free1: set<Block>, free2: set<Block>)
    requires Canonical(zones, free1, live) && Canonical(zones, free2, live)
    ensures free1 == free2
  {
    forall b ensures b in free1 <==> b in free2 {
      FreeIsMaximalVacant(zones, free1, live, b);
      FreeIsMaximalVacant(zones, free2, live, b);
    }
  }

  /** With nothing live, the free blocks are exactly the zones, one full block each. */
  lemma AllFreed(zones: set<Block>, free: set<Block>)
    requires Canonical(zones, free, {})
    ensures free == zones
  {
    forall b ensures b in free <==> b in zones {
      FreeIsMaximalVacant(zones, free, {}, b);
      if b in zones { assert Contains(b, b); assert Formable(zones, b); }
    }
  }

  /** A block of order `k` can be carved out of some free block exactly when some
      aligned run of `2^k` bytes inside one zone is vacant. */
  lemma FitIffVacantRun(zones: set<Block>, free: set<Block>, live: set<Block>, k: nat)
    requires Canonical(zones, free, live) && MIN_ORDER <= k
    ensures (exists f <- free :: k <= f.order) <==>
            (exists a: nat :: Formable(zones, Block(a, k)) && Vacant(live, Block(a, k)))
  {
    if f :| f in free && k <= f.order {
      FreeIsMaximalVacant(zones, free, live, f);
      var b := Block(f.addr, k);
      AlignedDown(f.addr, f.order, k);
      Pow2Mono(k, f.order);
      assert Contains(f, b);
      assert Formable(zones, b) && Vacant(live, b);
    }
    if a: nat :| Formable(zones, Block(a, k)) && Vacant(live, Block(a, k)) {
      var f := VacantInsideFree(zones, free, live, Block(a, k));
      OrderOfContained(f, Block(a, k));
    }
  }
}
