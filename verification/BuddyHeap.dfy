/** The buddy allocator: intrusive free lists over power-of-two zones. */
module BuddyHeap {
  import opened Common
  import opened Dyadic
  import opened Tiling
  import opened ZoneCut

  const ORDER_COUNT: nat := MAX_ORDER - MIN_ORDER + 1
  const NODE_SIZE: nat := 8

  /** How `init` ends: ready, or stopped by one of its three assertions. */
  datatype InitResult = Ready | StartMisaligned | HeapTooSmall | TooManyZones

  datatype Layout = Layout(size: nat, align: nat)

  /** The bytes an allocation really asks for. */
  function Request(layout: Layout): nat { Max(layout.size, layout.align) }

  // ---- orders --------------------------------------------------------------------

  /** `o` is the smallest supported order whose block holds `size` bytes. */
  ghost predicate SmallestOrder(size: nat, o: nat) {
    && MIN_ORDER <= o <= MAX_ORDER
    && size <= Pow2(o)
    && (o == MIN_ORDER || Pow2(o - 1) < size)
  }

  lemma SmallestOrderUnique(size: nat, o: nat, o': nat)
    requires SmallestOrder(size, o) && SmallestOrder(size, o')
    ensures o == o'
  {
    if o < o' { Pow2Mono(o, o' - 1); }
    if o' < o { Pow2Mono(o', o - 1); }
  }

  lemma OrderRange(size: nat, o: nat)
    requires SmallestOrder(size, o)
    ensures MIN_ORDER <= o <= MAX_ORDER
  {
  }

  lemma NoOrderAbove(size: nat)
    requires size > 0x4000_0000
    ensures forall o :: !SmallestOrder(size, o)
  {
    Pow2Values();
    forall o: nat ensures !SmallestOrder(size, o) { Pow2MonoIf(o, MAX_ORDER); }
  }

  method OrderForSize(size: nat) returns (r: Option<nat>)
    ensures r.None? <==> size > 0x4000_0000
    ensures r.Some? ==> SmallestOrder(size, r.value)
  {
    hide Pow2;
    Pow2Values();
    var want := Max(size, NODE_SIZE);
    var order := MIN_ORDER;
    while Pow2(order) < want
      invariant MIN_ORDER <= order <= MAX_ORDER
      invariant order == MIN_ORDER || Pow2(order - 1) < size
      decreases MAX_ORDER - order
    {
      Pow2Mono(MIN_ORDER, order);
      if order == MAX_ORDER { return None; }
      order := order + 1;
    }
    Pow2Mono(order, MAX_ORDER);
    return Some(order);
  }

  /** The largest order whose blocks fit the size, or the smallest order if none do. */
  method LargestOrderFor(size: nat) returns (order: nat)
    ensures if size >= 64 then IsLargestOrder(size, order) else order == MIN_ORDER
  {
    Pow2Six();
    order := MIN_ORDER;
    while order < MAX_ORDER && Pow2(order + 1) <= size
      invariant MIN_ORDER <= order <= MAX_ORDER && (size >= 64 ==> Pow2(order) <= size) && (size < 64 ==> order == MIN_ORDER)
    {
      Pow2Mono(MIN_ORDER, order + 1);
      order := order + 1;
    }
  }

  // ---- buddy addresses -------------------------------------------------------------

  /** The address of a block's buddy relative to its zone, with the checks of the kernel. */
  function BuddyAddr(zone: Block, addr: nat, order: nat): Option<nat> {
    var blockSize, zoneSize := Pow2(order), Pow2(zone.order);
    if addr < zone.addr then None
    else
      var offset := addr - zone.addr;
      if offset >= zoneSize || offset % blockSize != 0 then None
      else
        var buddyOffset := Xor(offset, blockSize);
        if buddyOffset >= zoneSize then None else Some(zone.addr + buddyOffset)
  }

  /** For a block of the zone, that is the dyadic buddy below the zone's order, and no
      address at the zone's own order. */
  lemma BuddyAddrIsBuddy(zone: Block, b: Block)
    requires AlignedBlock(zone) && AlignedBlock(b) && Contains(zone, b)
    ensures BuddyAddr(zone, b.addr, b.order) ==
            if b.order < zone.order then Some(Buddy(b).addr) else None
  {
    hide Aligned, Xor;
    var k, offset := b.order, b.addr - zone.addr;
    OrderOfContained(zone, b);
    AlignedDown(zone.addr, zone.order, k);
    AlignedAdd(b.addr, zone.addr, k);
    AlignedMod(offset, k);
    XorPow2(offset, k);
    if k < zone.order {
      AlignedDown(zone.addr, zone.order, k + 1);
      OffsetAlignment(zone.addr, offset, k + 1);
      BuddyParent(b);
      assert Overlaps(Parent(b), zone);
      Nested(Parent(b), zone);
    } else {
      AlignedZero(k + 1);
    }
  }

  lemma OffsetAlignment(base: nat, offset: nat, k: nat)
    requires Aligned(base, k)
    ensures Aligned(base + offset, k) <==> Aligned(offset, k)
  {
    if Aligned(offset, k) { AlignedAdd(base, offset, k); }
    if Aligned(base + offset, k) { AlignedAdd(base + offset, base, k); }
  }

  // ---- canonical states ---------------------------------------------------------------

  lemma TakeFree(zones: set<Block>, free: set<Block>, live: set<Block>, b: Block)
    requires Canonical(zones, free, live) && b in free
    ensures b !in live && Canonical(zones, free - {b}, live + {b})
  {
    assert (free - {b}) + (live + {b}) == free + live;
  }

  lemma SplitLive(zones: set<Block>, free: set<Block>, live: set<Block>, p: Block)
    requires Canonical(zones, free, live) && p in live && p.order > MIN_ORDER
    ensures Left(p) !in live && Right(p) !in free && Right(p) !in live
    ensures Canonical(zones, free + {Right(p)}, live - {p} + {Left(p)})
  {
    var l, r := Left(p), Right(p);
    SplitTile(zones, free + live, p);
    assert p in free + live;
    Halves(p);
    assert (free + {r}) + (live - {p} + {l}) == (free + live) - {p} + {l, r};
    forall b | b in free + {r} && b !in zones && AlignedBlock(b) ensures Buddy(b) !in free + {r} {
      BuddyParent(b);
      assert Buddy(b) == r ==> b == l;
    }
  }

  lemma MergeLive(zones: set<Block>, free: set<Block>, live: set<Block>, b: Block, z: Block)
    requires Canonical(zones, free, live) && AlignedBlock(b) && b in live && Buddy(b) in free
    requires z in zones && Contains(z, b) && b.order < z.order
    ensures Parent(b) !in live
    ensures Canonical(zones, free - {Buddy(b)}, live - {b} + {Parent(b)})
  {
    assert b in free + live && Buddy(b) in free + live;
    ParentInZone(zones, b, z);
    MergeTiles(zones, free + live, b);
    assert (free - {Buddy(b)}) + (live - {b} + {Parent(b)}) == (free + live) - {b, Buddy(b)} + {Parent(b)};
  }

  lemma ReleaseLive(zones: set<Block>, free: set<Block>, live: set<Block>, b: Block)
    requires Canonical(zones, free, live) && AlignedBlock(b) && b in live
    requires b in zones || Buddy(b) !in free
    ensures Canonical(zones, free + {b}, live - {b})
  {
    assert (free + {b}) + (live - {b}) == free + live;
    forall c | c in free + {b} && c !in zones && AlignedBlock(c) ensures Buddy(c) !in free + {b} {
      BuddyParent(c);
      if Buddy(c) == b && c != b { assert Buddy(b) == c; TopBuddy(zones, free, live, b, c); }
    }
  }

  /** The buddy of a whole zone is never a block of the heap inside another zone's middle. */
  lemma TopBuddy(zones: set<Block>, free: set<Block>, live: set<Block>, b: Block, c: Block)
    requires Canonical(zones, free, live) && b in live && c in free && AlignedBlock(c) && Buddy(c) == b
    ensures b in zones ==> c in zones
  {
    assert c in free + live;
    if b in zones && c !in zones {
      var z :| z in zones && Contains(z, c);
      FormableBelowZone(zones, c, z);
      ParentInZone(zones, c, z);
      assert Overlaps(b, z);
    }
  }

  lemma FreshCanonical(zones: set<Block>)
    requires ZonesOk(zones)
    ensures Canonical(zones, zones, {})
  {
    assert forall z <- zones :: Contains(z, z);
    assert zones + {} == zones;
  }

  lemma NoFreeAbove(zones: set<Block>, free: set<Block>, live: set<Block>, top: nat)
    requires Canonical(zones, free, live) && forall z <- zones :: z.order <= top
    ensures forall f <- free :: f.order <= top
  {
    forall f | f in free ensures f.order <= top {
      assert f in free + live;
      var z :| z in zones && Contains(z, f);
      OrderOfContained(z, f);
    }
  }

  /** The half pushed by a split does not share its address with any free block. */
  lemma RightIsFresh(zones: set<Block>, free: set<Block>, live: set<Block>, p: Block)
    requires Canonical(zones, free, live) && p in live && p.order > MIN_ORDER
    ensures forall b <- free :: b.addr != Right(p).addr
  {
    Halves(p);
    forall b | b in free ensures b.addr != Right(p).addr {
      assert b in free + live && p in free + live && !Overlaps(b, p);
    }
  }

  /** Some vacant block of a zone is large enough for the size and for the alignment. */
  ghost predicate RunVacant(zones: set<Block>, live: set<Block>, layout: Layout) {
    exists b :: Formable(zones, b) && Vacant(live, b) && layout.size <= Pow2(b.order) && layout.align <= Pow2(b.order)
  }

  /** `o` is the least supported order whose block is large enough for the size and for the alignment. */
  ghost predicate LeastFor(layout: Layout, o: nat) {
    && MIN_ORDER <= o <= MAX_ORDER && layout.size <= Pow2(o) && layout.align <= Pow2(o)
    && forall k :: MIN_ORDER <= k < o ==> Pow2(k) < layout.size || Pow2(k) < layout.align
  }

  /** The start of the smallest maximal vacant block that can hold `b` is handed out: nothing larger is broken up. */
  ghost predicate BestFit(zones: set<Block>, live: set<Block>, b: Block) {
    exists f ::
      && MaximalVacant(zones, live, f) && f.addr == b.addr && b.order <= f.order
      && forall g :: MaximalVacant(zones, live, g) && b.order <= g.order ==> f.order <= g.order
  }

  /** `ptr` starts a new live block for the layout. */
  ghost predicate Granted(zones: set<Block>, before: set<Block>, after: set<Block>, ptr: nat, layout: Layout) {
    exists o ::
      && LeastFor(layout, o)
      && Formable(zones, Block(ptr, o))
      && Vacant(before, Block(ptr, o))
      && BestFit(zones, before, Block(ptr, o))
      && after == before + {Block(ptr, o)}
  }

  /** The larger of size and alignment decides. */
  lemma SmallestIsLeast(layout: Layout, o: nat)
    ensures SmallestOrder(Request(layout), o) <==> LeastFor(layout, o)
  {
    hide Pow2;
    if SmallestOrder(Request(layout), o) {
      forall k | MIN_ORDER <= k < o ensures Pow2(k) < layout.size || Pow2(k) < layout.align { Pow2Mono(k, o - 1); }
    }
    if LeastFor(layout, o) && o > MIN_ORDER { assert Pow2(o - 1) < layout.size || Pow2(o - 1) < layout.align; }
  }

  lemma RunVacantIffFit(zones: set<Block>, free: set<Block>, live: set<Block>, layout: Layout, order: nat)
    requires Canonical(zones, free, live) && SmallestOrder(Request(layout), order)
    ensures RunVacant(zones, live, layout) <==> exists f <- free :: order <= f.order
  {
    hide Canonical, Formable, Vacant, Pow2, Contains;
    if f :| f in free && order <= f.order {
      FreeIsMaximalVacant(zones, free, live, f);
      Pow2Mono(order, f.order);
    }
    if RunVacant(zones, live, layout) {
      var b :| Formable(zones, b) && Vacant(live, b) && layout.size <= Pow2(b.order) && layout.align <= Pow2(b.order);
      var f := VacantInsideFree(zones, free, live, b);
      OrderOfContained(f, b);
      FormableSmall(zones, b);
      if f.order < order { Pow2Mono(f.order, order - 1); Pow2Mono(b.order, f.order); }
    }
  }

  lemma FormableSmall(zones: set<Block>, b: Block)
    requires Formable(zones, b)
    ensures MIN_ORDER <= b.order
  {
  }

  /** No zone is larger than 1 GiB. */
  lemma TooLarge(zones: set<Block>, live: set<Block>, layout: Layout)
    requires ZonesOk(zones) && Request(layout) > 0x4000_0000
    ensures !RunVacant(zones, live, layout)
  {
    hide Pow2, Aligned;
    Pow2Values();
    forall b: Block | Formable(zones, b) ensures Pow2(b.order) <= 0x4000_0000 {
      var z :| z in zones && Contains(z, b);
      OrderOfContained(z, b);
      Pow2Mono(b.order, MAX_ORDER);
    }
  }

  /** A list head of the least order that suffices. */
  ghost predicate LeastFree(lists: seq<seq<nat>>, free: set<Block>, b: Block) {
    exists f <- free ::
      && f.addr == b.addr && b.order <= f.order && Heads(lists, f)
      && forall g <- free :: b.order <= g.order ==> f.order <= g.order
  }

  ghost predicate Heads(lists: seq<seq<nat>>, f: Block) {
    MIN_ORDER <= f.order < MIN_ORDER + |lists| && lists[f.order - MIN_ORDER] != [] && lists[f.order - MIN_ORDER][0] == f.addr
  }

  lemma LeastIsBest(zones: set<Block>, lists: seq<seq<nat>>, free: set<Block>, live: set<Block>, b: Block)
    requires Canonical(zones, free, live) && LeastFree(lists, free, b)
    ensures BestFit(zones, live, b)
  {
    hide Canonical, MaximalVacant, Heads;
    var f :| f in free && f.addr == b.addr && b.order <= f.order && forall g <- free :: b.order <= g.order ==> f.order <= g.order;
    FreeIsMaximalVacant(zones, free, live, f);
    forall g | MaximalVacant(zones, live, g) && b.order <= g.order ensures f.order <= g.order {
      FreeIsMaximalVacant(zones, free, live, g);
    }
  }

  lemma ZonesOf(zones: set<Block>, free: set<Block>, live: set<Block>)
    requires Canonical(zones, free, live)
    ensures ZonesOk(zones)
  {
  }

  lemma NewBlockVacant(zones: set<Block>, free: set<Block>, live: set<Block>, before: set<Block>, b: Block)
    requires Canonical(zones, free, live) && live == before + {b} && b !in before
    ensures Formable(zones, b) && Vacant(before, b) && b.addr > 0
  {
    assert b in free + live;
    forall c | c in before ensures !Overlaps(c, b) { assert c in free + live; }
  }

  lemma LiveBlock(zones: set<Block>, free: set<Block>, live: set<Block>, b: Block)
    requires Canonical(zones, free, live) && b in live
    ensures AlignedBlock(b) && Covered(zones, b.addr)
  {
    assert b in free + live;
    var z :| z in zones && Contains(z, b);
    assert Within(b.addr, z);
  }

  lemma LiveTiles(zones: set<Block>, free: set<Block>, live: set<Block>, b: Block)
    requires Canonical(zones, free, live) && b in live
    ensures ZonesOk(zones) && Tiles(zones, free + live) && Formable(zones, b) && b.addr > 0
    ensures b !in free && forall f <- free :: f.addr != b.addr
    ensures free !! live
  {
    assert b in free + live;
    forall f | f in free ensures f.addr != b.addr { assert f in free + live && !Overlaps(f, b); }
  }

  lemma LiveInZone(zones: set<Block>, free: set<Block>, live: set<Block>, b: Block, z: Block)
    requires Canonical(zones, free, live) && b in live && z in zones && Within(b.addr, z)
    ensures Contains(z, b) && b.order <= z.order <= MAX_ORDER && (b.order == z.order ==> b == z) && AlignedBlock(z)
  {
    assert b in free + live;
    FormableOrder(zones, b, z);
  }

  // ---- memory ---------------------------------------------------------------------------

  /** No 8-byte word that touches a block of `blocks` differs between two memories. */
  ghost predicate WordsKept(m: map<nat, nat>, m': map<nat, nat>, blocks: set<Block>) {
    forall a: nat, b :: b in blocks && b.addr < a + NODE_SIZE && a < End(b) ==> SameWord(m, m', a)
  }

  ghost predicate SameWord(m: map<nat, nat>, m': map<nat, nat>, a: nat) {
    (a in m <==> a in m') && (a in m ==> m[a] == m'[a])
  }

  lemma WordsKeptRefl(m: map<nat, nat>, blocks: set<Block>)
    ensures WordsKept(m, m, blocks)
  {
  }

  lemma WordsKeptTrans(m0: map<nat, nat>, m1: map<nat, nat>, m2: map<nat, nat>, blocks: set<Block>)
    requires WordsKept(m0, m1, blocks) && WordsKept(m1, m2, blocks)
    ensures WordsKept(m0, m2, blocks)
  {
    forall a: nat, b | b in blocks && b.addr < a + NODE_SIZE && a < End(b) ensures SameWord(m0, m2, a) {
      assert SameWord(m0, m1, a) && SameWord(m1, m2, a);
    }
  }

  /** Two memories differ at most at the base addresses of `blocks`. */
  ghost predicate OnlyAtBases(m: map<nat, nat>, m': map<nat, nat>, blocks: set<Block>) {
    forall a: nat :: SameWord(m, m', a) || exists b <- blocks :: b.addr == a
  }

  /** Writing at the bases of some tiles touches no other tile. */
  lemma WriteInsideTiles(zones: set<Block>, tiles: set<Block>, ts: set<Block>, m: map<nat, nat>, m': map<nat, nat>)
    requires Tiles(zones, tiles) && ts <= tiles && OnlyAtBases(m, m', ts)
    ensures WordsKept(m, m', tiles - ts)
  {
    forall a: nat, b | b in tiles - ts && b.addr < a + NODE_SIZE && a < End(b) ensures SameWord(m, m', a) {
      if t :| t in ts && t.addr == a {
        assert !Overlaps(t, b);
        Pow2Six();
        Pow2Mono(MIN_ORDER, t.order);
      }
    }
  }

  /** The `i`-th address of a list, or null past its end. */
  function At(l: seq<nat>, i: nat): nat { if i < |l| then l[i] else 0 }

  /** The word at the `i`-th address holds the next address. */
  ghost predicate LinkAt(m: map<nat, nat>, l: seq<nat>, i: nat)
    requires i < |l|
  {
    l[i] != 0 && l[i] in m && m[l[i]] == At(l, i + 1)
  }

  /** The words in memory link the addresses of `l` from `head` to null. */
  ghost predicate Chain(m: map<nat, nat>, head: nat, l: seq<nat>) {
    head == At(l, 0) && Distinct(l) && forall i :: 0 <= i < |l| ==> LinkAt(m, l, i)
  }

  function Index(order: nat): nat
    requires MIN_ORDER <= order <= MAX_ORDER
  {
    order - MIN_ORDER
  }

  /** A chain depends on the words at its own addresses only. */
  lemma ChainSame(m: map<nat, nat>, m': map<nat, nat>, head: nat, l: seq<nat>)
    requires Chain(m, head, l) && forall a <- l :: SameWord(m, m', a)
    ensures Chain(m', head, l)
  {
    forall i | 0 <= i < |l| ensures LinkAt(m', l, i) { assert LinkAt(m, l, i) && l[i] in l; }
  }

  /** Every order's list is linked through memory. */
  ghost predicate Linked(m: map<nat, nat>, heads: seq<nat>, lists: seq<seq<nat>>) {
    |heads| == |lists| == ORDER_COUNT && forall k :: 0 <= k < ORDER_COUNT ==> Chain(m, heads[k], lists[k])
  }

  /** The block is on its order's list. */
  ghost predicate Listed(lists: seq<seq<nat>>, b: Block)
    requires |lists| == ORDER_COUNT
  {
    MIN_ORDER <= b.order <= MAX_ORDER && b.addr in lists[Index(b.order)]
  }

  ghost predicate OneEach(free: set<Block>) {
    forall b <- free, c <- free :: b.addr == c.addr ==> b == c
  }

  /** The lists hold exactly the blocks of `free`, each address once. */
  ghost predicate Holds(lists: seq<seq<nat>>, free: set<Block>) {
    |lists| == ORDER_COUNT && OneEach(free) && forall b :: b in free <==> Listed(lists, b)
  }

  lemma EmptyLists(m: map<nat, nat>)
    ensures var lists: seq<seq<nat>> := seq(ORDER_COUNT, i => []);
            Holds(lists, {}) && Linked(m, seq(ORDER_COUNT, i => 0), lists)
  {
  }

  lemma ListedIffFree(lists: seq<seq<nat>>, free: set<Block>, order: nat, a: nat)
    requires Holds(lists, free) && MIN_ORDER <= order <= MAX_ORDER
    ensures a in lists[Index(order)] <==> Block(a, order) in free
  {
    assert Listed(lists, Block(a, order)) <==> a in lists[Index(order)];
  }

  lemma OneList(lists: seq<seq<nat>>, free: set<Block>, i: nat, k: nat, a: nat)
    requires Holds(lists, free) && i < ORDER_COUNT && k < ORDER_COUNT && i != k
    ensures !(a in lists[i] && a in lists[k])
  {
    ListedIffFree(lists, free, i + MIN_ORDER, a);
    ListedIffFree(lists, free, k + MIN_ORDER, a);
  }

  lemma PushLinked(m: map<nat, nat>, heads: seq<nat>, lists: seq<seq<nat>>, addr: nat, i: nat)
    requires Linked(m, heads, lists) && i < ORDER_COUNT && addr > 0
    requires forall k :: 0 <= k < ORDER_COUNT ==> addr !in lists[k]
    ensures Linked(m[addr := heads[i]], heads[i := addr], lists[i := [addr] + lists[i]])
  {
    hide Chain;
    PushChain(m, heads[i], lists[i], addr);
    forall k | 0 <= k < ORDER_COUNT && k != i ensures Chain(m[addr := heads[i]], heads[k], lists[k]) {
      ChainFrame(m, heads[k], lists[k], addr, heads[i]);
    }
  }

  lemma PushChain(m: map<nat, nat>, head: nat, l: seq<nat>, addr: nat)
    requires Chain(m, head, l) && addr !in l && addr > 0
    ensures Chain(m[addr := head], addr, [addr] + l)
  {
    var m', l' := m[addr := head], [addr] + l;
    forall i | 0 <= i < |l'| ensures LinkAt(m', l', i) {
      if i > 0 { assert LinkAt(m, l, i - 1); }
    }
  }

  lemma ChainFrame(m: map<nat, nat>, head: nat, l: seq<nat>, a: nat, v: nat)
    requires Chain(m, head, l) && a !in l
    ensures Chain(m[a := v], head, l)
  {
    var m' := m[a := v];
    forall i | 0 <= i < |l| ensures LinkAt(m', l, i) { assert LinkAt(m, l, i); }
  }

  lemma PushHolds(lists: seq<seq<nat>>, free: set<Block>, addr: nat, order: nat)
    requires Holds(lists, free) && MIN_ORDER <= order <= MAX_ORDER
    requires forall b <- free :: b.addr != addr
    ensures Holds(lists[Index(order) := [addr] + lists[Index(order)]], free + {Block(addr, order)})
    ensures forall k :: 0 <= k < ORDER_COUNT ==> addr !in lists[k]
  {
    var lists', n := lists[Index(order) := [addr] + lists[Index(order)]], Block(addr, order);
    forall b ensures b in free + {n} <==> Listed(lists', b) {
      assert Listed(lists', b) <==> Listed(lists, b) || b == n;
    }
    forall k | 0 <= k < ORDER_COUNT ensures addr !in lists[k] {
      ListedIffFree(lists, free, k + MIN_ORDER, addr);
    }
  }

  /** Memory and heads after unlinking position `j` of list `i`: the predecessor, or the
      head, skips it. */
  ghost predicate Unlinks(m: map<nat, nat>, m': map<nat, nat>, heads: seq<nat>, heads': seq<nat>,
                          l: seq<nat>, i: nat, j: nat)
    requires i < |heads| && j < |l|
  {
    if j == 0 then m' == m && heads' == heads[i := At(l, 1)]
    else heads' == heads && m' == m[l[j - 1] := At(l, j + 1)]
  }

  function Without(l: seq<nat>, j: nat): seq<nat>
    requires j < |l|
  {
    l[..j] + l[j + 1..]
  }

  lemma UnlinkLinked(m: map<nat, nat>, m': map<nat, nat>, heads: seq<nat>, heads': seq<nat>,
                     lists: seq<seq<nat>>, free: set<Block>, i: nat, j: nat)
    requires Linked(m, heads, lists) && Holds(lists, free) && i < ORDER_COUNT && j < |lists[i]|
    requires Unlinks(m, m', heads, heads', lists[i], i, j)
    ensures Linked(m', heads', lists[i := Without(lists[i], j)])
  {
    hide Chain, Holds;
    var l := lists[i];
    if j == 0 { UnlinkFirst(m, heads[i], l); } else { UnlinkInner(m, heads[i], l, j); }
    forall k | 0 <= k < ORDER_COUNT && k != i ensures Chain(m', heads'[k], lists[k]) {
      if j > 0 {
        OneList(lists, free, i, k, l[j - 1]);
        ChainFrame(m, heads[k], lists[k], l[j - 1], At(l, j + 1));
      }
    }
  }

  lemma UnlinkFirst(m: map<nat, nat>, head: nat, l: seq<nat>)
    requires Chain(m, head, l) && l != []
    ensures Chain(m, At(l, 1), Without(l, 0))
  {
    var l' := Without(l, 0);
    assert l' == l[1..];
    forall n | 0 <= n < |l'| ensures LinkAt(m, l', n) { assert LinkAt(m, l, n + 1); }
  }

  lemma UnlinkInner(m: map<nat, nat>, head: nat, l: seq<nat>, j: nat)
    requires Chain(m, head, l) && 0 < j < |l|
    ensures Chain(m[l[j - 1] := At(l, j + 1)], head, Without(l, j))
  {
    var m', l' := m[l[j - 1] := At(l, j + 1)], Without(l, j);
    forall n | 0 <= n < |l'| ensures LinkAt(m', l', n) {
      if n < j { assert LinkAt(m, l, n); } else { assert LinkAt(m, l, n + 1); }
    }
    WithoutDistinct(l, j);
  }

  lemma WithoutDistinct(l: seq<nat>, j: nat)
    requires j < |l| && Distinct(l)
    ensures Distinct(Without(l, j))
  {
    var l' := Without(l, j);
    assert forall n :: 0 <= n < j ==> l'[n] == l[n];
    assert forall n :: j <= n < |l'| ==> l'[n] == l[n + 1];
  }

  lemma UnlinkHolds(lists: seq<seq<nat>>, free: set<Block>, order: nat, j: nat)
    requires Holds(lists, free) && MIN_ORDER <= order <= MAX_ORDER && j < |lists[Index(order)]|
    requires Distinct(lists[Index(order)])
    ensures var l := lists[Index(order)];
            Block(l[j], order) in free
            && Holds(lists[Index(order) := Without(l, j)], free - {Block(l[j], order)})
  {
    var l := lists[Index(order)];
    var lists', n := lists[Index(order) := Without(l, j)], Block(l[j], order);
    UnlinkMembers(l, j);
    ListedIffFree(lists, free, order, l[j]);
    forall b ensures b in free - {n} <==> Listed(lists', b) {
      assert Listed(lists', b) <==> Listed(lists, b) && b != n;
    }
  }

  /** What the head of a linked list says. */
  lemma ChainHead(m: map<nat, nat>, head: nat, l: seq<nat>)
    requires Chain(m, head, l)
    ensures head == 0 <==> l == []
    ensures l != [] ==> head == l[0] && head in m && m[head] == At(l, 1)
    ensures Distinct(l)
  {
    if l != [] { assert LinkAt(m, l, 0); }
  }

  /** What the `j`-th word of a linked list says. */
  lemma ChainAt(m: map<nat, nat>, head: nat, l: seq<nat>, j: nat)
    requires Chain(m, head, l)
    ensures At(l, j) == 0 <==> j >= |l|
    ensures j < |l| ==> l[j] != 0 && l[j] in m && m[l[j]] == At(l, j + 1)
    ensures Distinct(l)
  {
    if j < |l| { assert LinkAt(m, l, j); }
  }

  lemma NotBefore(l: seq<nat>, j: nat, a: nat)
    requires j <= |l| && a !in l[..j] && (j < |l| ==> l[j] != a)
    ensures j < |l| ==> a !in l[..j + 1]
    ensures j == |l| ==> a !in l
  {
    if j < |l| { assert l[..j + 1] == l[..j] + [l[j]]; } else { assert l[..j] == l; }
  }

  lemma UnlinkMembers(l: seq<nat>, j: nat)
    requires j < |l| && Distinct(l)
    ensures forall a :: a in Without(l, j) <==> a in l && a != l[j]
  {
    var l' := Without(l, j);
    forall a | a in l && a != l[j] ensures a in l' {
      var n :| 0 <= n < |l| && l[n] == a;
      assert l'[if n < j then n else n - 1] == a;
    }
  }

  // ---- the allocator -------------------------------------------------------------------

  class BuddyAllocator {
    var maxOrder: nat
    var freeLists: seq<nat>      // the head of each order's list; 0 is the null pointer
    var zones: seq<Block>        // the zones laid out so far, at most MAX_ZONES
    var initialized: bool
    var memory: map<nat, nat>    // the words of the heap, by address

    ghost var lists: seq<seq<nat>>
    ghost var free: set<Block>
    ghost var live: set<Block>

    /** The free lists are sound and hold exactly the free blocks. */
    ghost predicate Threaded()
      reads this
    {
      Linked(memory, freeLists, lists) && Holds(lists, free)
    }

    ghost predicate Valid()
      reads this
    {
      initialized ==>
        && Threaded()
        && Canonical(Elems(zones), free, live)
        && maxOrder <= MAX_ORDER
        && (forall z <- zones :: z.order <= maxOrder)
    }

    constructor ()
      ensures Valid() && !initialized && live == {}
    {
      maxOrder, initialized := MIN_ORDER, false;
      freeLists, zones := seq(ORDER_COUNT, i => 0), [];
      memory := map[];
      lists, free, live := seq(ORDER_COUNT, i => []), {}, {};
    }

    /** Lays the heap out in zones. The zone assertion stops it exactly when the heap needs more
        than `MAX_ZONES` of them, which `ZoneCount` computes from the range alone. */
    method Init(start: nat, size: nat) returns (r: InitResult)
      requires start > 0
      modifies this
      ensures r == if start % 64 != 0 then StartMisaligned
                   else if size < 64 then HeapTooSmall
                   else if ZoneCount(start, size) > MAX_ZONES then TooManyZones
                   else Ready
      ensures r.Ready? ==> Valid() && initialized && Greedy(zones, start, size)
      ensures r.Ready? ==> live == {} && free == Elems(zones)
    {
      hide Canonical, Linked, Holds, Greedy, Aligned, ZoneCount;
      Pow2Six();
      AlignedMod(start, MIN_ORDER);
      if start % Pow2(MIN_ORDER) != 0 {
        return StartMisaligned;
      }
      if size < Pow2(MIN_ORDER) {
        return HeapTooSmall;
      }
      freeLists, zones, maxOrder := seq(ORDER_COUNT, i => 0), [], MIN_ORDER;
      lists, free, live := seq(ORDER_COUNT, i => []), {}, {};
      EmptyLists(memory);
      ghost var plan := GreedyExists(start, size);
      HeapZonesCount(plan, start, size);
      var ok := LayZones(start, size, plan);
      if !ok {
        return TooManyZones;
      }
      HeapZonesCover(zones, start, size);
      FreshCanonical(Elems(zones));
      initialized := true;
      return Ready;
    }

    /** The layout loop; `plan` is the greedy decomposition it is bound to follow. */
    method LayZones(start: nat, size: nat, ghost plan: seq<Block>) returns (ok: bool)
      requires start > 0 && Aligned(start, MIN_ORDER) && Greedy(plan, start, size) && size >= 64
      requires Threaded() && zones == [] && free == {} && maxOrder == MIN_ORDER
      modifies this`memory, this`freeLists, this`lists, this`free, this`zones, this`maxOrder
      ensures ok <==> |plan| <= MAX_ZONES
      ensures ok ==> Threaded() && zones == plan && free == Elems(plan)
      ensures ok ==> maxOrder <= MAX_ORDER && forall z <- zones :: z.order <= maxOrder
    {
      hide Linked, Holds, Greedy, Aligned;
      var heapMaxOrder := LargestOrderFor(size);
      heapMaxOrder := Min(heapMaxOrder, MAX_ORDER);
      var addr: nat, remaining: nat := start, size;
      ghost var i: nat := 0;
      assert plan[0..] == plan;
      while remaining >= 64
        invariant 0 <= i <= |plan| && i <= MAX_ZONES && zones == plan[..i] && Greedy(plan[i..], addr, remaining)
        invariant start <= addr && remaining <= size && Aligned(addr, MIN_ORDER)
        invariant Threaded() && free == Elems(zones)
        invariant forall z <- zones :: End(z) <= addr && z.order <= maxOrder
        invariant MIN_ORDER <= maxOrder <= MAX_ORDER
        decreases |plan| - i
      {
        var order := ZoneOrder(addr, remaining, size, heapMaxOrder);
        GreedyNext(plan[i..], addr, remaining, order);
        if |zones| >= MAX_ZONES {
          return false;
        }
        assert plan[i..][1..] == plan[i + 1..] && plan[i] == plan[i..][0];
        zones := zones + [Block(addr, order)];
        maxOrder := Max(maxOrder, order);
        PushFreeBlock(addr, order);
        addr, remaining := addr + Pow2(order), remaining - Pow2(order);
        i := i + 1;
        assert Elems(zones) == Elems(plan[..i - 1]) + {Block(plan[i - 1].addr, order)};
      }
      GreedyEnd(plan[i..], addr, remaining);
      return true;
    }

    /** The largest order that fits at `addr`, found by stepping down. */
    method ZoneOrder(addr: nat, remaining: nat, size: nat, heapMaxOrder: nat) returns (order: nat)
      requires Aligned(addr, MIN_ORDER) && 64 <= remaining <= size && IsLargestOrder(size, heapMaxOrder)
      ensures LargestFit(addr, remaining, order)
    {
      hide Aligned;
      order := LargestOrderFor(remaining);
      forall j: nat | order < j ensures !Fits(addr, remaining, j) {
        Pow2MonoIf(order + 1, j);
      }
      LargestOrderBounds(size, heapMaxOrder, order);
      order := Min(heapMaxOrder, order);
      Pow2Six();
      while order > MIN_ORDER && (Pow2(order) > remaining || addr % Pow2(order) != 0)
        invariant MIN_ORDER <= order <= MAX_ORDER
        invariant forall j :: order < j ==> !Fits(addr, remaining, j)
      {
        AlignedMod(addr, order);
        order := order - 1;
      }
      AlignedMod(addr, order);
    }

    method PushFreeBlock(addr: nat, order: nat)
      requires Threaded() && MIN_ORDER <= order <= MAX_ORDER && addr > 0
      requires forall b <- free :: b.addr != addr
      modifies this`memory, this`freeLists, this`lists, this`free
      ensures Threaded()
      ensures free == old(free) + {Block(addr, order)}
      ensures memory == old(memory)[addr := old(freeLists)[Index(order)]]
      ensures lists == old(lists)[Index(order) := [addr] + old(lists)[Index(order)]]
    {
      var index := Index(order);
      PushHolds(lists, free, addr, order);
      PushLinked(memory, freeLists, lists, addr, index);
      memory := memory[addr := freeLists[index]];
      freeLists := freeLists[index := addr];
      lists := lists[index := [addr] + lists[index]];
      free := free + {Block(addr, order)};
    }

    method PopFreeBlock(order: nat) returns (r: Option<nat>)
      requires Threaded() && MIN_ORDER <= order <= MAX_ORDER
      modifies this`freeLists, this`lists, this`free
      ensures Threaded()
      ensures r.None? ==> free == old(free) && forall b <- free :: b.order != order
      ensures r.Some? ==> Block(r.value, order) in old(free) && free == old(free) - {Block(r.value, order)}
      // the block freed last comes first
      ensures r.None? ==> lists == old(lists)
      ensures r.Some? ==> Heads(old(lists), Block(r.value, order)) && lists == old(lists)[Index(order) := old(lists)[Index(order)][1..]]
    {
      hide Holds, Chain;
      var index := Index(order);
      var node := freeLists[index];
      ChainHead(memory, node, lists[index]);
      if node == 0 {
        forall b | b in free ensures b.order != order { ListedIffFree(lists, free, order, b.addr); }
        return None;
      }
      UnlinkLinked(memory, memory, freeLists, freeLists[index := memory[node]], lists, free, index, 0);
      UnlinkHolds(lists, free, order, 0);
      freeLists := freeLists[index := memory[node]];
      assert Without(lists[index], 0) == lists[index][1..];
      lists := lists[index := Without(lists[index], 0)];
      free := free - {Block(node, order)};
      return Some(node);
    }

    method RemoveFreeBlock(addr: nat, order: nat) returns (found: bool)
      requires Threaded() && MIN_ORDER <= order <= MAX_ORDER
      modifies this`memory, this`freeLists, this`lists, this`free
      ensures Threaded()
      ensures found <==> Block(addr, order) in old(free)
      ensures free == old(free) - {Block(addr, order)}
      ensures OnlyAtBases(old(memory), memory, free)
    {
      hide Holds, Chain;
      var index := Index(order);
      ghost var l := lists[index];
      ghost var j: nat := 0;
      var prev, current := 0, freeLists[index];
      ListedIffFree(lists, free, order, addr);
      ChainHead(memory, current, l);
      while current != 0 && current != addr
        invariant j <= |l| && current == At(l, j) && addr !in l[..j]
        invariant prev == if j == 0 then 0 else l[j - 1]
        invariant unchanged(this)
        decreases |l| - j
      {
        ChainAt(memory, freeLists[index], l, j);
        NotBefore(l, j, addr);
        prev, current := current, memory[current];
        j := j + 1;
      }
      ChainAt(memory, freeLists[index], l, j);
      if current == 0 {
        NotBefore(l, j, addr);
        return false;
      }
      Unlink(prev, current, order, j);
      return true;
    }

    /** The body of the match: take `current`, at position `j`, out of its list. */
    method Unlink(prev: nat, current: nat, order: nat, ghost j: nat)
      requires Threaded() && MIN_ORDER <= order <= MAX_ORDER && j < |lists[Index(order)]|
      requires current == lists[Index(order)][j]
      requires prev == if j == 0 then 0 else lists[Index(order)][j - 1]
      modifies this`memory, this`freeLists, this`lists, this`free
      ensures Threaded()
      ensures Block(current, order) in old(free) && free == old(free) - {Block(current, order)}
      ensures OnlyAtBases(old(memory), memory, free)
    {
      hide Holds, Chain;
      var index := Index(order);
      ghost var l, m, heads := lists[index], memory, freeLists;
      ChainAt(m, heads[index], l, j);
      if j > 0 { ChainAt(m, heads[index], l, j - 1); }
      var next := memory[current];
      if prev == 0 {
        freeLists := freeLists[index := next];
      } else {
        memory := memory[prev := next];
      }
      UnlinkLinked(m, memory, heads, freeLists, lists, free, index, j);
      UnlinkHolds(lists, free, order, j);
      UnlinkMembers(l, j);
      lists := lists[index := Without(l, j)];
      free := free - {Block(current, order)};
      ListedIffFree(lists, free, order, prev);
    }

    /** The first zone that contains `addr`. */
    method ZoneFor(addr: nat) returns (r: Option<Block>)
      ensures r.None? ==> forall z <- zones :: !Within(addr, z)
      ensures r.Some? ==> r.value in zones && Within(addr, r.value)
    {
      for i := 0 to |zones|
        invariant forall j :: 0 <= j < i ==> !Within(addr, zones[j])
      {
        if Within(addr, zones[i]) { return Some(zones[i]); }
      }
      return None;
    }

    /** Halves the live block at `addr`: the lower half stays live, the upper becomes free. */
    method SplitBlock(addr: nat, order: nat)
      requires Valid() && initialized && MIN_ORDER <= order < MAX_ORDER && Block(addr, order + 1) in live
      modifies this`memory, this`freeLists, this`lists, this`free, this`live
      ensures Valid()
      ensures Block(addr, order) !in old(live)
      ensures live == old(live) - {Block(addr, order + 1)} + {Block(addr, order)}
      ensures WordsKept(old(memory), memory, old(live) - {Block(addr, order + 1)})
    {
      hide Canonical, Linked, Holds;
      ghost var zs, p := Elems(zones), Block(addr, order + 1);
      SplitLive(zs, free, live, p);
      RightIsFresh(zs, free, live, p);
      PushFreeBlock(addr + Pow2(order), order);
      live := live - {p} + {Left(p)};
      WriteInsideTiles(zs, free + live, {Right(p)}, old(memory), memory);
    }

    /** Takes a block of exactly `order`, splitting the smallest larger free block if needed.
        It fails only when no free block is large enough. */
    method AllocateOrder(order: nat) returns (r: Option<nat>)
      requires Valid() && initialized && MIN_ORDER <= order
      modifies this`memory, this`freeLists, this`lists, this`free, this`live
      ensures Valid()
      ensures r.None? <==> forall f <- old(free) :: f.order < order
      ensures r.None? ==> live == old(live) && free == old(free) && memory == old(memory)
      ensures r.Some? ==> Block(r.value, order) !in old(live) && live == old(live) + {Block(r.value, order)}
      ensures r.Some? ==> order <= maxOrder
      // the smallest free block that suffices is broken up, and of these the one freed last
      ensures r.Some? ==> LeastFree(old(lists), old(free), Block(r.value, order))
      ensures WordsKept(old(memory), memory, old(live))
      decreases MAX_ORDER + 1 - order
    {
      hide Canonical, Linked, Holds;
      if order > maxOrder {
        NoFreeAbove(Elems(zones), free, live, maxOrder);
        return None;
      }
      var popped := PopFreeBlock(order);
      if popped.Some? {
        TakeFree(Elems(zones), old(free), live, Block(popped.value, order));
        live := live + {Block(popped.value, order)};
        return popped;
      }
      var larger := AllocateOrder(order + 1);
      if larger.None? { return None; }
      var addr := larger.value;
      assert live - {Block(addr, order + 1)} == old(live);
      ghost var m := memory;
      SplitBlock(addr, order);
      WordsKeptTrans(old(memory), m, memory, old(live));
      return Some(addr);
    }

    method Alloc(layout: Layout) returns (ptr: nat)
      requires Valid()
      modifies this`memory, this`freeLists, this`lists, this`free, this`live
      ensures Valid()
      // null exactly when no vacant block is large enough for size and alignment
      ensures initialized ==> (ptr == 0 <==> !RunVacant(Elems(zones), old(live), layout))
      ensures !initialized ==> ptr == 0
      ensures ptr == 0 ==> live == old(live) && memory == old(memory)
      // otherwise the block is fresh, inside one zone, aligned, large enough and a best fit
      ensures ptr != 0 ==> Granted(Elems(zones), old(live), live, ptr, layout)
      // and no word of a live block was written
      ensures WordsKept(old(memory), memory, old(live))
    {
      hide Canonical, Linked, Holds, RunVacant, Formable, Vacant, WordsKept, SmallestOrder, LeastFor, BestFit, LeastFree, Request;
      WordsKeptRefl(memory, live);
      if !initialized {
        return 0;
      }
      var order := OrderForSize(Request(layout));
      if order.None? {
        ZonesOf(Elems(zones), free, live);
        TooLarge(Elems(zones), live, layout);
        return 0;
      }
      OrderRange(Request(layout), order.value);
      RunVacantIffFit(Elems(zones), free, live, layout, order.value);
      var r := AllocateOrder(order.value);
      if r.None? {
        return 0;
      }
      NewBlockVacant(Elems(zones), free, live, old(live), Block(r.value, order.value));
      LeastIsBest(Elems(zones), old(lists), old(free), old(live), Block(r.value, order.value));
      SmallestIsLeast(layout, order.value);
      return r.value;
    }

    method Dealloc(ptr: nat, layout: Layout)
      requires Valid()
      // the caller's obligation: a pointer from `Alloc` with the same layout, not yet freed
      requires ptr != 0 && initialized && layout.size <= 0x4000_0000 && layout.align <= 0x4000_0000 ==>
                 exists o :: LeastFor(layout, o) && Block(ptr, o) in live
      modifies this`memory, this`freeLists, this`lists, this`free, this`live
      ensures Valid()
      ensures ptr == 0 || !initialized || layout.size > 0x4000_0000 || layout.align > 0x4000_0000 ==> live == old(live) && memory == old(memory)
      ensures ptr != 0 && initialized ==>
                forall o :: LeastFor(layout, o) ==> live == old(live) - {Block(ptr, o)}
      ensures WordsKept(old(memory), memory, live)
    {
      hide LeastFor, SmallestOrder;
      forall o ensures SmallestOrder(Request(layout), o) <==> LeastFor(layout, o) { SmallestIsLeast(layout, o); }
      if ptr == 0 || !initialized {
        return;
      }
      var size := OrderForSize(Request(layout));
      if size.None? {
        NoOrderAbove(Request(layout));
        return;
      }
      forall o | SmallestOrder(Request(layout), o) ensures o == size.value {
        SmallestOrderUnique(Request(layout), o, size.value);
      }
      OrderRange(Request(layout), size.value);
      Release(ptr, size.value);
    }

    /** Frees the live block at `ptr`, merging it with free buddies up to its zone's order. */
    method Release(ptr: nat, size: nat)
      requires Valid() && initialized && MIN_ORDER <= size <= MAX_ORDER && Block(ptr, size) in live
      modifies this`memory, this`freeLists, this`lists, this`free, this`live
      ensures Valid()
      ensures live == old(live) - {Block(ptr, size)}
      ensures WordsKept(old(memory), memory, live)
    {
      hide Canonical, Linked, Holds, WordsKept, Aligned, Contains, Buddy;
      LiveBlock(Elems(zones), free, live, Block(ptr, size));
      var found := ZoneFor(ptr);
      LiveInZone(Elems(zones), free, live, Block(ptr, size), found.value);
      var addr, order := MergeUp(ptr, size, found.value);
      ghost var m := memory;
      PushLive(addr, order);
      WordsKeptTrans(old(memory), m, memory, live);
    }

    method MergeUp(ptr: nat, size: nat, zone: Block) returns (addr: nat, order: nat)
      requires Threaded() && Canonical(Elems(zones), free, live) && Block(ptr, size) in live
      requires AlignedBlock(Block(ptr, size)) && AlignedBlock(zone) && zone in zones
      requires MIN_ORDER <= size <= zone.order <= MAX_ORDER && Contains(zone, Block(ptr, size))
      modifies this`memory, this`freeLists, this`lists, this`free, this`live
      ensures Threaded() && Canonical(Elems(zones), free, live) && Block(addr, order) in live
      ensures MIN_ORDER <= order <= MAX_ORDER && AlignedBlock(Block(addr, order))
      ensures Block(addr, order) in zones || Buddy(Block(addr, order)) !in free
      ensures live - {Block(addr, order)} == old(live) - {Block(ptr, size)}
      ensures WordsKept(old(memory), memory, old(live) - {Block(ptr, size)})
    {
      hide Canonical, Linked, Holds, WordsKept, Aligned, Contains, Buddy, Parent, BuddyAddr;
      ghost var keep := live - {Block(ptr, size)};
      addr, order := ptr, size;
      WordsKeptRefl(memory, keep);
      while order < zone.order
        invariant Threaded() && Canonical(Elems(zones), free, live) && MIN_ORDER <= order <= zone.order
        invariant Block(addr, order) in live && live - {Block(addr, order)} == keep
        invariant AlignedBlock(Block(addr, order)) && Contains(zone, Block(addr, order))
        invariant WordsKept(old(memory), memory, keep)
      {
        BuddyAddrIsBuddy(zone, Block(addr, order));
        var buddy := BuddyAddr(zone, addr, order);
        if buddy.None? { break; }
        ghost var m := memory;
        var merged := MergeBuddy(addr, order, zone, buddy.value);
        WordsKeptTrans(old(memory), m, memory, keep);
        if !merged { return; }
        addr := Min(addr, buddy.value);
        order := order + 1;
      }
      OrderOfContained(zone, Block(addr, order));
    }

    /** One turn of the merge loop: joins the live block with its buddy if that is free. */
    method MergeBuddy(addr: nat, order: nat, ghost zone: Block, buddy: nat) returns (merged: bool)
      requires Threaded() && Canonical(Elems(zones), free, live) && MIN_ORDER <= order <= MAX_ORDER
      requires AlignedBlock(Block(addr, order)) && Block(addr, order) in live
      requires zone in zones && Contains(zone, Block(addr, order)) && order < zone.order
      requires buddy == Buddy(Block(addr, order)).addr
      modifies this`memory, this`freeLists, this`lists, this`free, this`live
      ensures Threaded() && Canonical(Elems(zones), free, live)
      ensures !merged ==> live == old(live) && Buddy(Block(addr, order)) !in free
      ensures merged ==>
        && Parent(Block(addr, order)) == Block(Min(addr, buddy), order + 1)
        && AlignedBlock(Parent(Block(addr, order)))
        && Contains(zone, Parent(Block(addr, order)))
        && Parent(Block(addr, order)) in live
        && live - {Parent(Block(addr, order))} == old(live) - {Block(addr, order)}
      ensures WordsKept(old(memory), memory, old(live) - {Block(addr, order)})
    {
      hide Canonical, Linked, Holds;
      ghost var b, zs := Block(addr, order), Elems(zones);
      LiveTiles(zs, free, live, b);
      ParentInZone(zs, b, zone);
      BuddyParent(b);
      merged := RemoveFreeBlock(buddy, order);
      WriteInsideTiles(zs, old(free) + live, free, old(memory), memory);
      assert free == old(free) - {Buddy(b)};
      if merged {
        MergeLive(zs, old(free), live, b, zone);
        live := live - {b} + {Parent(b)};
      } else {
        assert free == old(free);
      }
    }

    /** Whatever its owners write into live blocks, the heap stays sound. */
    method OwnersWrite(m: map<nat, nat>)
      requires Valid() && initialized && OnlyInside(memory, m, live)
      modifies this`memory
      ensures Valid() && memory == m
    {
      hide Linked, Holds, Canonical, OnlyInside;
      OwnersHarmNothing(this, m);
      memory := m;
    }

    /** The end of a release: the merged block goes onto its free list. */
    method PushLive(addr: nat, order: nat)
      requires Threaded() && Canonical(Elems(zones), free, live) && MIN_ORDER <= order <= MAX_ORDER
      requires AlignedBlock(Block(addr, order)) && Block(addr, order) in live
      requires Block(addr, order) in zones || Buddy(Block(addr, order)) !in free
      modifies this`memory, this`freeLists, this`lists, this`free, this`live
      ensures Threaded() && Canonical(Elems(zones), free, live)
      ensures live == old(live) - {Block(addr, order)}
      ensures WordsKept(old(memory), memory, live)
    {
      hide Canonical, Linked, Holds;
      ghost var b, zs := Block(addr, order), Elems(zones);
      LiveTiles(zs, free, live, b);
      ReleaseLive(zs, free, live, b);
      PushFreeBlock(addr, order);
      live := live - {b};
      WriteInsideTiles(zs, old(free) + old(live), {b}, old(memory), memory);
    }
  }

  /** Every word that differs lies in one of the blocks. */
  ghost predicate OnlyInside(m: map<nat, nat>, m': map<nat, nat>, blocks: set<Block>) {
    forall a: nat :: SameWord(m, m', a) || exists b <- blocks :: Within(a, b)
  }

  lemma FreeBaseOutside(zones: set<Block>, free: set<Block>, live: set<Block>, f: Block, b: Block)
    requires Canonical(zones, free, live) && f in free && b in live
    ensures !Within(f.addr, b)
  {
    hide Aligned;
    LiveTiles(zones, free, live, b);
    assert f in free + live && b in free + live && f != b;
    assert !Overlaps(f, b);
    Pow2Six();
  }

  /** What the owners of live blocks write there leaves every list in order. */
  lemma OwnersHarmNothing(heap: BuddyAllocator, m': map<nat, nat>)
    requires heap.Valid() && heap.initialized && OnlyInside(heap.memory, m', heap.live)
    ensures Linked(m', heap.freeLists, heap.lists)
  {
    hide Canonical, Holds, Within, SameWord;
    forall k | 0 <= k < ORDER_COUNT ensures Chain(m', heap.freeLists[k], heap.lists[k]) {
      forall a | a in heap.lists[k] ensures SameWord(heap.memory, m', a) {
        var order: nat := k + MIN_ORDER;
        ListedIffFree(heap.lists, heap.free, order, a);
        forall b | b in heap.live ensures !Within(a, b) {
          FreeBaseOutside(Elems(heap.zones), heap.free, heap.live, Block(a, order), b);
        }
      }
      ChainSame(heap.memory, m', heap.freeLists[k], heap.lists[k]);
    }
  }

  // ---- consequences -------------------------------------------------------------------

  /** A granted pointer is aligned to its layout, which Rust requires to be a power of two,
      and its block holds the requested bytes. */
  lemma GrantedFitsLayout(zones: set<Block>, before: set<Block>, after: set<Block>, ptr: nat, layout: Layout, j: nat)
    requires Granted(zones, before, after, ptr, layout) && layout.align == Pow2(j)
    ensures ptr % layout.align == 0
    ensures exists o :: layout.size <= Pow2(o) && Block(ptr, o) in after && Vacant(before, Block(ptr, o))
  {
    hide Aligned, Vacant;
    var o :| LeastFor(layout, o) && Formable(zones, Block(ptr, o))
             && Vacant(before, Block(ptr, o)) && after == before + {Block(ptr, o)};
    LayoutOrder(layout, j, o);
    AlignedDown(ptr, o, j);
    AlignedMod(ptr, j);
    assert layout.size <= Pow2(o) && Block(ptr, o) in after;
  }

  lemma LayoutOrder(layout: Layout, j: nat, o: nat)
    requires layout.align == Pow2(j) && LeastFor(layout, o)
    ensures j <= o
  {
    if o < j { Pow2Mono(o, j); }
  }

  /** Freeing everything, in any order, leaves exactly one full free block per zone. */
  lemma FreedHeapIsWhole(heap: BuddyAllocator)
    requires heap.Valid() && heap.initialized && heap.live == {}
    ensures heap.free == Elems(heap.zones)
    ensures forall k :: MIN_ORDER <= k <= MAX_ORDER ==>
              forall a :: a in heap.lists[Index(k)] <==> Block(a, k) in heap.zones
  {
    hide Canonical, Linked;
    AllFreed(Elems(heap.zones), heap.free);
    forall k, a | MIN_ORDER <= k <= MAX_ORDER ensures a in heap.lists[Index(k)] <==> Block(a, k) in heap.zones {
      ListedIffFree(heap.lists, heap.free, k, a);
    }
  }

  /** Two heaps over the same zones with the same live blocks have the same free blocks,
      whatever the history of each. */
  lemma HistoryDoesNotMatter(h1: BuddyAllocator, h2: BuddyAllocator)
    requires h1.Valid() && h2.Valid() && h1.initialized && h2.initialized
    requires Elems(h1.zones) == Elems(h2.zones) && h1.live == h2.live
    ensures h1.free == h2.free
  {
    FreeDeterminedByLive(Elems(h1.zones), h1.live, h1.free, h2.free);
  }
}
