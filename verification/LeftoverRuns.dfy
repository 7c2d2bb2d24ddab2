/** Runs through a record that a failed `mkdir` has left behind. A file takes the last free blocks and the
    root is filled with links; then the file gives one block back, `mkdir` takes it for the new directory
    and finds none to append to the root. The inode it had taken is free again, and so is the block, but the
    record still points there.

    The device has one group, so that the driver takes the first free inode and the first free block
    (`First`), and the root grows by a direct block if one is left (`Append`). Every step below calls
    the allocator for what it takes. */
module LeftoverRuns {
  import opened Common
  import opened Bits
  import opened FsErrors
  import opened DirRecords
  import opened DirBlock
  import B = DirBlock
  import D = Directory
  import opened NameTree
  import opened NameMoves
  import opened NameDirs
  import opened NameSpec
  import opened NameFacts
  import opened InodeDirs
  import opened DirStore
  import N = Namespace

  /** The smallest device that can be formatted: 64 blocks of 1024 bytes, of which the metadata takes eight
      and the root the next. `format` makes "lost+found" as `mkdir` does. */
  const INODES: nat := 32
  const LAST: nat := 64
  const HOME: nat := 9
  /** The block of the failed `mkdir`. "g" is written from its end on, so that its last block is the
      first it has taken after an indirect block; that is the one it gives back. */
  const LEFT: nat := 14
  const LOST: Name := [108, 111, 115, 116, 43, 102, 111, 117, 110, 100]
  const NAME_G: Name := [103]
  const NAME_E: Name := [101]

  predicate Least(s: set<nat>, x: nat) {
    x in s && forall y <- s :: x <= y
  }

  /** The first clear bit. */
  function First(s: set<nat>): (x: nat)
    requires s != {}
    ensures Least(s, x)
  {
    LeastIs(s);
    var x :| Least(s, x);
    x
  }

  lemma {:induction false} LeastExists(s: set<nat>) returns (x: nat)
    requires s != {}
    ensures Least(s, x)
    decreases |s|
  {
    x :| x in s;
    var rest := s - {x};
    if rest != {} {
      var y := LeastExists(rest);
      assert forall z <- s :: z == x || z in rest;
      if y < x { x := y; }
    }
  }

  lemma LeastIs(s: set<nat>)
    requires s != {}
    ensures exists x :: Least(s, x)
  {
    var x := LeastExists(s);
  }

  /** What `bmap` answers for a new direct block when `s` is free. */
  function Append(s: set<nat>): Result<nat> {
    if s == {} then Err(NoSpace) else Ok(First(s))
  }

  lemma FirstIs(s: set<nat>, x: nat)
    requires x in s && forall y <- s :: x <= y
    ensures First(s) == x
  {
  }

  /** The numbers from `m` to `top` are free. */
  ghost predicate FreeFrom(free: set<nat>, m: nat, top: nat) {
    m <= top && forall x: nat :: x in free <==> m <= x <= top
  }

  lemma TakeFirst(free: set<nat>, m: nat, top: nat)
    requires FreeFrom(free, m, top) && m < top
    ensures free != {} && First(free) == m && FreeFrom(free - {m}, m + 1, top)
  {
    assert m in free;
    FirstIs(free, m);
  }

  /** The name of link number `j`. */
  function LinkName(j: nat): Name
    requires j < 200
  {
    [108, 97 + j / 26, 97 + j % 26]
  }

  lemma LinkNames(i: nat, j: nat)
    requires i < 200 && j < 200
    ensures LinkName(i) == LinkName(j) ==> i == j
    ensures D.ValidateName(LinkName(i)).None? && |LinkName(i)| == 3 && !Dots(LinkName(i))
  {
    var a, b := LinkName(i), LinkName(j);
    assert a[0] == 108 && a[1] == 97 + i / 26 && a[2] == 97 + i % 26;
    assert b[1] == 97 + j / 26 && b[2] == 97 + j % 26;
    assert i == i / 26 * 26 + i % 26 && j == j / 26 * 26 + j % 26;
  }

  lemma Names()
    ensures D.ValidateName(NAME_D).None? && D.ValidateName(NAME_F).None? && D.ValidateName(NAME_G).None? && D.ValidateName(NAME_E).None?
    ensures !Dots(NAME_D) && !Dots(NAME_F) && !Dots(NAME_G) && !Dots(NAME_E) && NAME_D != NAME_G && NAME_F != NAME_E && DOT != DOTDOT
    ensures D.ValidateName(LOST).None? && !Dots(LOST) && |LOST| == 10
    ensures |NAME_D| == |NAME_F| == |NAME_G| == |NAME_E| == 1
  {
    assert NAME_D[0] == 100 && NAME_F[0] == 102 && NAME_G[0] == 103 && NAME_E[0] == 101 && DOT[0] == 46 && |DOTDOT| == 2 && |DOT| == 1;
    assert |LOST| == 10 && forall b <- LOST :: b == 43 || b >= 100;
  }

  // ---- a directory block holds a bounded number of names -----------------------------------------

  lemma {:induction false} RecordsFit(b: seq<byte>, o: nat, rs: seq<Rec>, to: nat)
    requires Tiles(b, o, rs, to)
    ensures o <= to && 8 * |rs| <= to - o
    decreases |rs|
  {
    if rs != [] {
      RecInside(b, o, rs[0]);
      RecordsFit(b, o + rs[0].len, rs[1..], to);
    }
  }

  lemma {:induction false} ItemsFit(rs: seq<Rec>)
    ensures |Items(rs)| <= |rs|
  {
    if rs != [] { ItemsFit(rs[1..]); }
  }

  lemma {:induction false} MapFits(items: multiset<Item>)
    requires D.NamesOnce(items)
    ensures |D.AsMap(items)| <= |items|
    decreases |items|
  {
    hide D.NamesOnce, D.AsMap, Absent;
    if items == multiset{} {
      NoItems();
    } else {
      var x :| x in items;
      var rest := items - multiset{x};
      assert items == rest + multiset{x};
      D.MapDelete(rest, x);
      MapFits(rest);
      OneKeyMore(D.AsMap(items), x.name);
    }
  }

  lemma NoItems()
    ensures D.NamesOnce(multiset{}) && D.AsMap(multiset{}) == map[]
  {
    D.AsMapIs(multiset{}, map[]);
  }

  lemma OneKeyMore<T>(m: map<Name, T>, n: Name)
    requires n in m
    ensures |m| == |m - {n}| + 1
  {
    assert m.Keys == (m - {n}).Keys + {n};
    assert |m| == |m.Keys| && |m - {n}| == |(m - {n}).Keys|;
  }

  lemma NamesFit(bs: nat, v: Inode)
    requires v.DirInode? && RecordOk(bs, v) && |v.blocks| == 1
    ensures 8 * |Entries(ViewOf(v))| <= bs
  {
    var s := v.blocks[0];
    assert v.blocks == [s];
    D.AllItemsOne(s);
    assert D.SlotOk(bs, v.blocks[0]);
    MapFits(D.AllItems(v.blocks));
    InoKeys(D.AsMap(D.AllItems(v.blocks)));
    assert |Entries(ViewOf(v))| == |Entries(ViewOf(v)).Keys| && |D.AsMap(D.AllItems(v.blocks))| == |D.AsMap(D.AllItems(v.blocks)).Keys|;
    if s.Some? {
      RecordsFit(s.value, 0, B.Records(s.value), |s.value|);
      ItemsFit(B.Records(s.value));
    }
  }

  // ---- filling the root ----------------------------------------------------------------------------

  /** The directories "lost+found", "d" in it, and "d" in that, which holds the file "g". */
  ghost predicate Chain(t: Table) {
    && Lookup(t, ROOT, LOST) == Some(11) && Links(t, ROOT) == 3
    && 11 in t && t[11] == Dir(map[DOT := 11, DOTDOT := ROOT, NAME_D := 12], 3)
    && 12 in t && t[12] == Dir(map[DOT := 12, DOTDOT := 11, NAME_D := 13], 3)
    && 13 in t && t[13] == Dir(map[DOT := 13, DOTDOT := 12, NAME_G := 14], 2)
  }

  ghost predicate Placed(records: Records) {
    && ROOT in records && records[ROOT].DirRecord? && records[ROOT].ptrs == [9]
    && 11 in records && records[11].DirRecord? && records[11].ptrs == [10]
  }

  ghost predicate PlacedBelow(records: Records) {
    && 12 in records && records[12].DirRecord? && records[12].ptrs == [11]
    && 13 in records && records[13].DirRecord? && records[13].ptrs == [12]
  }

  ghost predicate Linked(t: Table, k: nat) {
    k <= 128 && |EntriesAt(t, ROOT)| == k + 3 && forall j :: k <= j < 200 ==> LinkName(j) !in EntriesAt(t, ROOT)
  }

  /** No block is free, and the root has `k` links to the file. */
  ghost predicate Filling(ns: N.Namespace, k: nat)
    reads ns
  {
    && ns.Valid() && ns.TreeOk() && ns.bs == 1024 && ns.first == 11 && ns.stale == {} && ns.freeBlocks == {}
    && FreeFrom(ns.free, 15, INODES) && Placed(ns.records) && PlacedBelow(ns.records) && !Owned(ns.records, {}, LEFT) && LEFT in ns.store
    && Chain(ns.View()) && 14 in ns.View() && ns.View()[14] == Leaf(k + 1) && Linked(ns.View(), k)
  }

  lemma NotRefused(t: Table, d: nat, n: Name, dir: bool)
    requires LiveDir(t, d) && t[d].links < MAX_LINKS && n !in t[d].entries && D.ValidateName(n).None?
    ensures CreateRefused(t, d, n, dir).None?
  {
  }

  lemma FreshFits(bs: nat, records: Records, store: Store, i: nat, parent: nat, n: Name)
    requires FreshAt(bs, records, store, i, parent) && |n| <= MAX_NAME
    ensures Fits(records, store, i, n)
  {
    hide RecordOk, DotsInFront, ViewOf, D.RoomIn;
  }

  lemma StartTable(t0: Table, t1: Table, t2: Table, t3: Table, t4: Table)
    requires t0 == Formatted(INODES) && IsCreated(t0, t1, ROOT, LOST, 11, true) && IsCreated(t1, t2, 11, NAME_D, 12, true)
    requires IsCreated(t2, t3, 12, NAME_D, 13, true) && IsCreated(t3, t4, 13, NAME_G, 14, false)
    ensures Chain(t4) && 14 in t4 && t4[14] == Leaf(1) && Linked(t4, 0)
  {
    hide Formatted, Created, LinkName;
    FormattedAt(INODES, ROOT);
    Names();
    CreatedNodes(t0, ROOT, LOST, 11, true, 12);
    CreatedNodes(t1, 11, NAME_D, 12, true, ROOT);
    CreatedNodes(t2, 12, NAME_D, 13, true, ROOT);
    CreatedNodes(t2, 12, NAME_D, 13, true, 11);
    CreatedNodes(t3, 13, NAME_G, 14, false, ROOT);
    CreatedNodes(t3, 13, NAME_G, 14, false, 11);
    CreatedNodes(t3, 13, NAME_G, 14, false, 12);
    StartRoot(t4);
    assert t4[11].entries == map[DOT := 11, DOTDOT := ROOT, NAME_D := 12];
    assert t4[12].entries == map[DOT := 12, DOTDOT := 11, NAME_D := 13];
    assert t4[13].entries == map[DOT := 13, DOTDOT := 12, NAME_G := 14];
  }

  lemma StartRoot(t: Table)
    requires ROOT in t && t[ROOT] == Dir(map[DOT := ROOT, DOTDOT := ROOT, LOST := 11], 3)
    ensures Linked(t, 0) && Lookup(t, ROOT, LOST) == Some(11) && Links(t, ROOT) == 3
  {
    hide LinkName;
    Names();
    assert t[ROOT].entries.Keys == {DOT, DOTDOT, LOST};
    assert |t[ROOT].entries| == |t[ROOT].entries.Keys|;
    forall j | 0 <= j < 200 ensures LinkName(j) !in EntriesAt(t, ROOT) { LinkNames(j, j); }
  }

  /** The name of the directory made in `d`. */
  function NameIn(d: nat): Name { if d == ROOT then LOST else NAME_D }

  /** A directory that has just been made can take a name. */
  lemma NextRefused(t: Table, t': Table, d: nat, i: nat, n: Name, dir: bool)
    requires IsCreated(t, t', d, NameIn(d), i, true) && D.ValidateName(n).None? && !Dots(n)
    ensures CreateRefused(t', i, n, dir).None?
  {
    hide Created, D.ValidateName;
    CreatedNodes(t, d, NameIn(d), i, true, ROOT);
    NotRefused(t', i, n, dir);
  }

  lemma FirstRefused()
    ensures CreateRefused(Formatted(INODES), ROOT, LOST, true).None?
  {
    hide Formatted, D.ValidateName;
    FormattedAt(INODES, ROOT);
    Names();
    NotRefused(Formatted(INODES), ROOT, LOST, true);
  }

  lemma StartRecords(records: Records)
    requires records == N.FormattedRecords(HOME, INODES)
    ensures ROOT in records && records[ROOT] == DirRecord([9], 2) && FreeFrom(FreeInodes(11, INODES), 11, INODES) && FreeFrom(FreeInodes(10, LAST), 10, LAST)
  {
    InFreeInodes(1, INODES, ROOT);
    forall i: nat ensures (i in FreeInodes(11, INODES) <==> 11 <= i <= INODES) && (i in FreeInodes(10, LAST) <==> 10 <= i <= LAST) {
      InFreeInodes(11, INODES, i);
      InFreeInodes(10, LAST, i);
    }
  }

  /** Directory `i` has just been made in `d`, with block `i - 1`. */
  ghost predicate Begun(ns: N.Namespace, i: nat, t: Table, d: nat)
    reads ns
  {
    && ns.Valid() && ns.TreeOk() && ns.bs == 1024 && ns.first == 11 && ns.stale == {} && 11 <= i <= 13
    && FreeFrom(ns.free, i + 1, INODES) && FreshAt(1024, ns.records, ns.store, i, d) && Placed(ns.records)
    && i in ns.records && ns.records[i].DirRecord? && ns.records[i].ptrs == [i - 1] && IsCreated(t, ns.View(), d, NameIn(d), i, true)
  }

  /** A formatted device. */
  method Begin(ft: byte) returns (ns: N.Namespace)
    ensures fresh(ns) && Begun(ns, 11, Formatted(INODES), ROOT) && FreeFrom(ns.freeBlocks, 11, LAST)
  {
    hide Inv, See, Sane, Apart, D.ValidateName, D.RoomIn, D.Finding, D.Landing, Slots, Load, Receiver, Touched, Formatted, FreeInodes, CreateRefused, IsCreated,
      LinkName, Lookup, EntriesAt, Links, N.FormattedRecords, FreshAt, Fits, BumpedAt, Chain, Linked, CreateRefusal, AddAnswer, Welcome, Stays, First, FreeFrom, Owned;
    InFreeInodes(10, LAST, HOME);
    ns := new N.Namespace(1024, 11, INODES, FreeInodes(10, LAST), HOME, ft);
    ghost var rs := ns.records;
    StartRecords(rs);
    Names();
    FirstRefused();
    FreshFits(1024, ns.records, ns.store, ROOT, ROOT, LOST);
    TakeFirst(ns.free, 11, INODES);
    TakeFirst(ns.freeBlocks, 10, LAST);
    ns.AnswerIs(ROOT, LOST, Append(ns.freeBlocks - {10}));
    var r := ns.Mkdir(ROOT, LOST, ft, Append(ns.freeBlocks - {First(ns.freeBlocks)}), First(ns.freeBlocks), First(ns.free));
    Bump(rs[11 := DirRecord([10], 2)], ROOT, 1, ROOT);
    Bump(rs[11 := DirRecord([10], 2)], ROOT, 1, 11);
  }

  /** `mkdir` in the directory made last. */
  method Nest(ns: N.Namespace, ft: byte, i: nat, ghost t: Table, ghost d: nat)
    requires Begun(ns, i, t, d) && i < 13 && FreeFrom(ns.freeBlocks, i, LAST)
    modifies ns
    ensures Begun(ns, i + 1, old(ns.View()), i) && FreeFrom(ns.freeBlocks, i + 1, LAST) && (i == 12 ==> PlacedBelow(ns.records))
  {
    hide Inv, See, Sane, Apart, D.ValidateName, D.RoomIn, D.Finding, D.Landing, Slots, Load, Receiver, Touched, Formatted, FreeInodes, CreateRefused, IsCreated,
      LinkName, Lookup, EntriesAt, Links, N.FormattedRecords, FreshAt, Fits, BumpedAt, Chain, Linked, CreateRefusal, AddAnswer, Welcome, Stays, First, FreeFrom, Owned;
    ghost var rs := ns.records;
    Names();
    NextRefused(t, ns.View(), d, i, NAME_D, true);
    FreshFits(1024, ns.records, ns.store, i, d, NAME_D);
    TakeFirst(ns.free, i + 1, INODES);
    TakeFirst(ns.freeBlocks, i, LAST);
    ns.AnswerIs(i, NAME_D, Append(ns.freeBlocks - {i}));
    var r := ns.Mkdir(i, NAME_D, ft, Append(ns.freeBlocks - {First(ns.freeBlocks)}), First(ns.freeBlocks), First(ns.free));
    Bump(rs[i + 1 := DirRecord([i], 2)], i, 1, ROOT);
    Bump(rs[i + 1 := DirRecord([i], 2)], i, 1, 11);
    Bump(rs[i + 1 := DirRecord([i], 2)], i, 1, i);
    Bump(rs[i + 1 := DirRecord([i], 2)], i, 1, i + 1);
  }

  /** "g" is made in the last directory and takes the last block. */
  method Start(ft: byte) returns (ns: N.Namespace)
    ensures fresh(ns) && Filling(ns, 0)
  {
    hide Inv, See, Sane, Apart, D.ValidateName, D.RoomIn, D.Finding, D.Landing, Slots, Receiver, Touched, Fits, FreshAt, Load, CreateRefusal, CreateRefused, AddAnswer,
      Welcome, Stays, First, FreeFrom, Owned, IsCreated, BlocksAt, RecordOk, DotsInFront, ViewOf, LinkName, Lookup, EntriesAt, Chain, Linked, Formatted, Placed, PlacedBelow;
    ns := Begin(ft);
    ghost var t1 := ns.View();
    Nest(ns, ft, 11, Formatted(INODES), ROOT);
    ghost var t2 := ns.View();
    Nest(ns, ft, 12, t1, 11);
    ghost var t3, rs := ns.View(), ns.records;
    Names();
    NextRefused(t2, t3, 12, 13, NAME_G, false);
    FreshFits(1024, ns.records, ns.store, 13, 12, NAME_G);
    TakeFirst(ns.free, 14, INODES);
    ns.AnswerIs(13, NAME_G, Append(ns.freeBlocks));
    var r := ns.Create(13, NAME_G, ft, Append(ns.freeBlocks), First(ns.free));
    assert ns.stale == {};
    TakeFirst(ns.freeBlocks, 13, LAST);
    TakeFirst(ns.freeBlocks - {13}, LEFT, LAST);
    PlacedSame(rs, 14, OtherRecord(1));
    StartTable(Formatted(INODES), t1, t2, t3, ns.View());
    ns.InStore(LEFT);
    FreeNotOwned(ns.records, ns.store, ns.freeBlocks, ns.stale, LEFT);
    OwnedInUse(ns.records, ns.store, ns.freeBlocks, ns.stale, {});
    ns.OthersWrite(ns.store, {});
  }

  lemma PlacedSame(records: Records, i: nat, r: Record)
    requires Placed(records) && PlacedBelow(records) && i > 13
    ensures Placed(records[i := r]) && PlacedBelow(records[i := r])
  {
  }

  lemma OwnedInUse(records: Records, store: Store, freeBlocks: set<nat>, stale: set<nat>, less: set<nat>)
    requires Apart(records, store, freeBlocks, stale) && less <= freeBlocks
    ensures forall p <- store :: Owned(records, stale, p) ==> p !in less
  {
  }

  lemma PlacedBump(records: Records, i: nat, delta: int)
    requires Placed(records) && PlacedBelow(records)
    ensures Placed(BumpedAt(records, i, delta)) && PlacedBelow(BumpedAt(records, i, delta))
    ensures forall stale, p: nat :: Owned(BumpedAt(records, i, delta), stale, p) ==> Owned(records, stale, p)
  {
    var records' := BumpedAt(records, i, delta);
    forall j ensures j in records' <==> j in records { Bump(records, i, delta, j); }
    forall stale, p: nat | Owned(records', stale, p) ensures Owned(records, stale, p) {
      var j: nat, k: nat :| Owns(records', stale, j, k, p);
      Bump(records, i, delta, j);
      assert Owns(records, stale, j, k, p);
    }
  }

  lemma LinkStep(t: Table, t': Table, k: nat)
    requires Chain(t) && 14 in t && t[14] == Leaf(k + 1) && Linked(t, k) && k < 128
    ensures LinkRefused(t, ROOT, LinkName(k), 14).None?
    ensures IsLinked(t, t', ROOT, LinkName(k), 14) ==> Chain(t') && 14 in t' && t'[14] == Leaf(k + 2) && Linked(t', k + 1)
  {
    LinkNames(k, k);
    if IsLinked(t, t', ROOT, LinkName(k), 14) {
      assert t'[ROOT].entries == t[ROOT].entries[LinkName(k) := 14];
      OneKeyMore(t'[ROOT].entries, LinkName(k));
      assert t'[ROOT].entries - {LinkName(k)} == t[ROOT].entries;
      forall j | k + 1 <= j < 200 ensures LinkName(j) !in EntriesAt(t', ROOT) { LinkNames(j, k); }
      Names();
    }
  }

  /** One more link in the root, if it fits. */
  method FillOne(ns: N.Namespace, ft: byte, k: nat) returns (full: bool)
    requires Filling(ns, k)
    modifies ns
    ensures if full then Filling(ns, k) && !Fits(ns.records, ns.store, ROOT, LinkName(k)) else Filling(ns, k + 1)
    ensures k < 128
  {
    hide Inv, See, Sane, Apart, D.ValidateName, D.RoomIn, D.Finding, D.Landing, Slots, Receiver, Touched, Fits, FreshAt, Load, CreateRefusal, CreateRefused, AddAnswer,
      Welcome, First, FreeFrom, Owned, IsCreated, BlocksAt, RecordOk, DotsInFront, ViewOf, LinkName, Lookup, EntriesAt, Chain, Linked,
      IsLinked, LinkRefused, LinkRefusal, PlacedBelow, BumpedAt;
    ghost var t, rs := ns.View(), ns.records;
    ns.Facts(ROOT);
    NamesFit(1024, ns.At(ROOT));
    Counted(t, k, Entries(ViewOf(ns.At(ROOT))));
    LinkStep(t, t, k);
    LinkNames(k, k);
    ChainLive(t);
    ns.AnswerIs(ROOT, LinkName(k), Append(ns.freeBlocks));
    ghost var st := ns.store;
    var r := ns.Link(ROOT, LinkName(k), 14, ft, Append(ns.freeBlocks));
    LinkStep(t, ns.View(), k);
    if r.Ok? { SameKeys(st, ns.store, BlocksAt(rs, ROOT), LEFT); }
    PlacedBump(rs, 14, 1);
    full := r.Err?;
  }

  lemma ChainLive(t: Table)
    requires Chain(t)
    ensures LiveDir(t, ROOT) && LiveDir(t, 11) && LiveDir(t, 12) && LiveDir(t, 13)
    ensures Lookup(t, 11, NAME_D) == Some(12) && Lookup(t, 12, NAME_D) == Some(13) && Lookup(t, 13, NAME_G) == Some(14)
  {
    Names();
  }

  lemma Counted(t: Table, k: nat, m: map<Name, nat>)
    requires Linked(t, k) && ROOT in t && Entries(t[ROOT]) == m
    ensures |m| == k + 3
  {
  }

  method Fill(ns: N.Namespace, ft: byte) returns (k: nat)
    requires Filling(ns, 0)
    modifies ns
    ensures k < 128 && Filling(ns, k) && !Fits(ns.records, ns.store, ROOT, LinkName(k))
  {
    hide Filling, Fits, LinkName;
    k := 0;
    while true
      invariant Filling(ns, k)
      decreases 200 - k
    {
      var full := FillOne(ns, ft, k);
      if full { return; }
      k := k + 1;
    }
  }

  // ---- the failed mkdir ------------------------------------------------------------------------------

  /** Record 15 is left behind, with its two dots in block `LEFT`, which is free. */
  ghost predicate Left(ns: N.Namespace)
    reads ns
  {
    && ns.Valid() && ns.TreeOk() && ns.bs == 1024 && ns.first == 11 && ns.stale == {15} && LEFT in ns.freeBlocks && 15 in ns.free
    && 15 in ns.records && ns.records[15] == DirRecord([LEFT], 2) && FreshAt(1024, ns.records, ns.store, 15, ROOT) && Placed(ns.records)
  }

  /** There is no room for the name in the root. */
  ghost predicate Full(ns: N.Namespace, n: Name)
    reads ns
  {
    !Fits(ns.records, ns.store, ROOT, n) && n !in EntriesAt(ns.View(), ROOT) && D.ValidateName(n).None?
  }

  lemma FitsSame(records: Records, records': Records, store: Store, store': Store, blocks: set<nat>, dir: nat, n: Name)
    requires dir in records && dir in records' && records[dir].DirRecord? && records'[dir].DirRecord? && records'[dir].ptrs == records[dir].ptrs
    requires Touched(store, store', blocks) && BlocksAt(records, dir) !! blocks
    ensures Fits(records', store', dir, n) <==> Fits(records, store, dir, n)
  {
    forall k | 0 <= k < |records[dir].ptrs| ensures SlotAt(store', records[dir].ptrs[k]) == SlotAt(store, records[dir].ptrs[k]) {
      assert records[dir].ptrs[k] in BlocksAt(records, dir);
    }
    assert Slots(store', records[dir].ptrs) == Slots(store, records[dir].ptrs);
  }

  lemma FreshSame(bs: nat, records: Records, records': Records, store: Store, store': Store, blocks: set<nat>, i: nat, parent: nat, p: nat)
    requires FreshAt(bs, records, store, i, parent) && i in records' && records'[i] == records[i] && records[i] == DirRecord([p], 2)
    requires Touched(store, store', blocks) && p !in blocks
    ensures FreshAt(bs, records', store', i, parent)
  {
    hide FreshRecord;
    assert Slots(store', [p]) == Slots(store, [p]);
  }

  lemma SameKeys(store: Store, store': Store, blocks: set<nat>, p: nat)
    requires Touched(store, store', blocks) && p in store
    ensures p in store' && {p} * store'.Keys == {p}
  {
  }

  lemma OnlyPtr(records: Records, i: nat, p: nat)
    requires i in records && records[i].DirRecord? && records[i].ptrs == [p]
    ensures BlocksAt(records, i) == {p}
  {
    assert records[i].ptrs[0] == p;
  }

  lemma FullRoot(t: Table, k: nat)
    requires Chain(t) && Linked(t, k) && k < 128
    ensures CreateRefused(t, ROOT, LinkName(k), true).None? && LinkName(k) !in EntriesAt(t, ROOT)
  {
    LinkNames(k, k);
    NotRefused(t, ROOT, LinkName(k), true);
  }

  lemma ChainKept(t: Table, i: nat, v: Node)
    requires Chain(t) && i > 14
    ensures Chain(t[i := v]) && EntriesAt(t[i := v], ROOT) == EntriesAt(t, ROOT)
  {
  }

  /** "g" gives a block back; `mkdir` in the full root takes it, finds none to append to the root, and fails. */
  method Fail(ns: N.Namespace, ft: byte, k: nat)
    requires Filling(ns, k) && k < 128 && !Fits(ns.records, ns.store, ROOT, LinkName(k))
    modifies ns
    ensures Left(ns) && Full(ns, LinkName(k)) && Chain(ns.View()) && 14 in ns.View() && ns.View()[14].Leaf? && ns.freeBlocks == {LEFT}
    ensures PlacedBelow(ns.records) && FreeFrom(ns.free, 15, INODES)
  {
    hide Inv, See, Sane, Apart, D.ValidateName, D.RoomIn, D.Finding, D.Landing, Slots, Receiver, Touched, Fits, FreshAt, Load, CreateRefusal, CreateRefused, AddAnswer,
      Welcome, Stays, First, FreeFrom, Owned, IsCreated, BlocksAt, RecordOk, DotsInFront, ViewOf, LinkName, Lookup, EntriesAt, Chain, Linked, PlacedBelow;
    ghost var t, rs := ns.View(), ns.records;
    OwnedInUse(ns.records, ns.store, ns.freeBlocks, ns.stale, {});
    ns.OthersWrite(ns.store, {LEFT});
    ghost var st := ns.store;
    FullRoot(t, k);
    LinkNames(k, k);
    TakeFirst(ns.free, 15, INODES);
    FirstIs(ns.freeBlocks, LEFT);
    assert ns.freeBlocks - {LEFT} == {};
    var r := ns.Mkdir(ROOT, LinkName(k), ft, Append(ns.freeBlocks - {First(ns.freeBlocks)}), First(ns.freeBlocks), First(ns.free));
    OnlyPtr(rs, ROOT, 9);
    FitsSame(rs, ns.records, st, ns.store, {LEFT}, ROOT, LinkName(k));
    ChainKept(t, 15, Dir(map[], 0));
    PlacedSame(rs, 15, DirRecord([LEFT], 2));
  }

  // ---- lower inodes become free ------------------------------------------------------------------------

  /** "lost+found" is empty, and inodes 12 and 13 are free, with their blocks. */
  ghost predicate Ready(ns: N.Namespace, n: Name)
    reads ns
  {
    12 in ns.free && 13 in ns.free && (forall x <- ns.free :: 12 <= x) && ns.freeBlocks == {11, 12, LEFT} && 12 in ns.records
    && Fits(ns.records, ns.store, 11, NAME_D) && Bare(ns.View()) && Full(ns, n) && Left(ns)
  }

  ghost predicate Bare(t: Table) {
    Lookup(t, ROOT, LOST) == Some(11) && Links(t, ROOT) == 3 && 11 in t && t[11] == Dir(map[DOT := 11, DOTDOT := ROOT], 2)
  }

  /** The chain without its last directory. */
  ghost predicate Shorter(t: Table) {
    && Lookup(t, ROOT, LOST) == Some(11) && Links(t, ROOT) == 3
    && 11 in t && t[11] == Dir(map[DOT := 11, DOTDOT := ROOT, NAME_D := 12], 3) && 12 in t && t[12] == Dir(map[DOT := 12, DOTDOT := 11], 2)
  }

  lemma CleanFile(t: Table, f: set<nat>, t1: Table, f1: set<nat>)
    requires Chain(t) && 14 in t && t[14].Leaf?
    ensures UnlinkRefused(t, 13, NAME_G).None? && Lookup(t, 13, NAME_G) == Some(14)
    ensures IsDropped(t, f, t1, f1, 13, NAME_G) ==>
      && RmdirRefused(t1, 12, NAME_D).None? && Lookup(t1, 12, NAME_D) == Some(13) && f <= f1 <= f + {14} && EntriesAt(t1, ROOT) == EntriesAt(t, ROOT) && 12 in t && 11 in t
      && LiveDir(t1, 13) && 12 in t1 && t1[12] == t[12] && 11 in t1 && t1[11] == t[11] && ROOT in t1 && ROOT in t && t1[ROOT] == t[ROOT]
  {
    Names();
    if IsDropped(t, f, t1, f1, 13, NAME_G) { assert t1[13] == Dir(map[DOT := 13, DOTDOT := 12], 2); }
  }

  lemma CleanLast(t: Table, t1: Table, t2: Table)
    requires Chain(t) && 12 in t1 && 12 in t && t1[12] == t[12] && 11 in t1 && 11 in t && t1[11] == t[11] && ROOT in t1 && ROOT in t && t1[ROOT] == t[ROOT]
    requires IsRemoved(t1, t2, 12, NAME_D)
    ensures Shorter(t2) && EntriesAt(t2, ROOT) == EntriesAt(t, ROOT) && Lookup(t2, 11, NAME_D) == Some(12) && RmdirRefused(t2, 11, NAME_D).None? && LiveDir(t2, 12)
  {
    Names();
    assert t2[12].entries == map[DOT := 12, DOTDOT := 11];
  }

  lemma CleanFirst(t2: Table, t3: Table)
    requires Shorter(t2) && IsRemoved(t2, t3, 11, NAME_D)
    ensures Bare(t3) && EntriesAt(t3, ROOT) == EntriesAt(t2, ROOT)
  {
    Names();
    assert t3[11].entries == map[DOT := 11, DOTDOT := ROOT];
  }

  /** A directory in use has its first block on the device. */
  lemma HomeStored(ns: N.Namespace, i: nat, p: nat)
    requires ns.Valid() && i in ns.records && i !in ns.stale && ns.records[i].DirRecord? && ns.records[i].ptrs == [p] && LiveDir(ns.View(), i)
    ensures p in ns.store
  {
    hide See, Sane, Apart, RecordOk;
    ns.Facts(i);
  }

  /** The name of "g" in the last directory goes. */
  method CleanOne(ns: N.Namespace, n: Name)
    requires Left(ns) && Full(ns, n) && Chain(ns.View()) && 14 in ns.View() && ns.View()[14].Leaf? && ns.freeBlocks == {LEFT}
    requires PlacedBelow(ns.records) && FreeFrom(ns.free, 15, INODES)
    modifies ns
    ensures Left(ns) && Full(ns, n) && IsDropped(old(ns.View()), old(ns.free), ns.View(), ns.free, 13, NAME_G) && ns.freeBlocks == {LEFT} && PlacedBelow(ns.records)
  {
    hide Inv, See, Sane, Apart, D.ValidateName, D.RoomIn, D.Finding, D.Landing, Slots, Receiver, Touched, Fits, FreshAt, Load, CreateRefusal, CreateRefused, AddAnswer,
      Welcome, Stays, First, FreeFrom, Owned, IsCreated, BlocksAt, RecordOk, DotsInFront, ViewOf, Lookup, EntriesAt, Chain, UnlinkRefused, UnlinkRefusal, RmdirRefused, Holder, IsDropped, LiveDir, IsRemoved;
    ghost var t, f, rs, st := ns.View(), ns.free, ns.records, ns.store;
    CleanFile(t, f, t, f);
    ns.FindsThere(13, NAME_G);
    OnlyPtr(rs, ROOT, 9);
    OnlyPtr(rs, 13, 12);
    var a := ns.Unlink(13, NAME_G);
    CleanFile(t, f, ns.View(), ns.free);
    FitsSame(rs, ns.records, st, ns.store, {12}, ROOT, n);
    FreshSame(1024, rs, ns.records, st, ns.store, {12}, 15, ROOT, LEFT);
  }

  /** `rmdir` of the last directory, then of the one before: directory and block become free. */
  method CleanNext(ns: N.Namespace, n: Name, d: nat, i: nat)
    requires Left(ns) && Full(ns, n) && RmdirRefused(ns.View(), d, NAME_D).None? && Lookup(ns.View(), d, NAME_D) == Some(i) && LiveDir(ns.View(), i)
    requires (d, i) == (12, 13) || (d, i) == (11, 12)
    requires d in ns.records && ns.records[d].DirRecord? && ns.records[d].ptrs == [d - 1]
    requires i in ns.records && ns.records[i].DirRecord? && ns.records[i].ptrs == [i - 1]
    modifies ns
    ensures ns.Valid() && ns.TreeOk() && ns.bs == 1024 && ns.first == 11 && ns.stale == {15} && IsRemoved(old(ns.View()), ns.View(), d, NAME_D)
    ensures ns.free == old(ns.free) + {i} && ns.freeBlocks == old(ns.freeBlocks) + {i - 1} && Fits(ns.records, ns.store, d, NAME_D)
    ensures 15 in ns.records && ns.records[15] == DirRecord([LEFT], 2) && FreshAt(1024, ns.records, ns.store, 15, ROOT) && Placed(ns.records)
    ensures !Fits(ns.records, ns.store, ROOT, n) && ns.records.Keys == old(ns.records.Keys)
    ensures d in ns.records && ns.records[d].DirRecord? && ns.records[d].ptrs == [d - 1]
  {
    hide Inv, See, Sane, Apart, D.ValidateName, D.RoomIn, D.Finding, D.Landing, Slots, Receiver, Touched, Fits, FreshAt, Load, CreateRefusal, CreateRefused, AddAnswer,
      Welcome, Stays, First, FreeFrom, Owned, IsCreated, BlocksAt, RecordOk, DotsInFront, ViewOf, Lookup, EntriesAt, RmdirRefused, Holder, IsRemoved, LiveDir;
    ghost var rs, st := ns.records, ns.store;
    HomeStored(ns, i, i - 1);
    ns.FindsThere(d, NAME_D);
    OnlyPtr(rs, ROOT, 9);
    OnlyPtr(rs, d, d - 1);
    OnlyPtr(rs, i, i - 1);
    var b := ns.Rmdir(d, NAME_D);
    SameKeys(st, ns.store, {d - 1}, i - 1);
    FitsSame(rs, ns.records, st, ns.store, {d - 1}, ROOT, n);
    FreshSame(1024, rs, ns.records, st, ns.store, {d - 1}, 15, ROOT, LEFT);
  }

  method Clean(ns: N.Namespace, n: Name)
    requires Left(ns) && Full(ns, n) && Chain(ns.View()) && 14 in ns.View() && ns.View()[14].Leaf? && ns.freeBlocks == {LEFT}
    requires PlacedBelow(ns.records) && FreeFrom(ns.free, 15, INODES)
    modifies ns
    ensures Ready(ns, n)
  {
    hide Inv, See, Sane, Apart, D.ValidateName, D.RoomIn, D.Finding, D.Landing, Slots, Receiver, Touched, Fits, FreshAt, Load, CreateRefusal, CreateRefused, AddAnswer,
      Welcome, Stays, First, Owned, IsCreated, BlocksAt, RecordOk, DotsInFront, ViewOf, Lookup, EntriesAt, RmdirRefused, Chain, Shorter, Bare, IsDropped, IsRemoved, LiveDir;
    ghost var t, f := ns.View(), ns.free;
    CleanOne(ns, n);
    ghost var t1 := ns.View();
    CleanFile(t, f, t1, ns.free);
    CleanNext(ns, n, 12, 13);
    ghost var t2 := ns.View();
    CleanLast(t, t1, t2);
    CleanNext(ns, n, 11, 12);
    CleanFirst(t2, ns.View());
  }

  method Prepare(ft: byte) returns (ns: N.Namespace, n: Name)
    ensures fresh(ns) && Ready(ns, n)
  {
    hide Filling, Left, Full, Chain, Ready, Fits, LinkName, PlacedBelow, FreeFrom;
    ns := Start(ft);
    var k := Fill(ns, ft);
    Fail(ns, ft, k);
    n := LinkName(k);
    Clean(ns, n);
  }

  // ---- a name that nobody receives -----------------------------------------------------------------------

  /** What a search finds in a directory as `mkdir` writes it, whoever reads its block. */
  lemma FreshSearch(bs: nat, records: Records, store: Store, i: nat, parent: nat, dir: nat, n: Name, grow: Result<nat>, p: nat)
    requires FreshAt(bs, records, store, i, parent) && records[i] == DirRecord([p], 2) && dir in records && records[dir] == DirRecord([p], 2)
    requires |n| <= MAX_NAME && !Dots(n) && D.ValidateName(n).None?
    ensures CreateRefusal(records, store, dir, n, false).None? && AddAnswer(records, store, dir, n, grow) == Ok(())
    ensures D.Landing(Slots(store, [p]), n) == Ok(0)
  {
    hide RecordOk, DotsInFront, ViewOf, D.RoomIn, D.Finding, D.Landing, D.ValidateName;
    var v := Load(store, records[i]);
    FindsView(bs, v, n);
    LandsView(bs, v, n);
  }

  /** `create` through the leftover is accepted, and the new file is lost. */
  method CreateLost(ns: N.Namespace, n: Name, ft: byte) returns (r: Result<nat>)
    requires Ready(ns, n)
    modifies ns
    ensures r == Ok(12) && !(ns.Valid() && ns.TreeOk())
  {
    hide Inv, See, Sane, Apart, D.ValidateName, D.RoomIn, D.Finding, D.Landing, Slots, Touched, Fits, FreshAt, Load, CreateRefusal, CreateRefused, AddAnswer,
      Stays, First, Owned, IsCreated, BlocksAt, RecordOk, DotsInFront, ViewOf, Lookup, EntriesAt, Bare, Full, LiveDir;
    Names();
    FirstIs(ns.free, 12);
    FreshSearch(1024, ns.records, ns.store, 15, ROOT, 15, NAME_F, Append(ns.freeBlocks), LEFT);
    ns.InStore(LEFT);
    FreeNotOwned(ns.records, ns.store, ns.freeBlocks, ns.stale, LEFT);
    r := ns.Create(15, NAME_F, ft, Append(ns.freeBlocks), First(ns.free));
  }

  // ---- a directory that takes over the block --------------------------------------------------------------

  /** Directory 12 owns block `LEFT`, at which the leftover still points; inode 13 is the first free one, and
      block 11 belongs to a file. */
  ghost predicate Adopted(ns: N.Namespace)
    reads ns
  {
    && ns.Valid() && ns.TreeOk() && ns.bs == 1024 && ns.first == 11 && ns.stale == {15} && ns.freeBlocks == {} && Least(ns.free, 13)
    && 15 in ns.records && ns.records[15] == DirRecord([LEFT], 2) && 12 in ns.records && ns.records[12] == DirRecord([LEFT], 2) && LEFT in ns.store
    && !Owned(ns.records, {15}, 11) && 11 in ns.store
    && FreshAt(1024, ns.records, ns.store, 12, 11) && 12 in ns.View() && ns.View()[12] == Dir(map[DOT := 12, DOTDOT := 11], 2)
  }

  lemma AdoptTable(t: Table, t': Table)
    requires Bare(t)
    ensures CreateRefused(t, 11, NAME_D, true).None?
    ensures IsCreated(t, t', 11, NAME_D, 12, true) ==> 12 in t' && t'[12] == Dir(map[DOT := 12, DOTDOT := 11], 2)
  {
    Names();
    NotRefused(t, 11, NAME_D, true);
    if IsCreated(t, t', 11, NAME_D, 12, true) { CreatedNodes(t, 11, NAME_D, 12, true, ROOT); }
  }

  /** A block that nobody owns stays so when a directory takes another. */
  lemma StillUnowned(records: Records, stale: set<nat>, i: nat, q: nat, d: nat, p: nat)
    requires !Owned(records, stale, p) && p != q
    ensures !Owned(BumpedAt(records[i := DirRecord([q], 2)], d, 1), stale, p)
  {
    var rs := records[i := DirRecord([q], 2)];
    var rs' := BumpedAt(rs, d, 1);
    forall j: nat, k: nat ensures !Owns(rs', stale, j, k, p) {
      Bump(rs, d, 1, j);
      assert !Owns(records, stale, j, k, p);
    }
  }

  /** A file takes blocks 11 and 12; `mkdir` in "lost+found" takes inode 12 and block `LEFT`. */
  method Adopt(ns: N.Namespace, n: Name, ft: byte)
    requires Ready(ns, n)
    modifies ns
    ensures Adopted(ns)
  {
    hide Inv, See, Sane, Apart, D.ValidateName, D.RoomIn, D.Finding, D.Landing, Slots, Touched, Fits, FreshAt, Load, CreateRefusal, CreateRefused, AddAnswer,
      Stays, First, Owned, IsCreated, BlocksAt, RecordOk, DotsInFront, ViewOf, Lookup, EntriesAt, Bare, Full, LiveDir;
    ghost var t, rs := ns.View(), ns.records;
    AdoptTable(t, t);
    Names();
    OwnedInUse(ns.records, ns.store, ns.freeBlocks, ns.stale, {LEFT});
    ns.InStore(11);
    ns.InStore(LEFT);
    FreeNotOwned(ns.records, ns.store, ns.freeBlocks, ns.stale, 11);
    ns.OthersWrite(ns.store, {LEFT});
    ghost var st, f := ns.store, ns.free;
    FirstIs(ns.free, 12);
    FirstIs(ns.freeBlocks, LEFT);
    assert ns.freeBlocks - {LEFT} == {};
    ns.AnswerIs(11, NAME_D, Append({}));
    var r := ns.Mkdir(11, NAME_D, ft, Append(ns.freeBlocks - {First(ns.freeBlocks)}), First(ns.freeBlocks), First(ns.free));
    AdoptTable(t, ns.View());
    Bump(rs[12 := DirRecord([LEFT], 2)], 11, 1, 12);
    Bump(rs[12 := DirRecord([LEFT], 2)], 11, 1, 15);
    StillUnowned(rs, {15}, 12, LEFT, 11, 11);
    SameKeys(st, ns.store, BlocksAt(rs, 11) + {LEFT}, LEFT);
    SameKeys(st, ns.store, BlocksAt(rs, 11) + {LEFT}, 11);
    assert Least(f - {12}, 13);
  }

  /** Who is behind the block of the leftover. */
  lemma BehindLeftover(ns: N.Namespace, n: Name)
    requires Adopted(ns) && D.Landing(Slots(ns.store, [LEFT]), n) == Ok(0)
    ensures Receiver(ns.records, ns.store, ns.stale, 15, n) == Some(12)
  {
    hide Inv, See, Sane, FreshAt, D.Landing, Slots;
    assert Owns(ns.records, ns.stale, 12, 0, LEFT);
    BehindIs(ns.records, ns.store, ns.freeBlocks, ns.stale, 15, 0, 12, 0);
  }

  /** `create` through the leftover puts the name into the other directory, and the tree survives. */
  method CreateAdopted(ns: N.Namespace, ft: byte) returns (r: Result<nat>)
    requires Adopted(ns)
    modifies ns
    ensures r == Ok(13) && ns.Valid() && ns.TreeOk() && ns.stale == {15}
  {
    hide Inv, See, Sane, Apart, D.ValidateName, D.RoomIn, D.Finding, D.Landing, Slots, Touched, Fits, FreshAt, Load, CreateRefusal, CreateRefused, AddAnswer,
      Stays, First, Owned, IsCreated, BlocksAt, RecordOk, DotsInFront, ViewOf, Lookup, Receiver;
    Names();
    FirstIs(ns.free, 13);
    FreshSearch(1024, ns.records, ns.store, 12, 11, 15, NAME_F, Append(ns.freeBlocks), LEFT);
    BehindLeftover(ns, NAME_F);
    assert ns.View()[12] == Dir(map[DOT := 12, DOTDOT := 11], 2);
    r := ns.Create(15, NAME_F, ft, Append(ns.freeBlocks), First(ns.free));
    assert {15} - {13} == {15};
  }

  lemma SubTable(t: Table, t': Table)
    requires 12 in t && t[12] == Dir(map[DOT := 12, DOTDOT := 11], 2)
    ensures CreateRefused(t, 12, NAME_E, true).None?
    ensures IsCreated(t, t', 12, NAME_E, 13, true) ==> Lookup(t', 12, NAME_E) == Some(13) && EmptyDir(t', 13)
  {
    Names();
    NotRefused(t, 12, NAME_E, true);
    if IsCreated(t, t', 12, NAME_E, 13, true) { CreatedNodes(t, 12, NAME_E, 13, true, ROOT); }
  }

  /** The file gives block 11 back, and `mkdir` makes "e" in the other directory; then `rmdir` of "e"
      through the leftover succeeds, and the tree is broken. */
  method RmdirBreaks(ns: N.Namespace, ft: byte) returns (r: Result<()>)
    requires Adopted(ns)
    modifies ns
    ensures r == Ok(()) && !ns.TreeOk()
  {
    hide Inv, See, Sane, Apart, D.ValidateName, D.RoomIn, D.Finding, D.Landing, Slots, Touched, Fits, FreshAt, Load, CreateRefusal, CreateRefused, AddAnswer,
      Stays, First, Owned, IsCreated, BlocksAt, RecordOk, DotsInFront, ViewOf, Lookup, EntriesAt, Receiver, EmptyDir;
    ghost var t, rs := ns.View(), ns.records;
    OwnedInUse(ns.records, ns.store, ns.freeBlocks, ns.stale, {});
    ns.OthersWrite(ns.store, {11});
    Names();
    SubTable(t, t);
    FreshFits(1024, ns.records, ns.store, 12, 11, NAME_E);
    FirstIs(ns.free, 13);
    FirstIs(ns.freeBlocks, 11);
    assert ns.freeBlocks - {11} == {};
    ns.AnswerIs(12, NAME_E, Append({}));
    var a := ns.Mkdir(12, NAME_E, ft, Append(ns.freeBlocks - {First(ns.freeBlocks)}), First(ns.freeBlocks), First(ns.free));
    SubTable(t, ns.View());
    Bump(rs[13 := DirRecord([11], 2)], 12, 1, 12);
    Bump(rs[13 := DirRecord([11], 2)], 12, 1, 15);
    ns.FindsThere(12, NAME_E);
    SamePtrs(ns.records, ns.store, 12, 15, NAME_E);
    assert {15} - {13} == {15};
    r := ns.Rmdir(15, NAME_E);
    if r.Ok? { r := Ok(()); }
  }

  lemma SamePtrs(records: Records, store: Store, i: nat, j: nat, n: Name)
    requires i in records && j in records && records[i].DirRecord? && records[j].DirRecord? && records[i].ptrs == records[j].ptrs
    ensures Found(records, store, i, n) == Found(records, store, j, n)
  {
  }

  // ---- a parent walk without end ----------------------------------------------------------------------------

  /** A block that reads as a directory with parent `to`. */
  lemma ForgedUp(bs: nat, records: Records, store: Store, i: nat, p: nat, b: seq<byte>, to: nat)
    requires FreshRecord(bs, DirInode([Some(b)], 2), i, to) && i in records && records[i] == DirRecord([p], 2) && p in store && store[p] == b
    ensures Up(records, store, i) == Ok(to)
  {
    hide RecordOk, DotsInFront, ViewOf, D.RoomIn, D.Finding;
    assert Slots(store, [p]) == [Some(b)];
    FindsView(bs, DirInode([Some(b)], 2), DOTDOT);
    Names();
  }

  lemma {:induction false} RoundAndRound(records: Records, store: Store, k: nat)
    requires Up(records, store, 15) == Ok(12) && Up(records, store, 12) == Ok(15)
    ensures !Stops(records, store, 15, 11, k) && !Stops(records, store, 12, 11, k)
  {
    hide Up;
    if k > 0 { RoundAndRound(records, store, k - 1); }
  }

  /** Files take blocks 11 and `LEFT`, and the bytes of a directory are written to the latter; `mkdir` in the full root
      fails once more, now with inode 12 and block 12, and the same is done with that block. The two
      leftovers are each other's parents: `rename` of "lost+found" to a name in either would never return. */
  method EndlessWalk(ns: N.Namespace, n: Name, ft: byte)
    requires Ready(ns, n)
    modifies ns
    ensures ns.Valid() && ns.TreeOk() && ns.stale == {12, 15} && Lookup(ns.View(), ROOT, LOST) == Some(11) && IsDir(ns.View(), 11)
    ensures 15 in ns.records && ns.records[15].DirRecord? && FoundIno(ns.records, ns.store, ROOT, LOST) == 11 && !WalkEnds(ns.records, ns.store, 15, 11)
  {
    hide Inv, See, Sane, Apart, D.ValidateName, D.RoomIn, D.Finding, D.Landing, Slots, Touched, Fits, FreshAt, Load, CreateRefusal, CreateRefused, AddAnswer,
      Stays, First, Owned, IsCreated, BlocksAt, RecordOk, DotsInFront, ViewOf, EntriesAt, FreshRecord, Up, Placed;
    ghost var t, rs, st := ns.View(), ns.records, ns.store;
    RootAt(rs);
    BareFacts(t, n);
    var b := FreshIn(1024, 15, 12, ft);
    TakeBlock(ns, LEFT, b, {12});
    OnlyPtr(rs, ROOT, 9);
    FitsSame(rs, rs, st, ns.store, {LEFT}, ROOT, n);
    ghost var st1 := ns.store;
    FirstIs(ns.free, 12);
    FirstIs(ns.freeBlocks, 12);
    assert ns.freeBlocks - {12} == {};
    var r := ns.Mkdir(ROOT, n, ft, Append(ns.freeBlocks - {First(ns.freeBlocks)}), First(ns.freeBlocks), First(ns.free));
    SameAt(st1, ns.store, {12}, LEFT);
    var c := FreshIn(1024, 12, 15, ft);
    TakeBlock(ns, 12, c, {});
    ForgedUp(1024, ns.records, ns.store, 15, LEFT, b, 12);
    ForgedUp(1024, ns.records, ns.store, 12, 12, c, 15);
    forall k: nat ensures !Stops(ns.records, ns.store, 15, 11, k) { RoundAndRound(ns.records, ns.store, k); }
    ns.FindsThere(ROOT, LOST);
    assert {15} + {12} == {12, 15};
  }

  /** A file takes a free block and is written to; `rest` of the free blocks stay free. */
  method TakeBlock(ns: N.Namespace, p: nat, b: seq<byte>, rest: set<nat>)
    requires ns.Valid() && p in ns.freeBlocks && p !in rest && rest <= ns.freeBlocks && |b| == ns.bs
    modifies ns
    ensures ns.Valid() && ns.View() == old(ns.View()) && ns.store == old(ns.store)[p := b] && ns.freeBlocks == rest && p in ns.store
    ensures ns.records == old(ns.records) && ns.free == old(ns.free) && ns.stale == old(ns.stale) && Touched(old(ns.store), ns.store, {p})
  {
    hide See, Sane, Apart, Owned;
    OwnedInUse(ns.records, ns.store, ns.freeBlocks, ns.stale, ns.freeBlocks);
    ns.InStore(p);
    ns.OthersWrite(ns.store[p := b], rest);
  }

  lemma SameAt(store: Store, store': Store, blocks: set<nat>, p: nat)
    requires Touched(store, store', blocks) && p in store && p !in blocks
    ensures p in store' && store'[p] == store[p]
  {
  }

  lemma RootAt(records: Records)
    requires Placed(records)
    ensures ROOT in records && records[ROOT].DirRecord? && records[ROOT].ptrs == [9]
  {
  }

  lemma BareFacts(t: Table, n: Name)
    requires Bare(t) && n !in EntriesAt(t, ROOT) && D.ValidateName(n).None?
    ensures CreateRefused(t, ROOT, n, true).None? && IsDir(t, 11)
  {
    Names();
    NotRefused(t, ROOT, n, true);
  }
}
