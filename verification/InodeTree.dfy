/** The fifteen block pointers of an inode: twelve direct, one each of depth 1, 2 and 3. */
module InodeTree {
  import opened BlockTree
  import opened PruneTree

  const SLOTS: nat := 15
  const DIRECT: nat := 12

  function Depth(slot: nat): nat {
    if slot < DIRECT then 0 else slot - (DIRECT - 1)
  }

  /** The first file block reached through a slot. */
  function Base(ppb: nat, slot: nat): nat {
    if slot <= DIRECT then slot
    else if slot == DIRECT + 1 then DIRECT + ppb
    else DIRECT + ppb + ppb * ppb
  }

  /** Where `bmap` looks for a file block: the slot and the index below it. */
  datatype Place = Beyond | At(slot: nat, rel: nat)

  function Locate(ppb: nat, lblk: nat): Place {
    if lblk < DIRECT then At(lblk, 0)
    else
      var rel := lblk - DIRECT;
      if rel < ppb then At(12, rel)
      else if rel - ppb < ppb * ppb then At(13, rel - ppb)
      else if rel - ppb - ppb * ppb < ppb * ppb * ppb then At(14, rel - ppb - ppb * ppb)
      else Beyond
  }

  lemma Spans(ppb: nat)
    requires ppb > 0
    ensures Span(ppb, 0) == 1 && Span(ppb, 1) == ppb && Span(ppb, 2) == ppb * ppb && Span(ppb, 3) == ppb * ppb * ppb
  {
    assert Span(ppb, 1) == ppb * Span(ppb, 0);
    assert Span(ppb, 2) == ppb * Span(ppb, 1);
    assert Span(ppb, 3) == ppb * (ppb * ppb) == ppb * ppb * ppb;
  }

  /** The place determines the file block and lies inside the slot's tree. */
  lemma LocateBase(ppb: nat, lblk: nat)
    requires ppb > 0 && Locate(ppb, lblk).At?
    ensures var pl := Locate(ppb, lblk);
            pl.slot < SLOTS && pl.rel < Span(ppb, Depth(pl.slot)) && lblk == Base(ppb, pl.slot) + pl.rel
  {
    Spans(ppb);
  }

  /** The data block behind a file block, or 0 for a hole. */
  function FileMap(d: Disk, ptrs: seq<nat>, lblk: nat): nat
    requires |ptrs| == SLOTS
  {
    var pl := Locate(d.ppb, lblk);
    if pl.Beyond? then 0 else SlotBound(d.ppb, lblk); Map(d, ptrs[pl.slot], Depth(pl.slot), pl.rel)
  }

  lemma SlotBound(ppb: nat, lblk: nat)
    ensures Locate(ppb, lblk).At? ==> Locate(ppb, lblk).slot < SLOTS
  {
  }

  /** The blocks under the first `n` slots. */
  ghost function Slots(d: Disk, ptrs: seq<nat>, n: nat, part: Part): multiset<nat>
    requires n <= |ptrs|
  {
    if n == 0 then multiset{} else Slots(d, ptrs, n - 1, part) + Blocks(d, ptrs[n - 1], Depth(n - 1), part)
  }

  /** All blocks of a file: data and indirect. */
  ghost function FileTree(d: Disk, ptrs: seq<nat>): multiset<nat>
    requires |ptrs| == SLOTS
  {
    Slots(d, ptrs, SLOTS, Indirect) + Slots(d, ptrs, SLOTS, Data)
  }

  lemma {:induction false} SlotSub(d: Disk, ptrs: seq<nat>, n: nat, part: Part, i: nat)
    requires i < n <= |ptrs|
    ensures Blocks(d, ptrs[i], Depth(i), part) <= Slots(d, ptrs, n, part)
    decreases n
  {
    hide Blocks;
    if i < n - 1 { SlotSub(d, ptrs, n - 1, part, i); }
  }

  lemma {:induction false} SlotPair(d: Disk, ptrs: seq<nat>, n: nat, part: Part, i: nat, j: nat)
    requires i < j < n <= |ptrs|
    ensures Blocks(d, ptrs[i], Depth(i), part) + Blocks(d, ptrs[j], Depth(j), part) <= Slots(d, ptrs, n, part)
    decreases n
  {
    hide Blocks;
    if j < n - 1 { SlotPair(d, ptrs, n - 1, part, i, j); } else { SlotSub(d, ptrs, n - 1, part, i); }
  }

  lemma {:induction false} SlotsCongruent(d: Disk, ptrs: seq<nat>, d': Disk, ptrs': seq<nat>, n: nat, part: Part)
    requires n <= |ptrs| && n <= |ptrs'|
    requires forall i :: 0 <= i < n ==> Blocks(d, ptrs[i], Depth(i), part) == Blocks(d', ptrs'[i], Depth(i), part)
    ensures Slots(d, ptrs, n, part) == Slots(d', ptrs', n, part)
    decreases n
  {
    hide Blocks;
    if n > 0 { SlotsCongruent(d, ptrs, d', ptrs', n - 1, part); }
  }

  lemma {:induction false} SlotExchange(d: Disk, ptrs: seq<nat>, d': Disk, ptrs': seq<nat>, n: nat, part: Part, i: nat)
    requires i < n <= |ptrs| && n <= |ptrs'|
    requires forall j :: 0 <= j < n && j != i ==> Blocks(d, ptrs[j], Depth(j), part) == Blocks(d', ptrs'[j], Depth(j), part)
    ensures Slots(d, ptrs, n, part) + Blocks(d', ptrs'[i], Depth(i), part)
            == Slots(d', ptrs', n, part) + Blocks(d, ptrs[i], Depth(i), part)
    decreases n
  {
    hide Blocks;
    if i < n - 1 {
      SlotExchange(d, ptrs, d', ptrs', n - 1, part, i);
      SumsExchange(Slots(d, ptrs, n - 1, part), Blocks(d', ptrs'[i], Depth(i), part),
                   Slots(d', ptrs', n - 1, part), Blocks(d, ptrs[i], Depth(i), part),
                   Blocks(d, ptrs[n - 1], Depth(n - 1), part));
    } else {
      SlotsCongruent(d, ptrs, d', ptrs', n - 1, part);
    }
  }

  // ---- framing ------------------------------------------------------------------------

  /** Two inodes on two devices hold the same file. */
  ghost predicate SameFile(d: Disk, ptrs: seq<nat>, d': Disk, ptrs': seq<nat>)
    requires |ptrs| == |ptrs'| == SLOTS
  {
    && (forall part :: Slots(d', ptrs', SLOTS, part) == Slots(d, ptrs, SLOTS, part))
    && (forall l: nat :: FileMap(d', ptrs', l) == FileMap(d, ptrs, l))
  }

  lemma SlotsSame(d: Disk, ptrs: seq<nat>, d': Disk, ptrs': seq<nat>)
    requires |ptrs| == |ptrs'| == SLOTS && d.ppb == d'.ppb
    requires forall i :: 0 <= i < SLOTS ==> SameTree(d, ptrs[i], d', ptrs'[i], Depth(i))
    ensures SameFile(d, ptrs, d', ptrs')
  {
    hide Blocks, Map, SameTree, Locate, Depth, Slots;
    forall part ensures Slots(d', ptrs', SLOTS, part) == Slots(d, ptrs, SLOTS, part) {
      forall i | 0 <= i < SLOTS
        ensures Blocks(d, ptrs[i], Depth(i), part) == Blocks(d', ptrs'[i], Depth(i), part)
      {
        SameBlocks(d, ptrs[i], d', ptrs'[i], Depth(i), part);
      }
      SlotsCongruent(d, ptrs, d', ptrs', SLOTS, part);
    }
    forall l: nat ensures FileMap(d', ptrs', l) == FileMap(d, ptrs, l) {
      var pl := Locate(d.ppb, l);
      if pl.At? {
        LocateBase(d.ppb, l);
        SameMap(d, ptrs[pl.slot], d', ptrs'[pl.slot], Depth(pl.slot), pl.rel);
      }
    }
  }

  lemma SameMap(d: Disk, p: nat, d': Disk, p': nat, depth: nat, idx: nat)
    requires SameTree(d, p, d', p', depth) && idx < Span(d.ppb, depth)
    ensures Map(d', p', depth, idx) == Map(d, p, depth, idx)
  {
  }

  /** Writing outside a file's indirect blocks leaves its block map. */
  lemma FileFrame(d: Disk, d': Disk, s: set<nat>, ptrs: seq<nat>)
    requires |ptrs| == SLOTS && SameOutside(d, d', s) && Apart(Slots(d, ptrs, SLOTS, Indirect), s)
    ensures SameFile(d, ptrs, d', ptrs)
  {
    hide Blocks, Map, SameTree, Locate, Depth, Slots, SameFile;
    forall i | 0 <= i < SLOTS ensures SameTree(d, ptrs[i], d', ptrs[i], Depth(i)) {
      SlotSub(d, ptrs, SLOTS, Indirect, i);
      ApartSub(Blocks(d, ptrs[i], Depth(i), Indirect), Slots(d, ptrs, SLOTS, Indirect), s);
      FrameOutside(d, d', s, ptrs[i], Depth(i));
    }
    SlotsSame(d, ptrs, d', ptrs);
  }

  // ---- a file block names one data block ------------------------------------------------

  lemma FileMapIsData(d: Disk, ptrs: seq<nat>, l: nat)
    requires |ptrs| == SLOTS && FileMap(d, ptrs, l) != 0
    ensures FileMap(d, ptrs, l) in Slots(d, ptrs, SLOTS, Data)
  {
    hide Blocks, Map, Locate, Depth, Slots;
    var pl := Locate(d.ppb, l);
    LocateBase(d.ppb, l);
    MapIsData(d, ptrs[pl.slot], Depth(pl.slot), pl.rel);
    SlotSub(d, ptrs, SLOTS, Data, pl.slot);
  }

  lemma FileMapInjective(d: Disk, ptrs: seq<nat>, l: nat, m: nat)
    requires |ptrs| == SLOTS && NoDup(Slots(d, ptrs, SLOTS, Data))
    requires FileMap(d, ptrs, l) == FileMap(d, ptrs, m) != 0
    ensures l == m
  {
    hide Blocks, Map, Locate, Depth, Slots;
    var pl, pm, x := Locate(d.ppb, l), Locate(d.ppb, m), FileMap(d, ptrs, l);
    LocateBase(d.ppb, l);
    LocateBase(d.ppb, m);
    MapIsData(d, ptrs[pl.slot], Depth(pl.slot), pl.rel);
    MapIsData(d, ptrs[pm.slot], Depth(pm.slot), pm.rel);
    SlotsApart(d, ptrs, pl.slot, pm.slot, x);
    SlotSub(d, ptrs, SLOTS, Data, pl.slot);
    NoDupSub(Blocks(d, ptrs[pl.slot], Depth(pl.slot), Data), Slots(d, ptrs, SLOTS, Data));
    MapInjective(d, ptrs[pl.slot], Depth(pl.slot), pl.rel, pm.rel);
  }

  lemma SlotsApart(d: Disk, ptrs: seq<nat>, i: nat, j: nat, x: nat)
    requires |ptrs| == SLOTS && i < SLOTS && j < SLOTS && NoDup(Slots(d, ptrs, SLOTS, Data))
    requires x in Blocks(d, ptrs[i], Depth(i), Data) && x in Blocks(d, ptrs[j], Depth(j), Data)
    ensures i == j
  {
    hide Blocks, Depth, Slots;
    if i < j { SlotPair(d, ptrs, SLOTS, Data, i, j); }
    if j < i { SlotPair(d, ptrs, SLOTS, Data, j, i); }
    assert Slots(d, ptrs, SLOTS, Data)[x] <= 1;
  }

  // ---- growing and pruning a file ----------------------------------------------------------

  /** The file gained exactly the zeroed block `n`: as the data block of `l`, or as an empty
      indirect block that changes no lookup. */
  ghost predicate FileGrown(d: Disk, ptrs: seq<nat>, d': Disk, ptrs': seq<nat>, l: nat, k: nat, n: nat)
    requires |ptrs| == |ptrs'| == SLOTS
  {
    && (forall part :: Slots(d', ptrs', SLOTS, part) == Slots(d, ptrs, SLOTS, part) + One((k == 0) == part.Data?, n))
    && (forall m: nat :: FileMap(d', ptrs', m) == if k == 0 && m == l then n else FileMap(d, ptrs, m))
  }

  lemma SlotGrown(d: Disk, ptrs: seq<nat>, d': Disk, ptrs': seq<nat>, l: nat, k: nat, n: nat)
    requires |ptrs| == |ptrs'| == SLOTS && d.ppb == d'.ppb && Locate(d.ppb, l).At?
    requires var pl := Locate(d.ppb, l);
             && pl.slot < SLOTS
             && Grown(d, ptrs[pl.slot], d', ptrs'[pl.slot], Depth(pl.slot), pl.rel, k, n)
             && forall i :: 0 <= i < SLOTS && i != pl.slot ==> SameTree(d, ptrs[i], d', ptrs'[i], Depth(i))
    ensures FileGrown(d, ptrs, d', ptrs', l, k, n)
  {
    hide Blocks, Map, Locate, Depth, Slots, SameTree;
    var pl := Locate(d.ppb, l);
    LocateBase(d.ppb, l);
    forall part ensures Slots(d', ptrs', SLOTS, part) == Slots(d, ptrs, SLOTS, part) + One((k == 0) == part.Data?, n) {
      forall i | 0 <= i < SLOTS && i != pl.slot
        ensures Blocks(d, ptrs[i], Depth(i), part) == Blocks(d', ptrs'[i], Depth(i), part)
      {
        SameBlocks(d, ptrs[i], d', ptrs'[i], Depth(i), part);
      }
      SlotExchange(d, ptrs, d', ptrs', SLOTS, part, pl.slot);
      SumCancel(Slots(d, ptrs, SLOTS, part), Slots(d', ptrs', SLOTS, part),
                Blocks(d, ptrs[pl.slot], Depth(pl.slot), part), One((k == 0) == part.Data?, n));
    }
    forall m: nat ensures FileMap(d', ptrs', m) == if k == 0 && m == l then n else FileMap(d, ptrs, m) {
      var pm := Locate(d.ppb, m);
      if pm.At? {
        LocateBase(d.ppb, m);
        if pm.slot != pl.slot { SameMap(d, ptrs[pm.slot], d', ptrs'[pm.slot], Depth(pm.slot), pm.rel); }
      }
    }
  }

  /** File blocks below `keep` are mapped as before; all others are holes. */
  ghost predicate FilePruned(d: Disk, ptrs: seq<nat>, d': Disk, ptrs': seq<nat>, keep: nat)
    requires |ptrs| == |ptrs'| == SLOTS
  {
    forall l: nat :: FileMap(d', ptrs', l) == if l < keep then FileMap(d, ptrs, l) else 0
  }

  lemma SlotsPruned(d: Disk, ptrs: seq<nat>, d': Disk, ptrs': seq<nat>, keep: nat)
    requires |ptrs| == |ptrs'| == SLOTS && d.ppb == d'.ppb
    requires forall i :: 0 <= i < SLOTS ==> Pruned(d, ptrs[i], d', ptrs'[i], Depth(i), Sub(keep, Base(d.ppb, i)))
    ensures FilePruned(d, ptrs, d', ptrs', keep)
  {
    hide Map, Locate, Depth, Base;
    forall l: nat ensures FileMap(d', ptrs', l) == if l < keep then FileMap(d, ptrs, l) else 0 {
      var pl := Locate(d.ppb, l);
      if pl.At? {
        LocateBase(d.ppb, l);
        assert Pruned(d, ptrs[pl.slot], d', ptrs'[pl.slot], Depth(pl.slot), Sub(keep, Base(d.ppb, pl.slot)));
      }
    }
  }

  /** The first `n` slots are pruned, the others untouched. */
  ghost predicate SlotPruned(d0: Disk, p0: seq<nat>, d: Disk, p: seq<nat>, n: nat, keep: nat, j: nat)
    requires |p0| == |p| == SLOTS && j < SLOTS
  {
    if j < n then Pruned(d0, p0[j], d, p[j], Depth(j), Sub(keep, Base(d0.ppb, j)))
    else SameTree(d0, p0[j], d, p[j], Depth(j))
  }

  ghost predicate SlotsPrunedTo(d0: Disk, p0: seq<nat>, d: Disk, p: seq<nat>, n: nat, keep: nat)
    requires |p0| == |p| == SLOTS
  {
    d0.ppb == d.ppb && forall j :: 0 <= j < SLOTS ==> SlotPruned(d0, p0, d, p, n, keep, j)
  }

  /** The new file is what is left of the old one after `gone` was freed. */
  ghost predicate FileSplit(d: Disk, p: seq<nat>, d': Disk, p': seq<nat>, gone: multiset<nat>)
    requires |p| == |p'| == SLOTS
  {
    && FileTree(d', p') + gone == FileTree(d, p)
    && forall part :: Slots(d', p', SLOTS, part) <= Slots(d, p, SLOTS, part)
  }

  /** Direct slots below `keep` count as pruned from the start. */
  lemma SlotsPrunedStart(d: Disk, p: seq<nat>, n: nat, keep: nat)
    requires |p| == SLOTS && n <= DIRECT && n <= keep
    ensures SlotsPrunedTo(d, p, d, p, n, keep) && FileSplit(d, p, d, p, multiset{})
  {
    hide SameTree, Pruned, Slots, Blocks;
    forall j | 0 <= j < SLOTS ensures SlotPruned(d, p, d, p, n, keep, j) {
      SameTreeRefl(d, p[j], Depth(j));
      if j < n {
        SpanOne(d.ppb);
        PrunedKeepAll(d, p[j], Depth(j), Sub(keep, Base(d.ppb, j)));
      }
    }
  }

  lemma SlotSiblings(d: Disk, p: seq<nat>, i: nat, j: nat, s: set<nat>)
    requires |p| == SLOTS && i < SLOTS && j < SLOTS && i != j && NoDup(Slots(d, p, SLOTS, Indirect))
    requires forall x <- s :: x in Blocks(d, p[i], Depth(i), Indirect)
    ensures Apart(Blocks(d, p[j], Depth(j), Indirect), s)
  {
    hide Blocks, Slots, Depth;
    if i < j { SlotPair(d, p, SLOTS, Indirect, i, j); } else { SlotPair(d, p, SLOTS, Indirect, j, i); }
    forall x | x in Blocks(d, p[j], Depth(j), Indirect) ensures x !in s {
      assert Slots(d, p, SLOTS, Indirect)[x] <= 1;
    }
  }

  /** Pruning one more slot. */
  lemma SlotDone(d0: Disk, p0: seq<nat>, d1: Disk, p1: seq<nat>, d2: Disk, q: nat, i: nat, keep: nat, gone: multiset<nat>, g: multiset<nat>)
    requires |p0| == |p1| == SLOTS && i < SLOTS && NoDup(Slots(d1, p1, SLOTS, Indirect))
    requires SlotsPrunedTo(d0, p0, d1, p1, i, keep) && FileSplit(d0, p0, d1, p1, gone)
    requires SameOutside(d1, d2, SetOf(Blocks(d1, p1[i], Depth(i), Indirect)))
    requires Pruned(d1, p1[i], d2, q, Depth(i), Sub(keep, Base(d1.ppb, i))) && Split(d1, p1[i], d2, q, Depth(i), g)
    ensures SlotsPrunedTo(d0, p0, d2, p1[i := q], i + 1, keep) && FileSplit(d0, p0, d2, p1[i := q], gone + g)
  {
    hide Blocks, Slots, Depth, Base, SameTree, Pruned, NoDup, Split, FileSplit;
    var p2, s, i' := p1[i := q], SetOf(Blocks(d1, p1[i], Depth(i), Indirect)), i + 1;
    forall j | 0 <= j < SLOTS && j != i ensures SameTree(d1, p1[j], d2, p2[j], Depth(j)) {
      SlotSiblings(d1, p1, i, j, s);
      FrameOutside(d1, d2, s, p1[j], Depth(j));
    }
    forall j | 0 <= j < SLOTS ensures SlotPruned(d0, p0, d2, p2, i', keep, j) {
      assert SlotPruned(d0, p0, d1, p1, i, keep, j);
      if j < i {
        PrunedSame(d0, p0[j], d1, p1[j], d2, p2[j], Depth(j), Sub(keep, Base(d0.ppb, j)));
      } else if j > i {
        SameTreeTrans(d0, p0[j], d1, p1[j], d2, p2[j], Depth(j));
      } else {
        PrunedFrom(d0, p0[i], d1, p1[i], d2, q, Depth(i), Sub(keep, Base(d0.ppb, i)));
      }
    }
    SlotSplits(d1, p1, d2, p2, i, g);
    FileSplitTrans(d0, p0, d1, p1, d2, p2, gone, g);
  }

  lemma SlotSplits(d1: Disk, p1: seq<nat>, d2: Disk, p2: seq<nat>, i: nat, g: multiset<nat>)
    requires |p1| == |p2| == SLOTS && i < SLOTS && Split(d1, p1[i], d2, p2[i], Depth(i), g)
    requires forall j :: 0 <= j < SLOTS && j != i ==> SameTree(d1, p1[j], d2, p2[j], Depth(j))
    ensures FileSplit(d1, p1, d2, p2, g)
  {
    hide Blocks, Slots, Depth, SameTree;
    forall part
      ensures Slots(d2, p2, SLOTS, part) + Blocks(d1, p1[i], Depth(i), part)
           == Slots(d1, p1, SLOTS, part) + Blocks(d2, p2[i], Depth(i), part)
      ensures Slots(d2, p2, SLOTS, part) <= Slots(d1, p1, SLOTS, part)
    {
      forall j | 0 <= j < SLOTS && j != i ensures Blocks(d1, p1[j], Depth(j), part) == Blocks(d2, p2[j], Depth(j), part) {
        SameBlocks(d1, p1[j], d2, p2[j], Depth(j), part);
      }
      SlotExchange(d1, p1, d2, p2, SLOTS, part, i);
      SlotSub(d1, p1, SLOTS, part, i);
      ExchangeParts(Slots(d1, p1, SLOTS, part), Slots(d2, p2, SLOTS, part),
                    Blocks(d1, p1[i], Depth(i), part), Blocks(d2, p2[i], Depth(i), part));
    }
    ExchangeSums(Slots(d1, p1, SLOTS, Indirect), Slots(d1, p1, SLOTS, Data),
                 Slots(d2, p2, SLOTS, Indirect), Slots(d2, p2, SLOTS, Data),
                 Blocks(d1, p1[i], Depth(i), Indirect), Blocks(d1, p1[i], Depth(i), Data),
                 Blocks(d2, p2[i], Depth(i), Indirect), Blocks(d2, p2[i], Depth(i), Data), g);
  }

  lemma FileSplitTrans(d: Disk, p: seq<nat>, d1: Disk, p1: seq<nat>, d2: Disk, p2: seq<nat>, g: multiset<nat>, h: multiset<nat>)
    requires |p| == |p1| == |p2| == SLOTS && FileSplit(d, p, d1, p1, g) && FileSplit(d1, p1, d2, p2, h)
    ensures FileSplit(d, p, d2, p2, g + h)
  {
    hide Slots;
    assert FileTree(d2, p2) + (g + h) == (FileTree(d2, p2) + h) + g;
    forall part ensures Slots(d2, p2, SLOTS, part) <= Slots(d, p, SLOTS, part) {
      assert Slots(d2, p2, SLOTS, part) <= Slots(d1, p1, SLOTS, part) <= Slots(d, p, SLOTS, part);
    }
  }

  /** The slot at `i` of a sound file. */
  lemma SlotSound(d: Disk, p: seq<nat>, i: nat, used: set<nat>)
    requires |p| == SLOTS && i < SLOTS && NoDup(FileTree(d, p)) && AllIn(FileTree(d, p), used)
    ensures NoDup(Tree(d, p[i], Depth(i))) && AllIn(Tree(d, p[i], Depth(i)), used)
    ensures NoDup(Slots(d, p, SLOTS, Indirect))
  {
    hide Slots, Blocks, Depth, NoDup;
    SlotSub(d, p, SLOTS, Indirect, i);
    SlotSub(d, p, SLOTS, Data, i);
    var t, f := Tree(d, p[i], Depth(i)), FileTree(d, p);
    assert t <= f;
    NoDupSub(t, f);
    NoDupSub(Slots(d, p, SLOTS, Indirect), f);
    forall x | x in t ensures x in used { assert x in f; }
  }
}
