/** One step of `bmap`: a file gains one zeroed block. */
module FileGrow {
  import opened BlockTree
  import opened InodeTree
  import opened FileSpace

  /** A lookup can be continued from any block on its path. */
  lemma {:induction false} PathMap(d: Disk, p: nat, depth: nat, idx: nat, cur: nat, k: nat, r: nat)
    requires OnPath(d, p, depth, idx, cur, k, r)
    ensures Map(d, p, depth, idx) == Map(d, cur, k, r)
    decreases depth
  {
    if depth > k {
      PathMap(d, Word(Content(d, p), Digit(d.ppb, depth - 1, idx)), depth - 1, Rest(d.ppb, depth - 1, idx), cur, k, r);
    }
  }

  lemma {:induction false} PathStep(d: Disk, p: nat, depth: nat, idx: nat, cur: nat, k: nat, r: nat)
    requires OnPath(d, p, depth, idx, cur, k + 1, r) && cur != 0
    ensures OnPath(d, p, depth, idx, Word(Content(d, cur), Digit(d.ppb, k, r)), k, Rest(d.ppb, k, r))
    decreases depth
  {
    hide Digit, Rest, Word, Content;
    if depth > k + 1 {
      PathStep(d, Word(Content(d, p), Digit(d.ppb, depth - 1, idx)), depth - 1, Rest(d.ppb, depth - 1, idx), cur, k, r);
    } else {
      var q := Word(Content(d, cur), Digit(d.ppb, k, r));
      assert OnPath(d, q, k, Rest(d.ppb, k, r), q, k, Rest(d.ppb, k, r));
    }
  }

  // ---- hanging a block below an indirect block -----------------------------------------------

  /** An indirect block of one slot is in no other slot and is not a data block. */
  lemma IndirectOnce(d: Disk, ptrs: seq<nat>, slot: nat, x: nat)
    requires |ptrs| == SLOTS && slot < SLOTS && NoDup(FileTree(d, ptrs))
    requires x in Blocks(d, ptrs[slot], Depth(slot), Indirect)
    ensures x in FileTree(d, ptrs) && x !in Slots(d, ptrs, SLOTS, Data)
    ensures forall j :: 0 <= j < SLOTS && j != slot ==> x !in Blocks(d, ptrs[j], Depth(j), Indirect)
  {
    hide Blocks, Slots, Depth;
    SlotSub(d, ptrs, SLOTS, Indirect, slot);
    assert FileTree(d, ptrs)[x] <= 1;
    forall j | 0 <= j < SLOTS && j != slot ensures x !in Blocks(d, ptrs[j], Depth(j), Indirect) {
      if slot < j { SlotPair(d, ptrs, SLOTS, Indirect, slot, j); } else { SlotPair(d, ptrs, SLOTS, Indirect, j, slot); }
    }
  }

  /** A block outside a file is outside each slot's indirect blocks. */
  lemma OutsideFile(d: Disk, ptrs: seq<nat>, n: nat)
    requires |ptrs| == SLOTS && n !in FileTree(d, ptrs)
    ensures n !in Slots(d, ptrs, SLOTS, Data)
    ensures forall j :: 0 <= j < SLOTS ==> n !in Blocks(d, ptrs[j], Depth(j), Indirect)
  {
    hide Blocks, Slots, Depth;
    forall j | 0 <= j < SLOTS ensures n !in Blocks(d, ptrs[j], Depth(j), Indirect) { SlotSub(d, ptrs, SLOTS, Indirect, j); }
  }

  lemma SlotNoDup(d: Disk, ptrs: seq<nat>, slot: nat)
    requires |ptrs| == SLOTS && slot < SLOTS && NoDup(FileTree(d, ptrs))
    ensures NoDup(Blocks(d, ptrs[slot], Depth(slot), Indirect))
  {
    hide Blocks, Slots, Depth, NoDup;
    SlotSub(d, ptrs, SLOTS, Indirect, slot);
    NoDupSub(Slots(d, ptrs, SLOTS, Indirect), FileTree(d, ptrs));
    NoDupSub(Blocks(d, ptrs[slot], Depth(slot), Indirect), Slots(d, ptrs, SLOTS, Indirect));
  }

  /** The indirect block `cur` lies on the path to file block `l`, with `k + 1` levels left. */
  ghost predicate Reaches(d: Disk, ptrs: seq<nat>, l: nat, cur: nat, k: nat, r: nat)
    requires |ptrs| == SLOTS
  {
    var pl := Locate(d.ppb, l);
    pl.At? && pl.slot < SLOTS && OnPath(d, ptrs[pl.slot], Depth(pl.slot), pl.rel, cur, k, r)
  }

  lemma HangGrows(d: Disk, d': Disk, ptrs: seq<nat>, l: nat, cur: nat, k: nat, r: nat, n: nat)
    requires |ptrs| == SLOTS && NoDup(FileTree(d, ptrs)) && n !in FileTree(d, ptrs)
    requires Reaches(d, ptrs, l, cur, k + 1, r) && Hangs(d, d', cur, Digit(d.ppb, k, r), n)
    ensures FileGrown(d, ptrs, d', ptrs, l, k, n)
    ensures Reaches(d', ptrs, l, n, k, Rest(d.ppb, k, r))
    ensures cur in FileTree(d, ptrs) && cur !in Slots(d, ptrs, SLOTS, Data)
    ensures FileMap(d, ptrs, l) == 0
  {
    hide Blocks, Slots, Depth, Locate, Map, NoDup, Digit, Rest, Word, Content, FileTree, Grown, OnPath, FileGrown;
    var pl := Locate(d.ppb, l);
    var p, depth := ptrs[pl.slot], Depth(pl.slot);
    LocateBase(d.ppb, l);
    PathMember(d, p, depth, pl.rel, cur, k + 1, r);
    IndirectOnce(d, ptrs, pl.slot, cur);
    OutsideFile(d, ptrs, n);
    SlotNoDup(d, ptrs, pl.slot);
    Grow(d, d', p, depth, pl.rel, cur, k, r, n);
    forall i | 0 <= i < SLOTS && i != pl.slot ensures SameTree(d, ptrs[i], d', ptrs[i], Depth(i)) {
      FrameOutside(d, d', {cur, n}, ptrs[i], Depth(i));
    }
    SlotGrown(d, ptrs, d', ptrs, l, k, n);
    HoleHere(d, p, depth, pl.rel, cur, k, r);
  }

  lemma HoleHere(d: Disk, p: nat, depth: nat, idx: nat, cur: nat, k: nat, r: nat)
    requires OnPath(d, p, depth, idx, cur, k + 1, r) && cur != 0 && Word(Content(d, cur), Digit(d.ppb, k, r)) == 0
    ensures Map(d, p, depth, idx) == 0
  {
    hide Digit, Rest, Word, Content, Map;
    PathStep(d, p, depth, idx, cur, k, r);
    PathMap(d, p, depth, idx, 0, k, Rest(d.ppb, k, r));
    EmptyMap(d, k, Rest(d.ppb, k, r));
  }

  /** A free block is in no file. */
  lemma FreeOutside(d: Disk, tbl: Table, ino: nat, meta: set<nat>, used: set<nat>, n: nat)
    requires Conserved(d, tbl, meta, used) && ino in tbl && n !in used
    ensures n !in FileTree(d, Pointers(tbl[ino])) && NoDup(FileTree(d, Pointers(tbl[ino])))
    ensures FreeOrOwn({n}, used, Owns(d, tbl[ino]))
  {
    hide FileTree, Pointers, NoDup, NoShare, Owned;
    OwnsTree(d, tbl[ino]);
    assert HoldsOnly(d, tbl[ino], meta, used);
  }

  /** All that changes when `bmap` hangs block `n` into file `ino`. */
  lemma HangFile(d: Disk, d': Disk, tbl: Table, ino: nat, i': Inode, l: nat, cur: nat, k: nat, r: nat, n: nat, meta: set<nat>, used: set<nat>)
    requires Conserved(d, tbl, meta, used) && ino in tbl && n !in used
    requires Pointers(i') == Pointers(tbl[ino])
    requires Reaches(d, Pointers(tbl[ino]), l, cur, k + 1, r) && Hangs(d, d', cur, Digit(d.ppb, k, r), n)
    requires forall j: nat :: ByteIn(Content(d', n), j) == 0
    ensures Conserved(d', tbl[ino := i'], meta, used + {n})
    ensures OthersKept(d, d', tbl, ino)
    ensures Owns(d', i') == Owns(d, tbl[ino]) + multiset{n}
    ensures SameBytes(d, Pointers(tbl[ino]), d', Pointers(i'))
    ensures Reaches(d', Pointers(i'), l, n, k, Rest(d.ppb, k, r))
    ensures FileGrown(d, Pointers(tbl[ino]), d', Pointers(i'), l, k, n)
  {
    hide Conserved, Owns, WritesOwn, Slots, FileMap, SameFile, SameBytes, Pointers, FileGrown, FileTree, OthersKept, NoDup, Digit, Rest, ByteIn,
      Content, Word;
    var ptrs := Pointers(tbl[ino]);
    FreeOutside(d, tbl, ino, meta, used, n);
    HangGrows(d, d', ptrs, l, cur, k, r, n);
    GrowFromHang(d, d', tbl, ino, cur, n, used);
    GrowFile(d, d', tbl, ino, i', l, k, n, meta, used);
    OutsideFile(d, ptrs, n);
    GrownBytes(d, ptrs, d', ptrs, l, k, n, {cur, n});
  }

  lemma GrowFromHang(d: Disk, d': Disk, tbl: Table, ino: nat, cur: nat, n: nat, used: set<nat>)
    requires ino in tbl && SameOutside(d, d', {cur, n}) && n !in used && cur in FileTree(d, Pointers(tbl[ino]))
    ensures WritesOwn(d, d', tbl, ino, used)
  {
    hide SameOutside, FileTree, Pointers;
    assert FreeOrOwn({cur, n}, used, Owns(d, tbl[ino]));
  }

  // ---- filling an empty slot --------------------------------------------------------------------

  lemma RootGrows(d: Disk, d': Disk, ptrs: seq<nat>, l: nat, n: nat)
    requires |ptrs| == SLOTS && Locate(d.ppb, l).At? && Locate(d.ppb, l).slot < SLOTS
    requires ptrs[Locate(d.ppb, l).slot] == 0 && n != 0 && n !in FileTree(d, ptrs) && SameOutside(d, d', {n})
    requires forall j :: 0 <= j < d.ppb ==> Word(Content(d', n), j) == 0
    ensures var pl := Locate(d.ppb, l);
            FileGrown(d, ptrs, d', ptrs[pl.slot := n], l, Depth(pl.slot), n)
    ensures Reaches(d', ptrs[Locate(d.ppb, l).slot := n], l, n, Depth(Locate(d.ppb, l).slot), Locate(d.ppb, l).rel)
    ensures FileMap(d, ptrs, l) == 0
  {
    hide Blocks, Slots, Locate, Depth, Map, Word, Content, FileTree, FileGrown, Span;
    var pl := Locate(d.ppb, l);
    var ptrs', depth := ptrs[pl.slot := n], Depth(pl.slot);
    LocateBase(d.ppb, l);
    OutsideFile(d, ptrs, n);
    EmptyMap(d, depth, pl.rel);
    assert Grown(d, 0, d', n, depth, pl.rel, depth, n) by {
      forall part ensures Blocks(d', n, depth, part) == Blocks(d, 0, depth, part) + One((depth == 0) == part.Data?, n) {
        FreshTree(d', n, depth, part);
        EmptyTree(d, depth, part);
      }
      forall j: nat | j < Span(d.ppb, depth)
        ensures Map(d', n, depth, j) == if depth == 0 && j == pl.rel then n else Map(d, 0, depth, j)
      {
        FreshMap(d', n, depth, j);
        EmptyMap(d, depth, j);
        SpanOne(d.ppb);
      }
    }
    forall i | 0 <= i < SLOTS && i != pl.slot ensures SameTree(d, ptrs[i], d', ptrs'[i], Depth(i)) {
      FrameOutside(d, d', {n}, ptrs[i], Depth(i));
    }
    SlotGrown(d, ptrs, d', ptrs', l, depth, n);
  }

  lemma RootFile(d: Disk, d': Disk, tbl: Table, ino: nat, i': Inode, l: nat, n: nat, meta: set<nat>, used: set<nat>)
    requires Conserved(d, tbl, meta, used) && ino in tbl && n !in used && n != 0 && SameOutside(d, d', {n})
    requires Locate(d.ppb, l).At? && Locate(d.ppb, l).slot < SLOTS
    requires Pointers(tbl[ino])[Locate(d.ppb, l).slot] == 0
    requires Pointers(i') == Pointers(tbl[ino])[Locate(d.ppb, l).slot := n]
    requires forall j :: 0 <= j < d.ppb ==> Word(Content(d', n), j) == 0
    requires forall j: nat :: ByteIn(Content(d', n), j) == 0
    ensures Conserved(d', tbl[ino := i'], meta, used + {n})
    ensures OthersKept(d, d', tbl, ino)
    ensures Owns(d', i') == Owns(d, tbl[ino]) + multiset{n}
    ensures SameBytes(d, Pointers(tbl[ino]), d', Pointers(i'))
    ensures Reaches(d', Pointers(i'), l, n, Depth(Locate(d.ppb, l).slot), Locate(d.ppb, l).rel)
    ensures FileGrown(d, Pointers(tbl[ino]), d', Pointers(i'), l, Depth(Locate(d.ppb, l).slot), n)
  {
    hide Conserved, Owns, Slots, FileMap, SameFile, SameBytes, Pointers, FileGrown, FileTree, OthersKept, NoDup, ByteIn, Content, Word, Locate, Depth,
      FreeOrOwn;
    var ptrs := Pointers(tbl[ino]);
    FreeOutside(d, tbl, ino, meta, used, n);
    RootGrows(d, d', ptrs, l, n);
    GrowFile(d, d', tbl, ino, i', l, Depth(Locate(d.ppb, l).slot), n, meta, used);
    OutsideFile(d, ptrs, n);
    GrownBytes(d, ptrs, d', Pointers(i'), l, Depth(Locate(d.ppb, l).slot), n, {n});
  }
}
