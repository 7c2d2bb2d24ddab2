/** How many blocks a file lacks for a file block, and how mapping one block changes that for the others. */
module FileNeed {
  import opened Common
  import opened BlockTree
  import opened InodeTree
  import opened FileSpace
  import opened FileGrow

  function Times(a: nat, b: nat): nat { a * b }

  /** How many blocks are missing on the path to index `idx` under pointer `p`. */
  ghost function Missing(d: Disk, p: nat, depth: nat, idx: nat): nat
    decreases depth
  {
    if p == 0 then depth + 1
    else if depth == 0 then 0
    else Missing(d, Word(Content(d, p), Digit(d.ppb, depth - 1, idx)), depth - 1, Rest(d.ppb, depth - 1, idx))
  }

  /** How many blocks file block `l` needs: none if it is mapped, one for a hole in a full tree,
      and one more for every indirect block that is not there yet. */
  ghost function FileMissing(d: Disk, ptrs: seq<nat>, l: nat): nat
    requires |ptrs| == SLOTS
  {
    var at := Locate(d.ppb, l);
    if at.At? && at.slot < SLOTS then Missing(d, ptrs[at.slot], Depth(at.slot), at.rel) else 0
  }

  lemma MissingAll(d: Disk, depth: nat, idx: nat)
    ensures Missing(d, 0, depth, idx) == depth + 1
  {
  }

  lemma MissingStep(d: Disk, p: nat, depth: nat, idx: nat)
    requires depth > 0 && p != 0
    ensures var next := Word(Content(d, p), Digit(d.ppb, depth - 1, idx));
            && Missing(d, p, depth, idx) == Missing(d, next, depth - 1, Rest(d.ppb, depth - 1, idx))
            && (next == 0 ==> Missing(d, p, depth, idx) == depth)
            && (next != 0 && depth == 1 ==> Missing(d, p, depth, idx) == 0)
  {
  }

  lemma {:induction false} MissingBound(d: Disk, p: nat, depth: nat, idx: nat)
    ensures Missing(d, p, depth, idx) <= depth + 1
    ensures p != 0 ==> Missing(d, p, depth, idx) <= depth
    decreases depth
  {
    hide Word, Content, Digit, Rest;
    if p != 0 && depth > 0 {
      MissingStep(d, p, depth, idx);
      MissingBound(d, Word(Content(d, p), Digit(d.ppb, depth - 1, idx)), depth - 1, Rest(d.ppb, depth - 1, idx));
    }
  }

  /** An empty block lacks everything below it. */
  lemma FreshMissing(d: Disk, n: nat, depth: nat, idx: nat)
    requires n != 0 && idx < Span(d.ppb, depth) && forall i :: 0 <= i < d.ppb ==> Word(Content(d, n), i) == 0
    ensures Missing(d, n, depth, idx) == depth
  {
    hide Word, Content, Digit, Rest, Span;
    if depth > 0 {
      MapNode(d, n, depth, idx);
      MissingStep(d, n, depth, idx);
    }
  }

  lemma {:induction false} MissingFrame(d: Disk, d': Disk, p: nat, depth: nat, idx: nat)
    requires Agree(d, d', Blocks(d, p, depth, Indirect)) && idx < Span(d.ppb, depth)
    ensures Missing(d', p, depth, idx) == Missing(d, p, depth, idx)
    decreases depth
  {
    if p != 0 && depth > 0 {
      hide Span, Digit, Rest, Word, Content, Blocks, Map, Agree, Missing;
      var i := Digit(d.ppb, depth - 1, idx);
      MapNode(d, p, depth, idx);
      AgreeKid(d, d', p, depth, i);
      MissingStep(d, p, depth, idx);
      MissingStep(d', p, depth, idx);
      MissingFrame(d, d', Word(Content(d, p), i), depth - 1, Rest(d.ppb, depth - 1, idx));
    }
  }

  lemma MissingOutside(d: Disk, d': Disk, s: set<nat>, p: nat, depth: nat, idx: nat)
    requires SameOutside(d, d', s) && Apart(Blocks(d, p, depth, Indirect), s) && idx < Span(d.ppb, depth)
    ensures Missing(d', p, depth, idx) == Missing(d, p, depth, idx)
  {
    hide Content, Blocks, Missing, Span;
    assert Agree(d, d', Blocks(d, p, depth, Indirect));
    MissingFrame(d, d', p, depth, idx);
  }

  // ---- where two paths part ---------------------------------------------------------------------------

  /** The number of levels, from the data blocks up, on which the paths to `i` and `j` differ. */
  ghost function Parting(ppb: nat, depth: nat, i: nat, j: nat): (m: nat)
    requires ppb > 0
    ensures m <= depth
  {
    if depth == 0 then 0
    else if Digit(ppb, depth - 1, i) != Digit(ppb, depth - 1, j) then depth
    else Parting(ppb, depth - 1, Rest(ppb, depth - 1, i), Rest(ppb, depth - 1, j))
  }

  lemma {:induction false} PartingSame(ppb: nat, depth: nat, i: nat)
    requires ppb > 0
    ensures Parting(ppb, depth, i, i) == 0
  {
    hide Digit, Rest;
    if depth > 0 { PartingSame(ppb, depth - 1, Rest(ppb, depth - 1, i)); }
  }

  /** The paths to later blocks share more. */
  lemma {:induction false} PartingMono(ppb: nat, depth: nat, a: nat, b: nat, x: nat)
    requires ppb > 0 && a <= b <= x
    ensures Parting(ppb, depth, b, x) <= Parting(ppb, depth, a, x)
    decreases depth
  {
    hide Digit, Rest, Span;
    if depth > 0 && Digit(ppb, depth - 1, a) == Digit(ppb, depth - 1, x) {
      DigitBetween(ppb, depth - 1, a, b, x);
      PartingMono(ppb, depth - 1, Rest(ppb, depth - 1, a), Rest(ppb, depth - 1, b), Rest(ppb, depth - 1, x));
    }
  }

  lemma DigitBetween(ppb: nat, k: nat, a: nat, b: nat, x: nat)
    requires ppb > 0 && a <= b <= x && Digit(ppb, k, a) == Digit(ppb, k, x)
    ensures Digit(ppb, k, b) == Digit(ppb, k, x) && Rest(ppb, k, a) <= Rest(ppb, k, b) <= Rest(ppb, k, x)
  {
    hide Digit, Rest, Span, Times;
    var s, g, h := Span(ppb, k), Digit(ppb, k, x), Digit(ppb, k, b);
    DigitParts(ppb, k, a);
    DigitParts(ppb, k, b);
    DigitParts(ppb, k, x);
    BelowBlock(s, g, h + 1, b);
    BelowBlock(s, h, g + 1, b);
  }

  lemma DigitParts(ppb: nat, k: nat, x: nat)
    requires ppb > 0
    ensures var s, g := Span(ppb, k), Digit(ppb, k, x);
            x == Times(g, s) + Rest(ppb, k, x) && Times(g, s) <= x < Times(g + 1, s)
  {
    hide Digit, Rest, Span;
    DigitRest(ppb, k, x);
    TimesStep(Digit(ppb, k, x), Span(ppb, k));
  }

  /** What one path lacks, the other lacks at most from where they part. */
  lemma {:induction false} Ultra(d: Disk, p: nat, depth: nat, i: nat, j: nat)
    ensures Missing(d, p, depth, j) <= Max(Parting(d.ppb, depth, i, j), Missing(d, p, depth, i))
    decreases depth
  {
    hide Word, Content, Digit, Rest;
    MissingBound(d, p, depth, j);
    if p != 0 && depth > 0 && Digit(d.ppb, depth - 1, i) == Digit(d.ppb, depth - 1, j) {
      MissingStep(d, p, depth, i);
      MissingStep(d, p, depth, j);
      Ultra(d, Word(Content(d, p), Digit(d.ppb, depth - 1, i)), depth - 1, Rest(d.ppb, depth - 1, i), Rest(d.ppb, depth - 1, j));
    }
  }

  // ---- hanging a block --------------------------------------------------------------------------------

  /** A block hung at level `k` of the path to `idx`: whoever shares the path down to there now
      lacks what is below, and nothing changes for the others. */
  lemma {:induction false} GrowMissing(d: Disk, d': Disk, p: nat, depth: nat, idx: nat, cur: nat, k: nat, r: nat, n: nat, x: nat)
    requires OnPath(d, p, depth, idx, cur, k + 1, r) && idx < Span(d.ppb, depth) && x < Span(d.ppb, depth)
    requires Hangs(d, d', cur, Digit(d.ppb, k, r), n)
    requires NoDup(Blocks(d, p, depth, Indirect)) && n !in Blocks(d, p, depth, Indirect)
    ensures Missing(d', p, depth, x) == if Parting(d.ppb, depth, idx, x) <= k then k else Missing(d, p, depth, x)
    decreases depth
  {
    hide Span, Digit, Rest, Word, Content, Blocks, Map, Kids, Hangs, NoDup, Missing;
    if depth == k + 1 {
      HereMissing(d, d', p, idx, k, n, x);
    } else {
      var i, j := Digit(d.ppb, depth - 1, idx), Digit(d.ppb, depth - 1, x);
      GrowBelow(d, d', p, depth, idx, cur, k, r, n);
      MapNode(d, p, depth, idx);
      MapNode(d, p, depth, x);
      MissingStep(d, p, depth, x);
      MissingStep(d', p, depth, x);
      var q := Word(Content(d, p), i);
      if i == j {
        KidOfTree(d, p, depth, Indirect, i);
        NoDupSub(Blocks(d, q, depth - 1, Indirect), Blocks(d, p, depth, Indirect));
        assert n !in Blocks(d, q, depth - 1, Indirect);
        GrowMissing(d, d', q, depth - 1, Rest(d.ppb, depth - 1, idx), cur, k, r, n, Rest(d.ppb, depth - 1, x));
      } else {
        MissingOutside(d, d', {cur, n}, Word(Content(d, p), j), depth - 1, Rest(d.ppb, depth - 1, x));
      }
    }
  }

  lemma HereMissing(d: Disk, d': Disk, p: nat, idx: nat, k: nat, n: nat, x: nat)
    requires idx < Span(d.ppb, k + 1) && x < Span(d.ppb, k + 1) && Hangs(d, d', p, Digit(d.ppb, k, idx), n)
    requires NoDup(Blocks(d, p, k + 1, Indirect)) && n !in Blocks(d, p, k + 1, Indirect)
    ensures Missing(d', p, k + 1, x) == if Parting(d.ppb, k + 1, idx, x) <= k then k else Missing(d, p, k + 1, x)
  {
    hide Span, Digit, Rest, Word, Content, Blocks, Map, Kids, Missing;
    var b, i, j := Content(d, p), Digit(d.ppb, k, idx), Digit(d.ppb, k, x);
    MapNode(d, p, k + 1, idx);
    MapNode(d, p, k + 1, x);
    MissingStep(d, p, k + 1, x);
    MissingStep(d', p, k + 1, x);
    if i == j {
      FreshMissing(d', n, k, Rest(d.ppb, k, x));
    } else {
      KidOfTree(d, p, k + 1, Indirect, j);
      if p in Blocks(d, Word(b, j), k, Indirect) { NodeApart(d, p, k + 1, j, p); }
      MissingOutside(d, d', {p, n}, Word(b, j), k, Rest(d.ppb, k, x));
    }
  }

  lemma {:induction false} PathMissing(d: Disk, p: nat, depth: nat, idx: nat, cur: nat, k: nat, r: nat)
    requires OnPath(d, p, depth, idx, cur, k, r)
    ensures Missing(d, p, depth, idx) == Missing(d, cur, k, r)
    decreases depth
  {
    hide Word, Content, Digit, Rest;
    if depth > k {
      MissingStep(d, p, depth, idx);
      PathMissing(d, Word(Content(d, p), Digit(d.ppb, depth - 1, idx)), depth - 1, Rest(d.ppb, depth - 1, idx), cur, k, r);
    }
  }

  // ---- a whole file --------------------------------------------------------------------------------------

  /** The same for file blocks; paths through different slots share nothing. */
  ghost function FileParting(ppb: nat, l: nat, x: nat): (m: nat)
    requires ppb > 0
    ensures m <= 4
  {
    var a, b := Locate(ppb, l), Locate(ppb, x);
    if a.At? && b.At? && a.slot == b.slot < SLOTS then DepthBound(a.slot); Parting(ppb, Depth(a.slot), a.rel, b.rel) else 4
  }

  lemma DepthBound(slot: nat)
    requires slot < SLOTS
    ensures Depth(slot) <= 3
  {
  }

  lemma FileMissingBound(d: Disk, ptrs: seq<nat>, x: nat)
    requires |ptrs| == SLOTS
    ensures FileMissing(d, ptrs, x) <= 4
  {
    hide Missing, Locate, Depth;
    var b := Locate(d.ppb, x);
    if b.At? && b.slot < SLOTS {
      DepthBound(b.slot);
      MissingBound(d, ptrs[b.slot], Depth(b.slot), b.rel);
    }
  }

  lemma FileUltra(d: Disk, ptrs: seq<nat>, l: nat, x: nat)
    requires |ptrs| == SLOTS
    ensures FileMissing(d, ptrs, x) <= Max(FileParting(d.ppb, l, x), FileMissing(d, ptrs, l))
  {
    hide Missing, Parting, Locate, Depth;
    FileMissingBound(d, ptrs, x);
    var a, b := Locate(d.ppb, l), Locate(d.ppb, x);
    if a.At? && b.At? && a.slot == b.slot < SLOTS { Ultra(d, ptrs[a.slot], Depth(a.slot), a.rel, b.rel); }
  }

  lemma FilePartingMono(ppb: nat, a: nat, b: nat, x: nat)
    requires ppb > 0 && a <= b <= x
    ensures FileParting(ppb, b, x) <= FileParting(ppb, a, x)
  {
    hide Parting, Depth;
    var pa, pb, px := Locate(ppb, a), Locate(ppb, b), Locate(ppb, x);
    if pa.At? && px.At? && pa.slot == px.slot < SLOTS {
      LocateBetween(ppb, a, b, x);
      PartingMono(ppb, Depth(px.slot), pa.rel, pb.rel, px.rel);
    }
  }

  lemma LocateBetween(ppb: nat, a: nat, b: nat, x: nat)
    requires a <= b <= x && Locate(ppb, a).At? && Locate(ppb, x).At? && Locate(ppb, a).slot == Locate(ppb, x).slot
    ensures var pb := Locate(ppb, b); pb.At? && pb.slot == Locate(ppb, x).slot && Locate(ppb, a).rel <= pb.rel <= Locate(ppb, x).rel
  {
  }

  /** A block of level `k` has been added on the path to `l`. */
  ghost predicate Added(d: Disk, ptrs: seq<nat>, d': Disk, ptrs': seq<nat>, l: nat, k: nat)
    requires |ptrs| == |ptrs'| == SLOTS
  {
    d'.ppb == d.ppb && forall x: nat :: FileMissing(d', ptrs', x) == if FileParting(d.ppb, l, x) <= k then k else FileMissing(d, ptrs, x)
  }

  lemma HangMissing(d: Disk, d': Disk, ptrs: seq<nat>, l: nat, cur: nat, k: nat, r: nat, n: nat)
    requires |ptrs| == SLOTS && NoDup(FileTree(d, ptrs)) && n !in FileTree(d, ptrs)
    requires Reaches(d, ptrs, l, cur, k + 1, r) && Hangs(d, d', cur, Digit(d.ppb, k, r), n)
    ensures Added(d, ptrs, d', ptrs, l, k)
  {
    hide Blocks, Slots, Depth, Locate, NoDup, Digit, Rest, Word, Content, FileTree, OnPath, Missing, Parting, Span, FileMissing, FileParting;
    var pl := Locate(d.ppb, l);
    var p, depth := ptrs[pl.slot], Depth(pl.slot);
    LocateBase(d.ppb, l);
    PathMember(d, p, depth, pl.rel, cur, k + 1, r);
    PathDepth(d, p, depth, pl.rel, cur, k + 1, r);
    DepthBound(pl.slot);
    IndirectOnce(d, ptrs, pl.slot, cur);
    OutsideFile(d, ptrs, n);
    SlotNoDup(d, ptrs, pl.slot);
    forall x: nat ensures FileMissing(d', ptrs, x) == if FileParting(d.ppb, l, x) <= k then k else FileMissing(d, ptrs, x) {
      At(d, ptrs, l, x);
      At(d', ptrs, l, x);
      var b := Locate(d.ppb, x);
      if b.At? {
        LocateBase(d.ppb, x);
        if b.slot == pl.slot {
          GrowMissing(d, d', p, depth, pl.rel, cur, k, r, n, b.rel);
        } else {
          MissingOutside(d, d', {cur, n}, ptrs[b.slot], Depth(b.slot), b.rel);
        }
      }
    }
  }

  /** The definitions, at one file block. */
  lemma At(d: Disk, ptrs: seq<nat>, l: nat, x: nat)
    requires |ptrs| == SLOTS
    ensures var a, b := Locate(d.ppb, l), Locate(d.ppb, x);
            && FileMissing(d, ptrs, x) == (if b.At? && b.slot < SLOTS then Missing(d, ptrs[b.slot], Depth(b.slot), b.rel) else 0)
            && FileParting(d.ppb, l, x) == (if a.At? && b.At? && a.slot == b.slot < SLOTS then Parting(d.ppb, Depth(a.slot), a.rel, b.rel) else 4)
  {
  }

  lemma {:induction false} PathDepth(d: Disk, p: nat, depth: nat, idx: nat, cur: nat, k: nat, r: nat)
    requires OnPath(d, p, depth, idx, cur, k, r)
    ensures k <= depth
  {
  }

  lemma RootMissing(d: Disk, d': Disk, ptrs: seq<nat>, l: nat, n: nat)
    requires |ptrs| == SLOTS && Locate(d.ppb, l).At? && Locate(d.ppb, l).slot < SLOTS
    requires ptrs[Locate(d.ppb, l).slot] == 0 && n != 0 && n !in FileTree(d, ptrs) && SameOutside(d, d', {n})
    requires forall j :: 0 <= j < d.ppb ==> Word(Content(d', n), j) == 0
    ensures var pl := Locate(d.ppb, l); Added(d, ptrs, d', ptrs[pl.slot := n], l, Depth(pl.slot))
  {
    hide Blocks, Slots, Locate, Depth, Word, Content, FileTree, Missing, Parting, Span, FileMissing, FileParting;
    var pl := Locate(d.ppb, l);
    var ptrs', k := ptrs[pl.slot := n], Depth(pl.slot);
    LocateBase(d.ppb, l);
    DepthBound(pl.slot);
    OutsideFile(d, ptrs, n);
    forall x: nat ensures FileMissing(d', ptrs', x) == if FileParting(d.ppb, l, x) <= k then k else FileMissing(d, ptrs, x) {
      At(d, ptrs, l, x);
      At(d', ptrs', l, x);
      var b := Locate(d.ppb, x);
      if b.At? {
        LocateBase(d.ppb, x);
        if b.slot == pl.slot {
          FreshMissing(d', n, k, b.rel);
        } else {
          MissingOutside(d, d', {n}, ptrs[b.slot], Depth(b.slot), b.rel);
        }
      }
    }
  }

  // ---- mapping one file block ------------------------------------------------------------------------------

  /** The path to `l` has been filled from the top until `c` blocks are missing. */
  ghost predicate Filled(d: Disk, ptrs: seq<nat>, d': Disk, ptrs': seq<nat>, l: nat, c: nat)
    requires |ptrs| == |ptrs'| == SLOTS
  {
    && d'.ppb == d.ppb && FileMissing(d', ptrs', l) == c
    && forall x: nat :: FileMissing(d', ptrs', x) == Min(FileMissing(d, ptrs, x), Max(FileParting(d.ppb, l, x), c))
  }

  lemma FilledStart(d: Disk, ptrs: seq<nat>, l: nat)
    requires |ptrs| == SLOTS
    ensures Filled(d, ptrs, d, ptrs, l, FileMissing(d, ptrs, l))
  {
    hide FileMissing, FileParting;
    forall x: nat ensures FileMissing(d, ptrs, x) <= Max(FileParting(d.ppb, l, x), FileMissing(d, ptrs, l)) { FileUltra(d, ptrs, l, x); }
  }

  lemma SelfParting(ppb: nat, l: nat)
    requires ppb > 0 && Locate(ppb, l).At?
    ensures FileParting(ppb, l, l) == 0
  {
    hide Parting, Depth;
    SlotBound(ppb, l);
    PartingSame(ppb, Depth(Locate(ppb, l).slot), Locate(ppb, l).rel);
  }

  lemma FilledStep(d: Disk, ptrs: seq<nat>, d1: Disk, p1: seq<nat>, d2: Disk, p2: seq<nat>, l: nat, k: nat)
    requires |ptrs| == |p1| == |p2| == SLOTS && Filled(d, ptrs, d1, p1, l, k + 1) && Added(d1, p1, d2, p2, l, k) && Locate(d.ppb, l).At?
    ensures Filled(d, ptrs, d2, p2, l, k)
  {
    hide FileMissing, FileParting, Locate;
    SelfParting(d.ppb, l);
    forall x: nat ensures FileMissing(d2, p2, x) == Min(FileMissing(d, ptrs, x), Max(FileParting(d.ppb, l, x), k)) {
      FilledAt(d, ptrs, d1, p1, l, k, x);
    }
  }

  /** Who shares the path down to the missing block lacks it too. */
  lemma FilledAt(d: Disk, ptrs: seq<nat>, d1: Disk, p1: seq<nat>, l: nat, k: nat, x: nat)
    requires |ptrs| == |p1| == SLOTS && Filled(d, ptrs, d1, p1, l, k + 1)
    ensures FileMissing(d1, p1, x) == Min(FileMissing(d, ptrs, x), Max(FileParting(d.ppb, l, x), k + 1))
    ensures FileParting(d.ppb, l, x) <= k ==> FileMissing(d1, p1, x) >= k + 1
  {
    hide FileMissing, FileParting;
    PartingSym(d.ppb, l, x);
    FileUltra(d1, p1, x, l);
  }

  lemma PartingSym(ppb: nat, l: nat, x: nat)
    requires ppb > 0
    ensures FileParting(ppb, l, x) == FileParting(ppb, x, l)
  {
    hide Parting, Locate, Depth;
    var a, b := Locate(ppb, l), Locate(ppb, x);
    if a.At? && b.At? && a.slot == b.slot < SLOTS { TreeSym(ppb, Depth(a.slot), a.rel, b.rel); }
  }

  lemma {:induction false} TreeSym(ppb: nat, depth: nat, i: nat, j: nat)
    requires ppb > 0
    ensures Parting(ppb, depth, i, j) == Parting(ppb, depth, j, i)
  {
    hide Digit, Rest;
    if depth > 0 { TreeSym(ppb, depth - 1, Rest(ppb, depth - 1, i), Rest(ppb, depth - 1, j)); }
  }

  lemma FilledTrans(d: Disk, ptrs: seq<nat>, d1: Disk, p1: seq<nat>, d2: Disk, p2: seq<nat>, l: nat, c: nat)
    requires |ptrs| == |p1| == |p2| == SLOTS && Filled(d, ptrs, d1, p1, l, c) && Filled(d1, p1, d2, p2, l, 0)
    ensures Filled(d, ptrs, d2, p2, l, 0)
  {
    hide FileMissing, FileParting;
  }

  /** Nobody lacks more or less than before. */
  ghost predicate SameNeed(d: Disk, d': Disk, ptrs: seq<nat>)
    requires |ptrs| == SLOTS
  {
    forall x: nat :: FileMissing(d', ptrs, x) == FileMissing(d, ptrs, x)
  }

  /** Data blocks hold no pointers, so writing one leaves every path as it is. */
  lemma DataWriteNeed(d: Disk, d': Disk, ptrs: seq<nat>, lb: nat)
    requires |ptrs| == SLOTS && NoDup(FileTree(d, ptrs)) && FileMap(d, ptrs, lb) != 0
    requires SameOutside(d, d', {FileMap(d, ptrs, lb)})
    ensures SameNeed(d, d', ptrs)
  {
    hide Blocks, Slots, FileMap, FileTree, NoDup, Content, Locate, Depth, Missing, FileMissing, FileParting, Span, Base;
    var p := FileMap(d, ptrs, lb);
    FileMapIsData(d, ptrs, lb);
    DataIsNotIndirect(d, ptrs, p);
    forall x: nat ensures FileMissing(d', ptrs, x) == FileMissing(d, ptrs, x) {
      At(d, ptrs, x, x);
      At(d', ptrs, x, x);
      var b := Locate(d.ppb, x);
      if b.At? {
        LocateBase(d.ppb, x);
        SlotSub(d, ptrs, SLOTS, Indirect, b.slot);
        MissingOutside(d, d', {p}, ptrs[b.slot], Depth(b.slot), b.rel);
      }
    }
  }

  // ---- mapping a range of file blocks ------------------------------------------------------------------

  /** What file block `l` takes once the blocks from `lo` up to it are mapped: what its path lacks
      below the point where it parts from the path before. */
  ghost function Extra(d: Disk, ptrs: seq<nat>, lo: nat, l: nat): nat
    requires |ptrs| == SLOTS
  {
    if l <= lo then FileMissing(d, ptrs, l) else Min(FileMissing(d, ptrs, l), FileParting(d.ppb, l - 1, l))
  }

  /** How many blocks the file blocks from `lo` up to `hi` need together. */
  ghost function RangeNeed(d: Disk, ptrs: seq<nat>, lo: nat, hi: nat): nat
    requires |ptrs| == SLOTS
  {
    if hi <= lo then 0 else RangeNeed(d, ptrs, lo, hi - 1) + Extra(d, ptrs, lo, hi - 1)
  }

  lemma {:induction false} RangeNeedMono(d: Disk, ptrs: seq<nat>, lo: nat, hi: nat, hi': nat)
    requires |ptrs| == SLOTS && hi <= hi'
    ensures RangeNeed(d, ptrs, lo, hi) <= RangeNeed(d, ptrs, lo, hi')
    decreases hi'
  {
    hide Extra;
    if hi < hi' { RangeNeedMono(d, ptrs, lo, hi, hi' - 1); }
  }

  /** The blocks from `lo` up to `l` have been mapped: what the blocks from `l` on still lack. */
  ghost predicate Ahead(d: Disk, ptrs: seq<nat>, d': Disk, ptrs': seq<nat>, lo: nat, l: nat)
    requires |ptrs| == |ptrs'| == SLOTS
  {
    && d'.ppb == d.ppb
    && forall x: nat :: l <= x ==>
         FileMissing(d', ptrs', x) == if l <= lo then FileMissing(d, ptrs, x) else Min(FileMissing(d, ptrs, x), FileParting(d.ppb, l - 1, x))
  }

  lemma AheadStep(d: Disk, ptrs: seq<nat>, d1: Disk, p1: seq<nat>, d2: Disk, p2: seq<nat>, d3: Disk, lo: nat, l: nat)
    requires |ptrs| == |p1| == |p2| == SLOTS && lo <= l && Ahead(d, ptrs, d1, p1, lo, l)
    requires Filled(d1, p1, d2, p2, l, 0) && SameNeed(d2, d3, p2) && d3.ppb == d2.ppb
    ensures Ahead(d, ptrs, d3, p2, lo, l + 1)
  {
    hide FileMissing, FileParting;
    forall x: nat | l < x ensures FileMissing(d3, p2, x) == Min(FileMissing(d, ptrs, x), FileParting(d.ppb, l, x)) {
      if lo < l { FilePartingMono(d.ppb, l - 1, l, x); }
    }
  }

  // ---- writing a range of bytes ---------------------------------------------------------------------------

  /** How many blocks the first `n` bytes from `off` on need. */
  ghost function Needed(d: Disk, ptrs: seq<nat>, bs: nat, off: nat, n: nat): nat
    requires |ptrs| == SLOTS && bs > 0
  {
    if n == 0 then 0 else RangeNeed(d, ptrs, BlockIdx(bs, off), BlockIdx(bs, off + n - 1) + 1)
  }

  /** Of `len` bytes, exactly those `done` were written whose blocks, with all before them, could be had. */
  ghost predicate AsFits(d: Disk, ptrs: seq<nat>, bs: nat, off: nat, len: nat, free: nat, done: nat)
    requires |ptrs| == SLOTS && bs > 0
  {
    done <= len && forall n: nat :: n <= len ==> (n <= done <==> Needed(d, ptrs, bs, off, n) <= free)
  }

  /** A write stops before file block `l`, because it ends there or because the block cannot be had. */
  lemma Stopped(d: Disk, ptrs: seq<nat>, bs: nat, off: nat, len: nat, free: nat, done: nat, l: nat)
    requires |ptrs| == SLOTS && bs > 0 && done <= len && Reached(bs, off, len, done, l)
    requires RangeNeed(d, ptrs, BlockIdx(bs, off), l) <= free
    requires done < len ==> free < RangeNeed(d, ptrs, BlockIdx(bs, off), l + 1)
    ensures AsFits(d, ptrs, bs, off, len, free, done)
    ensures done == len ==> Needed(d, ptrs, bs, off, len) == RangeNeed(d, ptrs, BlockIdx(bs, off), l)
  {
    hide RangeNeed, BlockIdx, Times;
    var lo := BlockIdx(bs, off);
    IdxBounds(bs, off);
    forall n: nat | 0 < n <= len ensures n <= done <==> Needed(d, ptrs, bs, off, n) <= free {
      var b := BlockIdx(bs, off + n - 1);
      IdxBounds(bs, off + n - 1);
      if n <= done {
        BelowBlock(bs, b, l, off + n - 1);
        RangeNeedMono(d, ptrs, lo, b + 1, l);
      } else {
        AboveBlock(bs, b, l, off + n - 1);
        RangeNeedMono(d, ptrs, lo, l + 1, b + 1);
      }
    }
    RangeNeedNone(d, ptrs, lo);
    if 0 < done == len {
      var b := BlockIdx(bs, off + done - 1);
      IdxBounds(bs, off + done - 1);
      BelowBlock(bs, b, l, off + done - 1);
      AboveBlock(bs, b, l - 1, off + done - 1);
    }
  }

  /** `done` bytes from `off` on fill the file blocks up to `l`, the last one only if they end there. */
  ghost predicate Reached(bs: nat, off: nat, len: nat, done: nat, l: nat)
    requires bs > 0
  {
    if done == 0 then l == BlockIdx(bs, off)
    else l > BlockIdx(bs, off) && Times(l - 1, bs) < off + done <= Times(l, bs) && (done < len ==> off + done == Times(l, bs))
  }

  lemma ReachedNext(bs: nat, off: nat, len: nat, done: nat, l: nat, n: nat)
    requires bs > 0 && done < len && Reached(bs, off, len, done, l)
    requires n == Min(bs - BlockOff(bs, off + done), len - done)
    ensures BlockIdx(bs, off + done) == l && n > 0 && Reached(bs, off, len, done + n, l + 1)
  {
    hide BlockIdx, BlockOff, Times;
    var k := off + done;
    var b := BlockIdx(bs, k);
    IdxParts(bs, k);
    IdxBounds(bs, k);
    TimesStep(l, bs);
    if done > 0 {
      AboveBlock(bs, b, l, k);
      BelowBlock(bs, b, l + 1, k);
    }
  }

  lemma IdxParts(bs: nat, k: nat)
    requires bs > 0
    ensures k == Times(BlockIdx(bs, k), bs) + BlockOff(bs, k) && BlockOff(bs, k) < bs
  {
    BlockSplit(bs, k);
  }

  lemma TimesStep(l: nat, bs: nat)
    ensures Times(l + 1, bs) == Times(l, bs) + bs
  {
  }

  lemma IdxBounds(bs: nat, k: nat)
    requires bs > 0
    ensures Times(BlockIdx(bs, k), bs) <= k < Times(BlockIdx(bs, k) + 1, bs)
  {
  }

  lemma BelowBlock(bs: nat, b: nat, l: nat, k: nat)
    requires Times(b, bs) <= k < Times(l, bs)
    ensures b < l
  {
    if l <= b { MulMono(l, b, bs); }
  }

  lemma AboveBlock(bs: nat, b: nat, l: nat, k: nat)
    requires Times(l, bs) <= k < Times(b + 1, bs)
    ensures l <= b
  {
    if b + 1 <= l { MulMono(b + 1, l, bs); }
  }

  lemma RangeNeedNone(d: Disk, ptrs: seq<nat>, lo: nat)
    requires |ptrs| == SLOTS
    ensures RangeNeed(d, ptrs, lo, lo) == 0
  {
  }

  lemma RangeStart(d: Disk, ptrs: seq<nat>, bs: nat, off: nat, len: nat)
    requires |ptrs| == SLOTS && bs > 0
    ensures var lo := BlockIdx(bs, off); Reached(bs, off, len, 0, lo) && Ahead(d, ptrs, d, ptrs, lo, lo) && RangeNeed(d, ptrs, lo, lo) == 0
  {
    hide BlockIdx, FileMissing, FileParting;
  }

  /** What the next block lacks now is what it adds to the need of the range. */
  lemma AheadNeed(d: Disk, ptrs: seq<nat>, d': Disk, ptrs': seq<nat>, lo: nat, l: nat)
    requires |ptrs| == |ptrs'| == SLOTS && lo <= l && Ahead(d, ptrs, d', ptrs', lo, l)
    ensures RangeNeed(d, ptrs, lo, l + 1) == RangeNeed(d, ptrs, lo, l) + FileMissing(d', ptrs', l)
  {
    hide FileMissing, FileParting;
  }

  /** The first byte needs what the path to it lacks. */
  lemma FirstNeed(d: Disk, ptrs: seq<nat>, bs: nat, off: nat, len: nat, free: nat, done: nat)
    requires |ptrs| == SLOTS && bs > 0 && len > 0 && AsFits(d, ptrs, bs, off, len, free, done)
    ensures done == 0 <==> free < FileMissing(d, ptrs, BlockIdx(bs, off))
  {
    hide FileMissing, FileParting, BlockIdx;
    var lo := BlockIdx(bs, off);
    assert RangeNeed(d, ptrs, lo, lo + 1) == FileMissing(d, ptrs, lo);
    assert Needed(d, ptrs, bs, off, 1) == FileMissing(d, ptrs, lo);
  }
}
