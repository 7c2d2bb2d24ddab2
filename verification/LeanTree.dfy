/** After a cut, no indirect block that reaches past it is left without pointers. */
module LeanTree {
  import opened Bits
  import opened BlockTree
  import opened PruneTree
  import opened InodeTree
  import opened FileSpace
  import opened FileGrow

  ghost predicate HasPointer(d: Disk, cur: nat) {
    exists j :: 0 <= j < d.ppb && Word(Content(d, cur), j) != 0
  }

  /** Every indirect block of the tree that reaches index `keep` has a pointer. */
  ghost predicate Lean(d: Disk, p: nat, depth: nat, keep: nat)
    decreases depth
  {
    p != 0 && depth > 0 && keep < Span(d.ppb, depth) ==>
      && HasPointer(d, p)
      && forall j :: 0 <= j < d.ppb ==> Lean(d, Word(Content(d, p), j), depth - 1, Sub(keep, Offset(d.ppb, depth - 1, j)))
  }

  lemma LeanNone(d: Disk, p: nat, depth: nat, keep: nat)
    requires p == 0 || depth == 0 || Span(d.ppb, depth) <= keep
    ensures Lean(d, p, depth, keep)
  {
  }

  lemma {:induction false} LeanFrame(d: Disk, d': Disk, p: nat, depth: nat, keep: nat)
    requires Agree(d, d', Blocks(d, p, depth, Indirect)) && Lean(d, p, depth, keep)
    ensures Lean(d', p, depth, keep)
    decreases depth
  {
    hide Blocks, Content, Word, Span, Offset, Agree;
    SamePpbOf(d, d', Blocks(d, p, depth, Indirect));
    if p != 0 && depth > 0 && keep < Span(d.ppb, depth) {
      AgreeKid(d, d', p, depth, 0);
      forall j | 0 <= j < d.ppb ensures Lean(d', Word(Content(d', p), j), depth - 1, Sub(keep, Offset(d.ppb, depth - 1, j))) {
        AgreeKid(d, d', p, depth, j);
        LeanFrame(d, d', Word(Content(d, p), j), depth - 1, Sub(keep, Offset(d.ppb, depth - 1, j)));
      }
    }
  }

  lemma SamePpbOf(d: Disk, d': Disk, m: multiset<nat>)
    requires Agree(d, d', m)
    ensures d.ppb == d'.ppb
  {
  }

  lemma LeanOutside(d: Disk, d': Disk, s: set<nat>, p: nat, depth: nat, keep: nat)
    requires SameOutside(d, d', s) && Apart(Blocks(d, p, depth, Indirect), s) && Lean(d, p, depth, keep)
    ensures Lean(d', p, depth, keep)
  {
    hide Content, Blocks, Lean;
    assert Agree(d, d', Blocks(d, p, depth, Indirect));
    LeanFrame(d, d', p, depth, keep);
  }

  // ---- the pointers of one block ---------------------------------------------------------------------

  /** The first `n` pointers of the block content `b` lead to lean trees. */
  ghost predicate KidsLean(d: Disk, b: seq<byte>, depth: nat, n: nat, keep: nat) {
    forall j :: 0 <= j < n ==> Lean(d, Word(b, j), depth, Sub(keep, Offset(d.ppb, depth, j)))
  }

  lemma KidsLeanStep(d: Disk, b: seq<byte>, d': Disk, b': seq<byte>, depth: nat, i: nat, keep: nat)
    requires i < d.ppb && NoDup(Kids(d, b, d.ppb, depth, Indirect)) && KidsLean(d, b, depth, i, keep)
    requires SameOutside(d, d', SetOf(Blocks(d, Word(b, i), depth, Indirect)))
    requires forall j :: 0 <= j < d.ppb && j != i ==> Word(b', j) == Word(b, j)
    requires Lean(d', Word(b', i), depth, Sub(keep, Offset(d.ppb, depth, i)))
    ensures KidsLean(d', b', depth, i + 1, keep)
  {
    hide Content, Kids, Blocks, Word, Lean, NoDup, Offset;
    var s := SetOf(Blocks(d, Word(b, i), depth, Indirect));
    forall j | 0 <= j < i ensures Lean(d', Word(b', j), depth, Sub(keep, Offset(d.ppb, depth, j))) {
      KidsSiblings(d, b, depth, i, j, s);
      LeanOutside(d, d', s, Word(b, j), depth, Sub(keep, Offset(d.ppb, depth, j)));
    }
  }

  lemma NodeLean(d: Disk, p: nat, b: seq<byte>, depth: nat, keep: nat)
    requires p < |d.blocks| && depth > 0 && KidsLean(d, b, depth - 1, d.ppb, keep)
    requires Apart(Kids(d, b, d.ppb, depth - 1, Indirect), {p}) && exists j :: 0 <= j < d.ppb && Word(b, j) != 0
    ensures Lean(Put(d, p, b), p, depth, keep)
  {
    hide Kids, Blocks, Word, Offset, Span, NoDup;
    var d' := Put(d, p, b);
    assert SameOutside(d, d', {p}) && Content(d', p) == b;
    assert HasPointer(d', p);
    hide Content, SameOutside;
    forall j | 0 <= j < d.ppb ensures Lean(d', Word(b, j), depth - 1, Sub(keep, Offset(d.ppb, depth - 1, j))) {
      KidSub(d, b, d.ppb, depth - 1, Indirect, j);
      ApartSub(Blocks(d, Word(b, j), depth - 1, Indirect), Kids(d, b, d.ppb, depth - 1, Indirect), {p});
      LeanOutside(d, d', {p}, Word(b, j), depth - 1, Sub(keep, Offset(d.ppb, depth - 1, j)));
    }
  }

  // ---- the slots of a file ------------------------------------------------------------------------------

  ghost predicate SlotsLean(d: Disk, ptrs: seq<nat>, n: nat, keep: nat)
    requires |ptrs| == SLOTS && n <= SLOTS
  {
    forall j :: 0 <= j < n ==> Lean(d, ptrs[j], Depth(j), Sub(keep, Base(d.ppb, j)))
  }

  lemma SlotsLeanStep(d: Disk, p: seq<nat>, d': Disk, q: nat, i: nat, keep: nat)
    requires |p| == SLOTS && i < SLOTS && NoDup(Slots(d, p, SLOTS, Indirect)) && SlotsLean(d, p, i, keep)
    requires SameOutside(d, d', SetOf(Blocks(d, p[i], Depth(i), Indirect)))
    requires Lean(d', q, Depth(i), Sub(keep, Base(d.ppb, i)))
    ensures SlotsLean(d', p[i := q], i + 1, keep)
  {
    hide Content, Slots, Blocks, Lean, NoDup, Depth, Base;
    var s := SetOf(Blocks(d, p[i], Depth(i), Indirect));
    forall j | 0 <= j < i ensures Lean(d', p[j], Depth(j), Sub(keep, Base(d.ppb, j))) {
      SlotSiblings(d, p, i, j, s);
      LeanOutside(d, d', s, p[j], Depth(j), Sub(keep, Base(d.ppb, j)));
    }
  }

  lemma DirectLean(d: Disk, ptrs: seq<nat>, n: nat, keep: nat)
    requires |ptrs| == SLOTS && n <= DIRECT
    ensures SlotsLean(d, ptrs, n, keep)
  {
  }

  /** Data blocks hold no pointers. */
  lemma DataWriteLean(d: Disk, d': Disk, ptrs: seq<nat>, lb: nat, keep: nat)
    requires |ptrs| == SLOTS && NoDup(FileTree(d, ptrs)) && FileMap(d, ptrs, lb) != 0
    requires SameOutside(d, d', {FileMap(d, ptrs, lb)}) && SlotsLean(d, ptrs, SLOTS, keep)
    ensures SlotsLean(d', ptrs, SLOTS, keep)
  {
    hide Blocks, Slots, FileMap, FileTree, NoDup, Content, Depth, Base, Lean;
    var p := FileMap(d, ptrs, lb);
    FileMapIsData(d, ptrs, lb);
    DataIsNotIndirect(d, ptrs, p);
    forall j | 0 <= j < SLOTS ensures Lean(d', ptrs[j], Depth(j), Sub(keep, Base(d.ppb, j))) {
      SlotSub(d, ptrs, SLOTS, Indirect, j);
      LeanOutside(d, d', {p}, ptrs[j], Depth(j), Sub(keep, Base(d.ppb, j)));
    }
  }

  // ---- seen from a file block --------------------------------------------------------------------------

  /** Every indirect block on the path to a file block from `keep` on has a pointer. */
  ghost predicate FileLean(d: Disk, ptrs: seq<nat>, keep: nat)
    requires |ptrs| == SLOTS
  {
    forall l: nat, cur: nat, k: nat, r: nat :: keep <= l && Reaches(d, ptrs, l, cur, k, r) && k > 0 && cur != 0 ==> HasPointer(d, cur)
  }

  lemma {:induction false} LeanPath(d: Disk, p: nat, depth: nat, keep: nat, idx: nat, cur: nat, k: nat, r: nat)
    requires Lean(d, p, depth, keep) && keep <= idx < Span(d.ppb, depth)
    requires OnPath(d, p, depth, idx, cur, k, r) && k > 0 && cur != 0
    ensures HasPointer(d, cur)
    decreases depth
  {
    if depth > k {
      hide Span, Digit, Rest, Word, Content, HasPointer;
      var i := Digit(d.ppb, depth - 1, idx);
      MapNode(d, p, depth, idx);
      DigitRest(d.ppb, depth - 1, idx);
      assert Offset(d.ppb, depth - 1, i) == i * Span(d.ppb, depth - 1);
      LeanPath(d, Word(Content(d, p), i), depth - 1, Sub(keep, Offset(d.ppb, depth - 1, i)), Rest(d.ppb, depth - 1, idx), cur, k, r);
    }
  }

  lemma AllLean(d: Disk, ptrs: seq<nat>, keep: nat)
    requires |ptrs| == SLOTS && SlotsLean(d, ptrs, SLOTS, keep)
    ensures FileLean(d, ptrs, keep)
  {
    hide Lean, HasPointer, OnPath, Locate, Depth, Base, Span;
    forall l: nat, cur: nat, k: nat, r: nat | keep <= l && Reaches(d, ptrs, l, cur, k, r) && k > 0 && cur != 0 ensures HasPointer(d, cur) {
      var pl := Locate(d.ppb, l);
      LocateBase(d.ppb, l);
      LeanPath(d, ptrs[pl.slot], Depth(pl.slot), Sub(keep, Base(d.ppb, pl.slot)), pl.rel, cur, k, r);
    }
  }
}
