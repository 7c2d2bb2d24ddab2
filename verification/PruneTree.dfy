/** Cutting a tree back to its first `keep` data blocks. */
module PruneTree {
  import opened Bits
  import opened BlockTree

  /** Truncating subtraction, as `saturating_sub`. */
  function Sub(a: nat, b: nat): nat { if a > b then a - b else 0 }

  /** The first index below pointer `i` of an indirect block. */
  function Offset(ppb: nat, depth: nat, i: nat): nat
    requires ppb > 0
  {
    i * Span(ppb, depth)
  }

  /** Lookups below `keep` are those of the old tree; all others are holes. */
  ghost predicate Pruned(d: Disk, p: nat, d': Disk, p': nat, depth: nat, keep: nat) {
    forall idx: nat :: idx < Span(d.ppb, depth) ==>
      Map(d', p', depth, idx) == if idx < keep then Map(d, p, depth, idx) else 0
  }

  lemma PrunedKeepAll(d: Disk, p: nat, depth: nat, keep: nat)
    requires keep >= Span(d.ppb, depth) || p == 0
    ensures Pruned(d, p, d, p, depth, keep)
  {
    hide Span;
    forall idx: nat | idx < Span(d.ppb, depth) ensures Map(d, p, depth, idx) == if idx < keep then Map(d, p, depth, idx) else 0 {
      if p == 0 { EmptyMap(d, depth, idx); }
    }
  }

  lemma PrunedAll(d: Disk, p: nat, d': Disk, depth: nat)
    ensures Pruned(d, p, d', 0, depth, 0)
  {
    hide Span;
    forall idx: nat | idx < Span(d.ppb, depth) ensures Map(d', 0, depth, idx) == 0 { EmptyMap(d', depth, idx); }
  }

  lemma PrunedSame(d: Disk, p: nat, d1: Disk, p1: nat, d2: Disk, p2: nat, depth: nat, keep: nat)
    requires Pruned(d, p, d1, p1, depth, keep) && SameTree(d1, p1, d2, p2, depth) && d.ppb == d1.ppb
    ensures Pruned(d, p, d2, p2, depth, keep)
  {
    hide Span, Map, Blocks;
  }

  lemma PrunedFrom(d: Disk, p: nat, d1: Disk, p1: nat, d2: Disk, p2: nat, depth: nat, keep: nat)
    requires SameTree(d, p, d1, p1, depth) && Pruned(d1, p1, d2, p2, depth, keep)
    ensures Pruned(d, p, d2, p2, depth, keep)
  {
    hide Span, Map, Blocks;
  }

  lemma SameTreeTrans(d: Disk, p: nat, d1: Disk, p1: nat, d2: Disk, p2: nat, depth: nat)
    requires SameTree(d, p, d1, p1, depth) && SameTree(d1, p1, d2, p2, depth)
    ensures SameTree(d, p, d2, p2, depth)
  {
    hide Span, Map, Blocks;
  }

  lemma SameTreeRefl(d: Disk, p: nat, depth: nat)
    ensures SameTree(d, p, d, p, depth)
  {
  }

  /** The first `i` pointers of an indirect block are pruned, the others untouched. */
  ghost predicate KidPruned(d0: Disk, b0: seq<byte>, d: Disk, b: seq<byte>, depth: nat, i: nat, keep: nat, j: nat) {
    if j < i then Pruned(d0, Word(b0, j), d, Word(b, j), depth, Sub(keep, Offset(d0.ppb, depth, j)))
    else SameTree(d0, Word(b0, j), d, Word(b, j), depth)
  }

  ghost predicate KidsPruned(d0: Disk, b0: seq<byte>, d: Disk, b: seq<byte>, depth: nat, i: nat, keep: nat) {
    d0.ppb == d.ppb && forall j :: 0 <= j < d0.ppb ==> KidPruned(d0, b0, d, b, depth, i, keep, j)
  }

  lemma KidsPrunedStart(d: Disk, b: seq<byte>, depth: nat, keep: nat)
    ensures KidsPruned(d, b, d, b, depth, 0, keep)
  {
    hide SameTree;
    forall j | 0 <= j < d.ppb ensures KidPruned(d, b, d, b, depth, 0, keep, j) {
      SameTreeRefl(d, Word(b, j), depth);
    }
  }

  /** In a block whose subtrees do not repeat, one kid's indirect blocks are apart from the others'. */
  lemma KidsSiblings(d: Disk, b: seq<byte>, depth: nat, i: nat, j: nat, s: set<nat>)
    requires i < d.ppb && j < d.ppb && i != j && NoDup(Kids(d, b, d.ppb, depth, Indirect))
    requires forall x <- s :: x in Blocks(d, Word(b, i), depth, Indirect)
    ensures Apart(Blocks(d, Word(b, j), depth, Indirect), s)
  {
    hide Blocks, Kids, Word;
    if i < j { KidPair(d, b, d.ppb, depth, Indirect, i, j); } else { KidPair(d, b, d.ppb, depth, Indirect, j, i); }
    forall x | x in Blocks(d, Word(b, j), depth, Indirect) ensures x !in s {
      assert Kids(d, b, d.ppb, depth, Indirect)[x] <= 1;
    }
  }

  /** Pruning the next pointer. */
  lemma PruneKid(d0: Disk, b0: seq<byte>, d: Disk, b: seq<byte>, d': Disk, b': seq<byte>, depth: nat, i: nat, keep: nat, s: set<nat>)
    requires KidsPruned(d0, b0, d, b, depth, i, keep) && i < d.ppb
    requires NoDup(Kids(d, b, d.ppb, depth, Indirect))
    requires SameOutside(d, d', s) && forall x <- s :: x in Blocks(d, Word(b, i), depth, Indirect)
    requires forall j :: 0 <= j < d.ppb && j != i ==> Word(b', j) == Word(b, j)
    requires Pruned(d, Word(b, i), d', Word(b', i), depth, Sub(keep, Offset(d.ppb, depth, i)))
    ensures KidsPruned(d0, b0, d', b', depth, i + 1, keep)
    ensures forall part :: Kids(d', b', d.ppb, depth, part) + Blocks(d, Word(b, i), depth, part)
                        == Kids(d, b, d.ppb, depth, part) + Blocks(d', Word(b', i), depth, part)
  {
    hide Blocks, Kids, Word, Pruned, SameTree, NoDup, Span;
    forall j | 0 <= j < d.ppb && j != i ensures SameTree(d, Word(b, j), d', Word(b', j), depth) {
      KidsSiblings(d, b, depth, i, j, s);
      FrameOutside(d, d', s, Word(b, j), depth);
    }
    var i' := i + 1;
    forall j | 0 <= j < d.ppb ensures KidPruned(d0, b0, d', b', depth, i', keep, j) {
      assert KidPruned(d0, b0, d, b, depth, i, keep, j);
      if j < i {
        PrunedSame(d0, Word(b0, j), d, Word(b, j), d', Word(b', j), depth, Sub(keep, Offset(d0.ppb, depth, j)));
      } else if j > i {
        SameTreeTrans(d0, Word(b0, j), d, Word(b, j), d', Word(b', j), depth);
      } else {
        PrunedFrom(d0, Word(b0, i), d, Word(b, i), d', Word(b', i), depth, Sub(keep, Offset(d.ppb, depth, i)));
      }
    }
    forall part
      ensures Kids(d', b', d.ppb, depth, part) + Blocks(d, Word(b, i), depth, part)
           == Kids(d, b, d.ppb, depth, part) + Blocks(d', Word(b', i), depth, part)
    {
      forall j | 0 <= j < d.ppb && j != i
        ensures Blocks(d, Word(b, j), depth, part) == Blocks(d', Word(b', j), depth, part)
      {
        SameBlocks(d, Word(b, j), d', Word(b', j), depth, part);
      }
      KidExchange(d, b, d', b', d.ppb, depth, part, i);
    }
  }

  lemma SameBlocks(d: Disk, p: nat, d': Disk, p': nat, depth: nat, part: Part)
    requires SameTree(d, p, d', p', depth)
    ensures Blocks(d', p', depth, part) == Blocks(d, p, depth, part)
  {
  }

  /** Pruning every pointer of an indirect block prunes the block's tree, whether the block is
      then kept with the new pointers or, if they are all zero, dropped. */
  lemma PruneNode(d0: Disk, p: nat, d: Disk, b: seq<byte>, d': Disk, p': nat, depth: nat, keep: nat)
    requires p != 0 && depth > 0 && KidsPruned(d0, Content(d0, p), d, b, depth - 1, d0.ppb, keep)
    requires forall j :: 0 <= j < d0.ppb ==> SameTree(d, Word(b, j), d', Word(b, j), depth - 1)
    requires (p' == p && Content(d', p) == b) || (p' == 0 && forall j :: 0 <= j < d0.ppb ==> Word(b, j) == 0)
    ensures Pruned(d0, p, d', p', depth, keep)
  {
    hide Blocks, Word, Span, Map, SameTree, Content, Digit, Rest;
    var b0 := Content(d0, p);
    var w := Span(d0.ppb, depth - 1);
    forall idx: nat | idx < Span(d0.ppb, depth)
      ensures Map(d', p', depth, idx) == if idx < keep then Map(d0, p, depth, idx) else 0
    {
      var i, r := Digit(d0.ppb, depth - 1, idx), Rest(d0.ppb, depth - 1, idx);
      assert d0.ppb == d.ppb;
      MapNode(d0, p, depth, idx);
      assert KidPruned(d0, b0, d, b, depth - 1, d0.ppb, keep, i);
      SamePpb(d, Word(b, i), d', Word(b, i), depth - 1);
      PrunedSame(d0, Word(b0, i), d, Word(b, i), d', Word(b, i), depth - 1, Sub(keep, Offset(d0.ppb, depth - 1, i)));
      assert Map(d', Word(b, i), depth - 1, r) == if r < Sub(keep, Offset(d0.ppb, depth - 1, i)) then Map(d0, Word(b0, i), depth - 1, r) else 0;
      assert Offset(d0.ppb, depth - 1, i) == i * w;
      assert r < Sub(keep, Offset(d0.ppb, depth - 1, i)) <==> idx < keep;
      if p' == 0 {
        EmptyMap(d', depth - 1, r);
        EmptyMap(d', depth, idx);
      } else {
        MapNode(d', p, depth, idx);
      }
    }
  }

  lemma SamePpb(d: Disk, p: nat, d': Disk, p': nat, depth: nat)
    requires SameTree(d, p, d', p', depth)
    ensures d.ppb == d'.ppb
  {
  }

  // ---- conservation -------------------------------------------------------------------------

  ghost function SetOf(m: multiset<nat>): set<nat> {
    set x | x in m
  }

  ghost predicate AllIn(m: multiset<nat>, used: set<nat>) {
    forall x <- m :: x in used
  }

  /** All blocks under the pointers of the block content `b`. */
  ghost function KidTree(d: Disk, b: seq<byte>, depth: nat): multiset<nat> {
    Kids(d, b, d.ppb, depth, Indirect) + Kids(d, b, d.ppb, depth, Data)
  }

  /** The new tree is what is left of the old one after `gone` was freed; no block changed
      between data and indirect. */
  ghost predicate Split(d: Disk, p: nat, d': Disk, p': nat, depth: nat, gone: multiset<nat>) {
    && Tree(d', p', depth) + gone == Tree(d, p, depth)
    && forall part :: Blocks(d', p', depth, part) <= Blocks(d, p, depth, part)
  }

  ghost predicate KidSplit(d: Disk, b: seq<byte>, d': Disk, b': seq<byte>, depth: nat, gone: multiset<nat>) {
    && KidTree(d', b', depth) + gone == KidTree(d, b, depth)
    && forall part :: Kids(d', b', d'.ppb, depth, part) <= Kids(d, b, d.ppb, depth, part)
  }

  lemma ExchangeParts(k: multiset<nat>, k': multiset<nat>, b: multiset<nat>, b': multiset<nat>)
    requires k' + b == k + b' && b' <= b && b <= k
    ensures k' <= k
  {
    forall x ensures k'[x] <= k[x] { assert (k' + b)[x] == (k + b')[x]; }
  }

  lemma ExchangeSums(ki: multiset<nat>, kd: multiset<nat>, ki': multiset<nat>, kd': multiset<nat>,
                     bi: multiset<nat>, bd: multiset<nat>, bi': multiset<nat>, bd': multiset<nat>, g: multiset<nat>)
    requires ki' + bi == ki + bi' && kd' + bd == kd + bd' && (bi' + bd') + g == bi + bd
    ensures (ki' + kd') + g == ki + kd
  {
    forall x ensures ((ki' + kd') + g)[x] == (ki + kd)[x] {
      assert (ki' + bi)[x] == (ki + bi')[x] && (kd' + bd)[x] == (kd + bd')[x];
      assert ((bi' + bd') + g)[x] == (bi + bd)[x];
    }
  }

  /** Splitting one kid splits the whole block content. */
  lemma SplitKid(d: Disk, b: seq<byte>, d': Disk, b': seq<byte>, depth: nat, i: nat, gone: multiset<nat>)
    requires i < d.ppb && d.ppb == d'.ppb && Split(d, Word(b, i), d', Word(b', i), depth, gone)
    requires forall part :: Kids(d', b', d.ppb, depth, part) + Blocks(d, Word(b, i), depth, part)
                         == Kids(d, b, d.ppb, depth, part) + Blocks(d', Word(b', i), depth, part)
    ensures KidSplit(d, b, d', b', depth, gone)
  {
    hide Kids, Blocks, Word;
    var q, q', n := Word(b, i), Word(b', i), d.ppb;
    ExchangeSums(Kids(d, b, n, depth, Indirect), Kids(d, b, n, depth, Data),
                 Kids(d', b', n, depth, Indirect), Kids(d', b', n, depth, Data),
                 Blocks(d, q, depth, Indirect), Blocks(d, q, depth, Data),
                 Blocks(d', q', depth, Indirect), Blocks(d', q', depth, Data), gone);
    forall part ensures Kids(d', b', n, depth, part) <= Kids(d, b, n, depth, part) {
      KidSub(d, b, n, depth, part, i);
      ExchangeParts(Kids(d, b, n, depth, part), Kids(d', b', n, depth, part),
                    Blocks(d, q, depth, part), Blocks(d', q', depth, part));
    }
  }

  lemma KidSplitTrans(d: Disk, b: seq<byte>, d1: Disk, b1: seq<byte>, d2: Disk, b2: seq<byte>, depth: nat, g: multiset<nat>, h: multiset<nat>)
    requires KidSplit(d, b, d1, b1, depth, g) && KidSplit(d1, b1, d2, b2, depth, h)
    ensures KidSplit(d, b, d2, b2, depth, g + h)
  {
    hide Kids;
    var a, m, z := KidTree(d, b, depth), KidTree(d1, b1, depth), KidTree(d2, b2, depth);
    assert z + (g + h) == a by {
      assert z + (g + h) == (z + h) + g;
    }
    forall part ensures Kids(d2, b2, d2.ppb, depth, part) <= Kids(d, b, d.ppb, depth, part) {
      assert Kids(d2, b2, d2.ppb, depth, part) <= Kids(d1, b1, d1.ppb, depth, part) <= Kids(d, b, d.ppb, depth, part);
    }
  }

  lemma KidSplitRefl(d: Disk, b: seq<byte>, depth: nat)
    ensures KidSplit(d, b, d, b, depth, multiset{})
  {
  }

  /** The kid at `i` of a sound block content: without repetition and all in use. */
  lemma KidSound(d: Disk, b: seq<byte>, depth: nat, i: nat, used: set<nat>)
    requires i < d.ppb && NoDup(KidTree(d, b, depth)) && AllIn(KidTree(d, b, depth), used)
    ensures NoDup(Tree(d, Word(b, i), depth)) && AllIn(Tree(d, Word(b, i), depth), used)
    ensures NoDup(Kids(d, b, d.ppb, depth, Indirect))
  {
    hide Kids, Blocks, Word, NoDup;
    KidSub(d, b, d.ppb, depth, Indirect, i);
    KidSub(d, b, d.ppb, depth, Data, i);
    var t, k := Tree(d, Word(b, i), depth), KidTree(d, b, depth);
    assert t <= k;
    NoDupSub(t, k);
    NoDupSub(Kids(d, b, d.ppb, depth, Indirect), k);
    forall x | x in t ensures x in used { assert x in k; }
  }

  /** What remains after freeing is sound for the blocks that remain in use. */
  lemma RestSound(all: multiset<nat>, rest: multiset<nat>, gone: multiset<nat>, used: set<nat>, used': set<nat>)
    requires rest + gone == all && NoDup(all) && AllIn(all, used) && used' == used - SetOf(gone)
    ensures NoDup(rest) && AllIn(rest, used')
  {
    NoDupSub(rest, all);
    forall x | x in rest ensures x in used' {
      assert x in all && all[x] <= 1;
    }
  }

  /** The root and its pointers. */
  lemma TreeNode(d: Disk, p: nat, depth: nat)
    requires p != 0 && depth > 0
    ensures Tree(d, p, depth) == multiset{p} + KidTree(d, Content(d, p), depth - 1)
  {
    hide Kids, Blocks, Content;
    BlocksNode(d, p, depth, Indirect);
    BlocksNode(d, p, depth, Data);
  }
}
