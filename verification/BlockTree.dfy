/** The tree of indirect blocks under one block pointer, read off the device.

    `depth` 0 is a data block; an indirect block at depth `k` holds `ppb` pointers to depth
    `k - 1`. A zero pointer is a hole.
  */
module BlockTree {
  import opened Bits

  /** The device: `ppb` is the number of pointers in a block. */
  datatype RawDisk = Disk(ppb: nat, blocks: seq<seq<byte>>)
  type Disk = d: RawDisk | d.ppb > 0 witness Disk(1, [])

  function Content(d: Disk, p: nat): seq<byte> {
    if p < |d.blocks| then d.blocks[p] else []
  }

  /** The `i`-th pointer of a block, zero outside it. */
  function Word(b: seq<byte>, i: nat): nat {
    if 4 * i + 4 <= |b| then Ptr(b, i) else 0
  }

  // ---- positions ---------------------------------------------------------------------

  /** How many data blocks lie under a pointer of the given depth. */
  function Span(ppb: nat, depth: nat): (s: nat)
    requires ppb > 0
    ensures s > 0
  {
    if depth == 0 then 1 else Positive(ppb, Span(ppb, depth - 1)); ppb * Span(ppb, depth - 1)
  }

  lemma Positive(a: nat, b: nat)
    requires a > 0 && b > 0
    ensures a * b > 0
  {
  }

  /** Which pointer of a block at depth `depth + 1` leads to data block `idx`, and the index
      below it. */
  function Digit(ppb: nat, depth: nat, idx: nat): nat
    requires ppb > 0
  {
    DivNat(idx, Span(ppb, depth));
    idx / Span(ppb, depth)
  }

  function Rest(ppb: nat, depth: nat, idx: nat): nat
    requires ppb > 0
  {
    idx % Span(ppb, depth)
  }

  lemma DivNat(a: nat, b: nat)
    requires b > 0
    ensures 0 <= a / b
  {
  }

  lemma DigitRest(ppb: nat, depth: nat, idx: nat)
    requires ppb > 0
    ensures idx == Digit(ppb, depth, idx) * Span(ppb, depth) + Rest(ppb, depth, idx)
    ensures Rest(ppb, depth, idx) < Span(ppb, depth)
  {
  }

  lemma DigitBound(ppb: nat, depth: nat, idx: nat)
    requires ppb > 0 && idx < Span(ppb, depth + 1)
    ensures Digit(ppb, depth, idx) < ppb
  {
    hide Digit, Rest;
    var s, g := Span(ppb, depth), Digit(ppb, depth, idx);
    assert Span(ppb, depth + 1) == ppb * s;
    hide Span;
    DigitRest(ppb, depth, idx);
    if g >= ppb { MulMono(ppb, g, s); }
  }

  lemma MulMono(a: nat, b: nat, s: nat)
    requires a <= b
    ensures a * s <= b * s
  {
  }

  // ---- lookup and contents of a tree ---------------------------------------------------

  /** The data block at index `idx` under pointer `p`, or 0 for a hole. */
  function Map(d: Disk, p: nat, depth: nat, idx: nat): nat
    decreases depth
  {
    if p == 0 || depth == 0 then p
    else Map(d, Word(Content(d, p), Digit(d.ppb, depth - 1, idx)), depth - 1, Rest(d.ppb, depth - 1, idx))
  }

  /** Which blocks of a tree: the indirect ones or the data ones. */
  datatype Part = Indirect | Data

  ghost function One(b: bool, p: nat): multiset<nat> {
    if b then multiset{p} else multiset{}
  }

  /** The indirect, or the data, blocks under pointer `p`, with multiplicity. */
  ghost function Blocks(d: Disk, p: nat, depth: nat, part: Part): multiset<nat>
    decreases depth, 0
  {
    if p == 0 then multiset{}
    else if depth == 0 then One(part.Data?, p)
    else One(part.Indirect?, p) + Kids(d, Content(d, p), d.ppb, depth - 1, part)
  }

  /** The blocks under the first `n` pointers of the block content `b`. */
  ghost function Kids(d: Disk, b: seq<byte>, n: nat, depth: nat, part: Part): multiset<nat>
    decreases depth, n + 1
  {
    if n == 0 then multiset{}
    else Kids(d, b, n - 1, depth, part) + Blocks(d, Word(b, n - 1), depth, part)
  }

  /** All blocks under pointer `p`. */
  ghost function Tree(d: Disk, p: nat, depth: nat): multiset<nat> {
    Blocks(d, p, depth, Indirect) + Blocks(d, p, depth, Data)
  }

  ghost predicate NoDup(m: multiset<nat>) {
    forall x :: m[x] <= 1
  }

  lemma NoDupSub(m: multiset<nat>, n: multiset<nat>)
    requires NoDup(n) && m <= n
    ensures NoDup(m)
  {
  }

  lemma SumsExchange(a: multiset<nat>, b: multiset<nat>, c: multiset<nat>, d: multiset<nat>, t: multiset<nat>)
    requires a + b == c + d
    ensures (a + t) + b == (c + t) + d
  {
    forall x ensures ((a + t) + b)[x] == ((c + t) + d)[x] { assert (a + b)[x] == (c + d)[x]; }
  }

  lemma SumCancel(k: multiset<nat>, k': multiset<nat>, b: multiset<nat>, x: multiset<nat>)
    requires k + (b + x) == k' + b
    ensures k' == k + x
  {
    forall y ensures k'[y] == (k + x)[y] { assert (k + (b + x))[y] == (k' + b)[y]; }
  }

  // ---- sums over kids --------------------------------------------------------------------

  lemma {:induction false} KidSub(d: Disk, b: seq<byte>, n: nat, depth: nat, part: Part, i: nat)
    requires i < n
    ensures Blocks(d, Word(b, i), depth, part) <= Kids(d, b, n, depth, part)
    decreases n
  {
    hide Blocks, Word;
    if i < n - 1 { KidSub(d, b, n - 1, depth, part, i); }
  }

  lemma {:induction false} KidPair(d: Disk, b: seq<byte>, n: nat, depth: nat, part: Part, i: nat, j: nat)
    requires i < j < n
    ensures Blocks(d, Word(b, i), depth, part) + Blocks(d, Word(b, j), depth, part) <= Kids(d, b, n, depth, part)
    decreases n
  {
    hide Blocks, Word;
    if j < n - 1 {
      KidPair(d, b, n - 1, depth, part, i, j);
    } else {
      KidSub(d, b, n - 1, depth, part, i);
    }
  }

  /** Kids whose own subtrees agree agree in sum. */
  lemma {:induction false} KidsCongruent(d: Disk, b: seq<byte>, d': Disk, b': seq<byte>, n: nat, depth: nat, part: Part)
    requires forall i :: 0 <= i < n ==> Blocks(d, Word(b, i), depth, part) == Blocks(d', Word(b', i), depth, part)
    ensures Kids(d, b, n, depth, part) == Kids(d', b', n, depth, part)
    decreases n
  {
    hide Blocks, Word;
    if n > 0 { KidsCongruent(d, b, d', b', n - 1, depth, part); }
  }

  /** Exchanging one kid changes the sum by exactly that kid. */
  lemma {:induction false} KidExchange(d: Disk, b: seq<byte>, d': Disk, b': seq<byte>, n: nat, depth: nat, part: Part, i: nat)
    requires i < n
    requires forall j :: 0 <= j < n && j != i ==> Blocks(d, Word(b, j), depth, part) == Blocks(d', Word(b', j), depth, part)
    ensures Kids(d, b, n, depth, part) + Blocks(d', Word(b', i), depth, part)
            == Kids(d', b', n, depth, part) + Blocks(d, Word(b, i), depth, part)
    decreases n
  {
    hide Blocks, Word;
    if i < n - 1 {
      KidExchange(d, b, d', b', n - 1, depth, part, i);
      SumsExchange(Kids(d, b, n - 1, depth, part), Blocks(d', Word(b', i), depth, part),
                   Kids(d', b', n - 1, depth, part), Blocks(d, Word(b, i), depth, part),
                   Blocks(d, Word(b, n - 1), depth, part));
    } else {
      KidsCongruent(d, b, d', b', n - 1, depth, part);
    }
  }

  lemma BlocksNode(d: Disk, p: nat, depth: nat, part: Part)
    requires p != 0 && depth > 0
    ensures Blocks(d, p, depth, part) == One(part.Indirect?, p) + Kids(d, Content(d, p), d.ppb, depth - 1, part)
    ensures p in Blocks(d, p, depth, Indirect)
  {
  }

  lemma KidOfTree(d: Disk, p: nat, depth: nat, part: Part, i: nat)
    requires p != 0 && depth > 0 && i < d.ppb
    ensures Blocks(d, Word(Content(d, p), i), depth - 1, part) <= Blocks(d, p, depth, part)
  {
    hide Word, Content, Blocks, Kids;
    BlocksNode(d, p, depth, part);
    KidSub(d, Content(d, p), d.ppb, depth - 1, part, i);
  }

  // ---- framing ---------------------------------------------------------------------------

  /** The two devices hold the same content in all of `m`. */
  ghost predicate Agree(d: Disk, d': Disk, m: multiset<nat>) {
    d.ppb == d'.ppb && forall x <- m :: Content(d, x) == Content(d', x)
  }

  lemma AgreeSub(d: Disk, d': Disk, m: multiset<nat>, n: multiset<nat>)
    requires Agree(d, d', n) && m <= n
    ensures Agree(d, d', m)
  {
    hide Content;
    forall x | x in m ensures Content(d, x) == Content(d', x) { assert x in n; }
  }

  lemma AgreeKid(d: Disk, d': Disk, p: nat, depth: nat, i: nat)
    requires p != 0 && depth > 0 && i < d.ppb && Agree(d, d', Blocks(d, p, depth, Indirect))
    ensures Agree(d, d', Blocks(d, Word(Content(d, p), i), depth - 1, Indirect))
    ensures Content(d, p) == Content(d', p) && d.ppb == d'.ppb
  {
    hide Word, Content, Blocks, Kids;
    BlocksNode(d, p, depth, Indirect);
    KidOfTree(d, p, depth, Indirect, i);
    AgreeSub(d, d', Blocks(d, Word(Content(d, p), i), depth - 1, Indirect), Blocks(d, p, depth, Indirect));
  }

  lemma NoKids(d: Disk, d': Disk, p: nat, depth: nat, part: Part)
    requires p == 0 || depth == 0
    ensures Blocks(d', p, depth, part) == Blocks(d, p, depth, part)
  {
  }

  /** A tree depends on its indirect blocks only. */
  lemma {:induction false} TreeFrame(d: Disk, d': Disk, p: nat, depth: nat, part: Part)
    requires Agree(d, d', Blocks(d, p, depth, Indirect))
    ensures Blocks(d', p, depth, part) == Blocks(d, p, depth, part)
    decreases depth
  {
    hide Word, Content, Blocks, Kids, Agree;
    if p == 0 || depth == 0 {
      NoKids(d, d', p, depth, part);
    } else {
      var b := Content(d, p);
      AgreeKid(d, d', p, depth, 0);
      forall i | 0 <= i < d.ppb
        ensures Blocks(d, Word(b, i), depth - 1, part) == Blocks(d', Word(b, i), depth - 1, part)
      {
        AgreeKid(d, d', p, depth, i);
        TreeFrame(d, d', Word(b, i), depth - 1, part);
      }
      KidsCongruent(d, b, d', b, d.ppb, depth - 1, part);
      BlocksNode(d, p, depth, part);
      BlocksNode(d', p, depth, part);
    }
  }

  /** The step of a lookup. */
  lemma MapNode(d: Disk, p: nat, depth: nat, idx: nat)
    requires p != 0 && depth > 0 && idx < Span(d.ppb, depth)
    ensures var i, r := Digit(d.ppb, depth - 1, idx), Rest(d.ppb, depth - 1, idx);
            && i < d.ppb && r < Span(d.ppb, depth - 1)
            && idx == i * Span(d.ppb, depth - 1) + r
            && Map(d, p, depth, idx) == Map(d, Word(Content(d, p), i), depth - 1, r)
  {
    hide Span, Digit, Rest;
    DigitBound(d.ppb, depth - 1, idx);
    DigitRest(d.ppb, depth - 1, idx);
  }

  lemma {:induction false} MapFrame(d: Disk, d': Disk, p: nat, depth: nat, idx: nat)
    requires Agree(d, d', Blocks(d, p, depth, Indirect)) && idx < Span(d.ppb, depth)
    ensures Map(d', p, depth, idx) == Map(d, p, depth, idx)
    decreases depth
  {
    if p != 0 && depth > 0 {
      hide Span, Digit, Rest, Word, Content, Blocks, Map, Agree;
      var i := Digit(d.ppb, depth - 1, idx);
      MapNode(d, p, depth, idx);
      AgreeKid(d, d', p, depth, i);
      MapNode(d', p, depth, idx);
      MapFrame(d, d', Word(Content(d, p), i), depth - 1, Rest(d.ppb, depth - 1, idx));
    }
  }

  // ---- a lookup names one data block ---------------------------------------------------------

  lemma {:induction false} MapIsData(d: Disk, p: nat, depth: nat, idx: nat)
    requires idx < Span(d.ppb, depth) && Map(d, p, depth, idx) != 0
    ensures Map(d, p, depth, idx) in Blocks(d, p, depth, Data)
    decreases depth
  {
    if p != 0 && depth > 0 {
      hide Span, Digit, Rest, Word, Content, Blocks, Map;
      var i := Digit(d.ppb, depth - 1, idx);
      MapNode(d, p, depth, idx);
      KidOfTree(d, p, depth, Data, i);
      MapIsData(d, Word(Content(d, p), i), depth - 1, Rest(d.ppb, depth - 1, idx));
    }
  }

  /** In a tree without repetition, different indices never share a data block. */
  lemma {:induction false} MapInjective(d: Disk, p: nat, depth: nat, idx: nat, idx': nat)
    requires NoDup(Blocks(d, p, depth, Data)) && idx < Span(d.ppb, depth) && idx' < Span(d.ppb, depth)
    requires Map(d, p, depth, idx) == Map(d, p, depth, idx') != 0
    ensures idx == idx'
    decreases depth
  {
    if depth > 0 {
      assert p != 0;
      hide Span, Digit, Rest, Word, Content, Blocks, Map;
      var b, k := Content(d, p), depth - 1;
      var i, i', r, r' := Digit(d.ppb, k, idx), Digit(d.ppb, k, idx'), Rest(d.ppb, k, idx), Rest(d.ppb, k, idx');
      MapNode(d, p, depth, idx);
      MapNode(d, p, depth, idx');
      MapIsData(d, Word(b, i), k, r);
      MapIsData(d, Word(b, i'), k, r');
      if i < i' { KidsApart(d, p, depth, i, i', Map(d, p, depth, idx)); }
      if i' < i { KidsApart(d, p, depth, i', i, Map(d, p, depth, idx)); }
      KidOfTree(d, p, depth, Data, i);
      NoDupSub(Blocks(d, Word(b, i), k, Data), Blocks(d, p, depth, Data));
      MapInjective(d, Word(b, i), k, r, r');
    } else {
      assert Span(d.ppb, 0) == 1;
    }
  }

  lemma KidsApart(d: Disk, p: nat, depth: nat, i: nat, j: nat, x: nat)
    requires p != 0 && depth > 0 && i < j < d.ppb && NoDup(Blocks(d, p, depth, Data))
    ensures !(x in Blocks(d, Word(Content(d, p), i), depth - 1, Data)
              && x in Blocks(d, Word(Content(d, p), j), depth - 1, Data))
  {
    hide Word, Content, Blocks, Kids;
    BlocksNode(d, p, depth, Data);
    KidPair(d, Content(d, p), d.ppb, depth - 1, Data, i, j);
    assert Blocks(d, p, depth, Data)[x] <= 1;
  }

  // ---- writing blocks ------------------------------------------------------------------------

  function Put(d: Disk, p: nat, c: seq<byte>): Disk {
    if p < |d.blocks| then Disk(d.ppb, d.blocks[p := c]) else d
  }

  /** The devices differ at most in the blocks of `s`. */
  ghost predicate SameOutside(d: Disk, d': Disk, s: set<nat>) {
    d.ppb == d'.ppb && |d.blocks| == |d'.blocks| && forall x: nat :: x !in s ==> Content(d, x) == Content(d', x)
  }

  ghost predicate Apart(m: multiset<nat>, s: set<nat>) {
    forall x <- m :: x !in s
  }

  lemma ApartSub(m: multiset<nat>, n: multiset<nat>, s: set<nat>)
    requires m <= n && Apart(n, s)
    ensures Apart(m, s)
  {
    forall x | x in m ensures x !in s { assert x in n; }
  }

  /** Pointer `p` on `d` and pointer `p'` on `d'` lead to the same blocks. */
  ghost predicate SameTree(d: Disk, p: nat, d': Disk, p': nat, depth: nat) {
    && d.ppb == d'.ppb
    && (forall part :: Blocks(d', p', depth, part) == Blocks(d, p, depth, part))
    && (forall idx: nat :: idx < Span(d.ppb, depth) ==> Map(d', p', depth, idx) == Map(d, p, depth, idx))
  }

  /** Writing outside a tree's indirect blocks leaves the tree. */
  lemma FrameOutside(d: Disk, d': Disk, s: set<nat>, p: nat, depth: nat)
    requires SameOutside(d, d', s) && Apart(Blocks(d, p, depth, Indirect), s)
    ensures SameTree(d, p, d', p, depth)
  {
    hide Content, Blocks, Map, Span;
    assert Agree(d, d', Blocks(d, p, depth, Indirect));
    forall part ensures Blocks(d', p, depth, part) == Blocks(d, p, depth, part) {
      TreeFrame(d, d', p, depth, part);
    }
    forall idx: nat | idx < Span(d.ppb, depth) ensures Map(d', p, depth, idx) == Map(d, p, depth, idx) {
      MapFrame(d, d', p, depth, idx);
    }
  }

  /** An indirect block full of zeroes has nothing below it. */
  lemma {:induction false} ZeroKids(d: Disk, b: seq<byte>, n: nat, depth: nat, part: Part)
    requires forall i :: 0 <= i < n ==> Word(b, i) == 0
    ensures Kids(d, b, n, depth, part) == multiset{}
    decreases n
  {
    hide Word;
    if n > 0 { ZeroKids(d, b, n - 1, depth, part); }
  }

  lemma FreshTree(d: Disk, n: nat, depth: nat, part: Part)
    requires n != 0 && forall i :: 0 <= i < d.ppb ==> Word(Content(d, n), i) == 0
    ensures Blocks(d, n, depth, part) == One((depth == 0) == part.Data?, n)
  {
    hide Word, Content, Kids;
    if depth > 0 { ZeroKids(d, Content(d, n), d.ppb, depth - 1, part); }
  }

  lemma FreshMap(d: Disk, n: nat, depth: nat, idx: nat)
    requires n != 0 && idx < Span(d.ppb, depth) && forall i :: 0 <= i < d.ppb ==> Word(Content(d, n), i) == 0
    ensures Map(d, n, depth, idx) == if depth == 0 then n else 0
  {
    hide Word, Content, Digit, Rest, Span;
    if depth > 0 {
      MapNode(d, n, depth, idx);
      assert Map(d, 0, depth - 1, Rest(d.ppb, depth - 1, idx)) == 0;
    }
  }

  // ---- growing a tree by one block -------------------------------------------------------------

  /** `cur` is the block at depth `k` on the way from `p` to data block `idx`; `r` is the index
      that is left below it. */
  ghost predicate OnPath(d: Disk, p: nat, depth: nat, idx: nat, cur: nat, k: nat, r: nat)
    decreases depth
  {
    if depth == k then p == cur && idx == r
    else
      && depth > k && p != 0
      && OnPath(d, Word(Content(d, p), Digit(d.ppb, depth - 1, idx)), depth - 1, Rest(d.ppb, depth - 1, idx), cur, k, r)
  }

  lemma {:induction false} PathMember(d: Disk, p: nat, depth: nat, idx: nat, cur: nat, k: nat, r: nat)
    requires OnPath(d, p, depth, idx, cur, k, r) && idx < Span(d.ppb, depth) && k > 0 && cur != 0
    ensures cur in Blocks(d, p, depth, Indirect) && r < Span(d.ppb, k)
    decreases depth
  {
    if depth == k {
      BlocksNode(d, p, depth, Indirect);
    } else {
      hide Span, Digit, Rest, Word, Content, Blocks, Map;
      var i := Digit(d.ppb, depth - 1, idx);
      MapNode(d, p, depth, idx);
      KidOfTree(d, p, depth, Indirect, i);
      PathMember(d, Word(Content(d, p), i), depth - 1, Rest(d.ppb, depth - 1, idx), cur, k, r);
    }
  }

  /** `d'` is `d` with the zeroed block `n` hung below pointer `i` of `cur`, which was empty. */
  ghost predicate Hangs(d: Disk, d': Disk, cur: nat, i: nat, n: nat) {
    && SameOutside(d, d', {cur, n})
    && n != 0 && cur != 0 && cur != n && i < d.ppb
    && Word(Content(d, cur), i) == 0 && Word(Content(d', cur), i) == n
    && (forall j :: 0 <= j < d.ppb && j != i ==> Word(Content(d', cur), j) == Word(Content(d, cur), j))
    && (forall j :: 0 <= j < d.ppb ==> Word(Content(d', n), j) == 0)
  }

  /** What hanging one block does to a tree: it gains exactly that block, as data at depth 0
      and as an empty indirect block above, and no other lookup changes. */
  ghost predicate Grown(d: Disk, p: nat, d': Disk, p': nat, depth: nat, idx: nat, k: nat, n: nat) {
    && (forall part :: Blocks(d', p', depth, part) == Blocks(d, p, depth, part) + One((k == 0) == part.Data?, n))
    && (forall j: nat :: j < Span(d.ppb, depth) ==>
          Map(d', p', depth, j) == if k == 0 && j == idx then n else Map(d, p, depth, j))
  }

  lemma {:induction false} Grow(d: Disk, d': Disk, p: nat, depth: nat, idx: nat, cur: nat, k: nat, r: nat, n: nat)
    requires OnPath(d, p, depth, idx, cur, k + 1, r) && idx < Span(d.ppb, depth)
    requires Hangs(d, d', cur, Digit(d.ppb, k, r), n)
    requires NoDup(Blocks(d, p, depth, Indirect)) && n !in Blocks(d, p, depth, Indirect)
    ensures Grown(d, p, d', p, depth, idx, k, n)
    ensures OnPath(d', p, depth, idx, n, k, Rest(d.ppb, k, r))
    decreases depth
  {
    hide Span, Digit, Rest, Word, Content, Blocks, Map, Kids, Hangs, Grown, NoDup;
    if depth == k + 1 {
      GrowHere(d, d', p, idx, k, n);
    } else {
      GrowBelow(d, d', p, depth, idx, cur, k, r, n);
      var i, r0 := Digit(d.ppb, depth - 1, idx), Rest(d.ppb, depth - 1, idx);
      MapNode(d, p, depth, idx);
      var q := Word(Content(d, p), i);
      KidOfTree(d, p, depth, Indirect, i);
      NoDupSub(Blocks(d, q, depth - 1, Indirect), Blocks(d, p, depth, Indirect));
      assert n !in Blocks(d, q, depth - 1, Indirect);
      Grow(d, d', q, depth - 1, r0, cur, k, r, n);
      GrowUp(d, d', {cur, n}, p, depth, idx, k, n);
    }
  }

  /** No kid of `p` but the `i`-th has an indirect block in `s`. */
  ghost predicate OthersApart(d: Disk, p: nat, depth: nat, i: nat, s: set<nat>)
    requires depth > 0
  {
    forall j :: 0 <= j < d.ppb && j != i ==> Apart(Blocks(d, Word(Content(d, p), j), depth - 1, Indirect), s)
  }

  /** The path to `cur` passes through one kid of `p`; no other kid is written. */
  lemma GrowBelow(d: Disk, d': Disk, p: nat, depth: nat, idx: nat, cur: nat, k: nat, r: nat, n: nat)
    requires depth > k + 1 && OnPath(d, p, depth, idx, cur, k + 1, r) && idx < Span(d.ppb, depth)
    requires Hangs(d, d', cur, Digit(d.ppb, k, r), n)
    requires NoDup(Blocks(d, p, depth, Indirect)) && n !in Blocks(d, p, depth, Indirect)
    ensures p != 0 && Content(d', p) == Content(d, p) && SameOutside(d, d', {cur, n})
    ensures OthersApart(d, p, depth, Digit(d.ppb, depth - 1, idx), {cur, n})
  {
    hide Span, Digit, Rest, Word, Content, Blocks, Map, Kids;
    var i, r0 := Digit(d.ppb, depth - 1, idx), Rest(d.ppb, depth - 1, idx);
    MapNode(d, p, depth, idx);
    var q := Word(Content(d, p), i);
    PathMember(d, q, depth - 1, r0, cur, k + 1, r);
    NodeApart(d, p, depth, i, cur);
    BlocksNode(d, p, depth, Indirect);
    forall j | 0 <= j < d.ppb && j != i
      ensures Apart(Blocks(d, Word(Content(d, p), j), depth - 1, Indirect), {cur, n})
    {
      KidOfTree(d, p, depth, Indirect, j);
      SiblingApart(d, p, depth, i, j, cur);
    }
  }

  /** In a tree without repetition a block of one kid is neither the root nor in a sibling. */
  lemma NodeApart(d: Disk, p: nat, depth: nat, i: nat, x: nat)
    requires p != 0 && depth > 0 && i < d.ppb && NoDup(Blocks(d, p, depth, Indirect))
    requires x in Blocks(d, Word(Content(d, p), i), depth - 1, Indirect)
    ensures x != p
  {
    hide Word, Content, Blocks, Kids;
    BlocksNode(d, p, depth, Indirect);
    KidSub(d, Content(d, p), d.ppb, depth - 1, Indirect, i);
    assert Blocks(d, p, depth, Indirect)[p] <= 1;
  }

  lemma SiblingApart(d: Disk, p: nat, depth: nat, i: nat, j: nat, x: nat)
    requires p != 0 && depth > 0 && i < d.ppb && j < d.ppb && i != j && NoDup(Blocks(d, p, depth, Indirect))
    requires x in Blocks(d, Word(Content(d, p), i), depth - 1, Indirect)
    ensures x !in Blocks(d, Word(Content(d, p), j), depth - 1, Indirect)
  {
    hide Word, Content, Blocks, Kids;
    BlocksNode(d, p, depth, Indirect);
    var b := Content(d, p);
    if i < j { KidPair(d, b, d.ppb, depth - 1, Indirect, i, j); } else { KidPair(d, b, d.ppb, depth - 1, Indirect, j, i); }
    assert Blocks(d, p, depth, Indirect)[x] <= 1;
  }

  lemma GrowUp(d: Disk, d': Disk, s: set<nat>, p: nat, depth: nat, idx: nat, k: nat, n: nat)
    requires p != 0 && depth > 0 && idx < Span(d.ppb, depth) && Content(d', p) == Content(d, p)
    requires SameOutside(d, d', s) && OthersApart(d, p, depth, Digit(d.ppb, depth - 1, idx), s)
    requires var q := Word(Content(d, p), Digit(d.ppb, depth - 1, idx));
             Grown(d, q, d', q, depth - 1, Rest(d.ppb, depth - 1, idx), k, n)
    ensures Grown(d, p, d', p, depth, idx, k, n)
  {
    hide Span, Digit, Rest, Word, Content, Blocks, Map, Kids, SameTree;
    var b, i := Content(d, p), Digit(d.ppb, depth - 1, idx);
    MapNode(d, p, depth, idx);
    forall j | 0 <= j < d.ppb && j != i ensures SameTree(d, Word(b, j), d', Word(b, j), depth - 1) {
      FrameOutside(d, d', s, Word(b, j), depth - 1);
    }
    GrownKids(d, b, d', b, p, depth, idx, k, n);
  }

  /** A node whose `i`-th kid grew and whose other kids are the same has grown. */
  lemma GrownKids(d: Disk, b: seq<byte>, d': Disk, b': seq<byte>, p: nat, depth: nat, idx: nat, k: nat, n: nat)
    requires p != 0 && depth > 0 && idx < Span(d.ppb, depth) && d.ppb == d'.ppb
    requires b == Content(d, p) && b' == Content(d', p)
    requires forall j :: 0 <= j < d.ppb && j != Digit(d.ppb, depth - 1, idx) ==>
               SameTree(d, Word(b, j), d', Word(b', j), depth - 1)
    requires var q, q' := Word(b, Digit(d.ppb, depth - 1, idx)), Word(b', Digit(d.ppb, depth - 1, idx));
             Grown(d, q, d', q', depth - 1, Rest(d.ppb, depth - 1, idx), k, n)
    ensures Grown(d, p, d', p, depth, idx, k, n)
  {
    hide Span, Digit, Rest, Word, Content, Blocks, Map, Kids, SameTree;
    forall part ensures Blocks(d', p, depth, part) == Blocks(d, p, depth, part) + One((k == 0) == part.Data?, n) {
      GrownBlocks(d, b, d', b', p, depth, idx, k, n, part);
    }
    forall j: nat | j < Span(d.ppb, depth)
      ensures Map(d', p, depth, j) == if k == 0 && j == idx then n else Map(d, p, depth, j)
    {
      GrownMap(d, b, d', b', p, depth, idx, k, n, j);
    }
  }

  lemma GrownBlocks(d: Disk, b: seq<byte>, d': Disk, b': seq<byte>, p: nat, depth: nat, idx: nat, k: nat, n: nat, part: Part)
    requires p != 0 && depth > 0 && idx < Span(d.ppb, depth) && d.ppb == d'.ppb
    requires b == Content(d, p) && b' == Content(d', p)
    requires forall j :: 0 <= j < d.ppb && j != Digit(d.ppb, depth - 1, idx) ==>
               SameTree(d, Word(b, j), d', Word(b', j), depth - 1)
    requires var q, q' := Word(b, Digit(d.ppb, depth - 1, idx)), Word(b', Digit(d.ppb, depth - 1, idx));
             Grown(d, q, d', q', depth - 1, Rest(d.ppb, depth - 1, idx), k, n)
    ensures Blocks(d', p, depth, part) == Blocks(d, p, depth, part) + One((k == 0) == part.Data?, n)
  {
    hide Span, Digit, Rest, Word, Content, Blocks, Map, Kids;
    var i := Digit(d.ppb, depth - 1, idx);
    MapNode(d, p, depth, idx);
    KidExchange(d, b, d', b', d.ppb, depth - 1, part, i);
    SumCancel(Kids(d, b, d.ppb, depth - 1, part), Kids(d', b', d.ppb, depth - 1, part),
              Blocks(d, Word(b, i), depth - 1, part), One((k == 0) == part.Data?, n));
    BlocksNode(d, p, depth, part);
    BlocksNode(d', p, depth, part);
  }

  lemma GrownMap(d: Disk, b: seq<byte>, d': Disk, b': seq<byte>, p: nat, depth: nat, idx: nat, k: nat, n: nat, j: nat)
    requires p != 0 && depth > 0 && idx < Span(d.ppb, depth) && d.ppb == d'.ppb
    requires b == Content(d, p) && b' == Content(d', p)
    requires forall j :: 0 <= j < d.ppb && j != Digit(d.ppb, depth - 1, idx) ==>
               SameTree(d, Word(b, j), d', Word(b', j), depth - 1)
    requires var q, q' := Word(b, Digit(d.ppb, depth - 1, idx)), Word(b', Digit(d.ppb, depth - 1, idx));
             Grown(d, q, d', q', depth - 1, Rest(d.ppb, depth - 1, idx), k, n)
    requires j < Span(d.ppb, depth)
    ensures Map(d', p, depth, j) == if k == 0 && j == idx then n else Map(d, p, depth, j)
  {
    hide Span, Digit, Rest, Word, Content, Blocks, Map, Kids;
    MapNode(d, p, depth, idx);
    MapNode(d, p, depth, j);
    MapNode(d', p, depth, j);
  }

  lemma GrowHere(d: Disk, d': Disk, p: nat, idx: nat, k: nat, n: nat)
    requires idx < Span(d.ppb, k + 1) && Hangs(d, d', p, Digit(d.ppb, k, idx), n)
    requires NoDup(Blocks(d, p, k + 1, Indirect)) && n !in Blocks(d, p, k + 1, Indirect)
    ensures Grown(d, p, d', p, k + 1, idx, k, n)
    ensures OnPath(d', p, k + 1, idx, n, k, Rest(d.ppb, k, idx))
  {
    hide Span, Digit, Rest, Word, Content, Blocks, Map, Kids, SameTree;
    var b, b', i := Content(d, p), Content(d', p), Digit(d.ppb, k, idx);
    MapNode(d, p, k + 1, idx);
    forall j | 0 <= j < d.ppb && j != i ensures SameTree(d, Word(b, j), d', Word(b', j), k) {
      KidOfTree(d, p, k + 1, Indirect, j);
      if p in Blocks(d, Word(b, j), k, Indirect) { NodeApart(d, p, k + 1, j, p); }
      FrameOutside(d, d', {p, n}, Word(b, j), k);
    }
    forall part ensures Blocks(d', n, k, part) == Blocks(d, 0, k, part) + One((k == 0) == part.Data?, n) {
      FreshTree(d', n, k, part);
      EmptyTree(d, k, part);
    }
    forall r: nat | r < Span(d.ppb, k)
      ensures Map(d', n, k, r) == if k == 0 && r == Rest(d.ppb, k, idx) then n else Map(d, 0, k, r)
    {
      FreshMap(d', n, k, r);
      EmptyMap(d, k, r);
      SpanOne(d.ppb);
    }
    GrownKids(d, b, d', b', p, k + 1, idx, k, n);
  }

  lemma EmptyTree(d: Disk, depth: nat, part: Part)
    ensures Blocks(d, 0, depth, part) == multiset{}
  {
  }

  lemma EmptyMap(d: Disk, depth: nat, idx: nat)
    ensures Map(d, 0, depth, idx) == 0
  {
  }

  lemma SpanOne(ppb: nat)
    requires ppb > 0
    ensures Span(ppb, 0) == 1
  {
  }
}
