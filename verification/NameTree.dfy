/** The name graph of a filesystem: inodes, directory entries, link counts, and what makes it a tree. */
module NameTree {
  import opened Common
  import opened Bits
  import opened DirBlock

  type Name = seq<byte>

  const ROOT: nat := 2
  const LINKS_CAP: nat := 65535

  /** An inode as the namespace sees it. A directory's entries include "." and "..". */
  datatype Node = Dir(entries: map<Name, nat>, links: nat) | Leaf(links: nat)

  type Table = map<nat, Node>

  function Links(t: Table, i: nat): nat {
    if i in t then t[i].links else 0
  }

  function Entries(v: Node): map<Name, nat> {
    if v.Dir? then v.entries else map[]
  }

  function EntriesAt(t: Table, d: nat): map<Name, nat> {
    if d in t then Entries(t[d]) else map[]
  }

  function Lookup(t: Table, d: nat, n: Name): Option<nat> {
    if n in EntriesAt(t, d) then Some(EntriesAt(t, d)[n]) else None
  }

  predicate Dots(n: Name) { n == DOT || n == DOTDOT }

  /** A directory that has not been removed. */
  predicate LiveDir(t: Table, d: nat) {
    d in t && t[d].Dir? && t[d].links > 0
  }

  predicate IsDir(t: Table, d: nat) {
    d in t && t[d].Dir?
  }

  /** What ".." says. */
  function Parent(t: Table, d: nat): nat {
    if DOTDOT in EntriesAt(t, d) then EntriesAt(t, d)[DOTDOT] else 0
  }

  // ---- references and link counts --------------------------------------------------------

  /** The names of a node that lead to `i`. */
  ghost function NamesTo(v: Node, i: nat): set<Name> {
    set n | n in Entries(v) && Entries(v)[n] == i
  }

  /** All entries of the filesystem that lead to `i`, dots included. */
  ghost function Refs(t: Table, i: nat): set<(nat, Name)> {
    set d, n | d in t && n in Entries(t[d]) && Entries(t[d])[n] == i :: (d, n)
  }

  /** Link count minus references. */
  ghost function Balance(t: Table, i: nat): int {
    Links(t, i) - |Refs(t, i)|
  }

  ghost function Tagged(d: nat, s: set<Name>): set<(nat, Name)> {
    set n | n in s :: (d, n)
  }

  lemma {:induction false} TaggedSize(d: nat, s: set<Name>)
    ensures |Tagged(d, s)| == |s|
    decreases |s|
  {
    if s != {} {
      var n :| n in s;
      TaggedSize(d, s - {n});
      assert Tagged(d, s) == Tagged(d, s - {n}) + {(d, n)};
    } else {
      assert Tagged(d, s) == {};
    }
  }

  ghost function NodeAt(t: Table, x: nat): Node {
    if x in t then t[x] else Leaf(0)
  }

  ghost function RefsElsewhere(t: Table, x: nat, i: nat): set<(nat, Name)> {
    set p | p in Refs(t, i) && p.0 != x
  }

  lemma RefsSplit(t: Table, x: nat, i: nat)
    ensures |Refs(t, i)| == |RefsElsewhere(t, x, i)| + |NamesTo(NodeAt(t, x), i)|
  {
    var rest, own := RefsElsewhere(t, x, i), Tagged(x, NamesTo(NodeAt(t, x), i));
    forall p ensures p in Refs(t, i) <==> p in rest || p in own {
      assert p == (p.0, p.1);
    }
    assert Refs(t, i) == rest + own;
    assert rest !! own;
    TaggedSize(x, NamesTo(NodeAt(t, x), i));
  }

  /** Replacing one node changes the references to `i` by that node's own. */
  lemma RefsSet(t: Table, x: nat, v: Node, i: nat)
    ensures |Refs(t[x := v], i)| == |Refs(t, i)| - |NamesTo(NodeAt(t, x), i)| + |NamesTo(v, i)|
  {
    hide NamesTo;
    var t' := t[x := v];
    RefsSplit(t, x, i);
    RefsSplit(t', x, i);
    forall p ensures p in RefsElsewhere(t, x, i) <==> p in RefsElsewhere(t', x, i) {
      assert p == (p.0, p.1);
    }
    assert RefsElsewhere(t, x, i) == RefsElsewhere(t', x, i);
  }

  lemma BalanceSet(t: Table, x: nat, v: Node, i: nat)
    ensures Balance(t[x := v], i) ==
      Balance(t, i) + (if i == x then v.links - Links(t, x) else 0) + |NamesTo(NodeAt(t, x), i)| - |NamesTo(v, i)|
  {
    hide Refs, NamesTo;
    RefsSet(t, x, v, i);
  }

  function Hit(i: nat, j: nat): int { if i == j then 1 else 0 }

  // ---- the elementary changes ---------------------------------------------------------------

  function AddEntry(t: Table, d: nat, n: Name, i: nat): Table
    requires IsDir(t, d)
  {
    t[d := Dir(t[d].entries[n := i], t[d].links)]
  }

  function DelEntry(t: Table, d: nat, n: Name): Table
    requires IsDir(t, d)
  {
    t[d := Dir(t[d].entries - {n}, t[d].links)]
  }

  function SetLinks(t: Table, i: nat, k: nat): Table
    requires i in t
  {
    t[i := if t[i].Dir? then Dir(t[i].entries, k) else Leaf(k)]
  }

  function Clamp(k: int): nat {
    if k < 0 then 0 else if k > LINKS_CAP then LINKS_CAP else k
  }

  /** `adj_links`. */
  function AdjLinks(t: Table, i: nat, delta: int): Table
    requires i in t
  {
    SetLinks(t, i, Clamp(t[i].links + delta))
  }

  /** `destroy_inode`: the mode, hence the kind, stays; contents and links go. */
  function Destroy(t: Table, i: nat): Table
    requires i in t
  {
    t[i := if t[i].Dir? then Dir(map[], 0) else Leaf(0)]
  }

  lemma AddBalance(t: Table, d: nat, n: Name, i: nat, j: nat)
    requires IsDir(t, d) && n !in t[d].entries
    ensures Balance(AddEntry(t, d, n, i), j) == Balance(t, j) - Hit(i, j)
  {
    var v := Dir(t[d].entries[n := i], t[d].links);
    BalanceSet(t, d, v, j);
    assert NamesTo(v, j) == if i == j then NamesTo(t[d], j) + {n} else NamesTo(t[d], j);
  }

  lemma DelBalance(t: Table, d: nat, n: Name, j: nat)
    requires IsDir(t, d) && n in t[d].entries
    ensures Balance(DelEntry(t, d, n), j) == Balance(t, j) + Hit(t[d].entries[n], j)
  {
    var v := Dir(t[d].entries - {n}, t[d].links);
    BalanceSet(t, d, v, j);
    assert NamesTo(t[d], j) == if t[d].entries[n] == j then NamesTo(v, j) + {n} else NamesTo(v, j);
    assert n !in NamesTo(v, j);
  }

  lemma LinksBalance(t: Table, i: nat, k: nat, j: nat)
    requires i in t
    ensures Balance(SetLinks(t, i, k), j) == Balance(t, j) + (if i == j then k - t[i].links else 0)
  {
    var v := if t[i].Dir? then Dir(t[i].entries, k) else Leaf(k);
    BalanceSet(t, i, v, j);
    assert NamesTo(v, j) == NamesTo(t[i], j);
  }

  lemma LeafNames(v: Node, j: nat)
    requires Entries(v) == map[]
    ensures |NamesTo(v, j)| == 0
  {
    assert NamesTo(v, j) == {};
  }

  lemma DotNames(v: Node, self: nat, up: nat, j: nat)
    requires Entries(v) == map[DOT := self, DOTDOT := up]
    ensures |NamesTo(v, j)| == Hit(self, j) + Hit(up, j)
  {
    var s := NamesTo(v, j);
    assert DOT != DOTDOT by { assert |DOT| != |DOTDOT|; }
    assert forall n :: n in s <==> (n == DOT && self == j) || (n == DOTDOT && up == j);
    if self == j && up == j {
      assert s == {DOT, DOTDOT};
    } else if self == j {
      assert s == {DOT};
    } else if up == j {
      assert s == {DOTDOT};
    } else {
      assert s == {};
    }
  }

  /** Destroying an inode without entries, or a directory with nothing but the dots. */
  lemma DestroyBalance(t: Table, i: nat, j: nat)
    requires i in t && (Entries(t[i]) == map[] || Entries(t[i]) == map[DOT := i, DOTDOT := Parent(t, i)])
    ensures Balance(Destroy(t, i), j) == Balance(t, j) - (if i == j then t[i].links else 0) +
      (if Entries(t[i]) == map[] then 0 else Hit(i, j) + Hit(Parent(t, i), j))
  {
    var v := if t[i].Dir? then Dir(map[], 0) else Leaf(0);
    BalanceSet(t, i, v, j);
    LeafNames(v, j);
    if Entries(t[i]) == map[] {
      LeafNames(t[i], j);
    } else {
      DotNames(t[i], i, Parent(t, i), j);
    }
  }

  // ---- the tree ---------------------------------------------------------------------------

  /** `k` steps along ".." lead from `x` to the root. */
  ghost predicate Climb(t: Table, x: nat, k: nat)
    decreases k
  {
    if k == 0 then x == ROOT
    else x != ROOT && LiveDir(t, x) && Climb(t, Parent(t, x), k - 1)
  }

  ghost predicate Rooted(t: Table, x: nat) {
    exists k: nat :: Climb(t, x, k)
  }

  /** `s` is `x` or above it: `k` steps along ".." from `x` lead to `s`. */
  ghost predicate Above(t: Table, s: nat, x: nat, k: nat)
    decreases k
  {
    if k == 0 then x == s
    else x != ROOT && Above(t, s, Parent(t, x), k - 1)
  }

  ghost predicate Inside(t: Table, x: nat, s: nat) {
    exists k: nat :: Above(t, s, x, k)
  }

  /** A live directory has its dots, and its parent is a live directory. */
  ghost predicate DirOk(t: Table, d: nat) {
    && DOT in EntriesAt(t, d) && EntriesAt(t, d)[DOT] == d
    && DOTDOT in EntriesAt(t, d) && LiveDir(t, Parent(t, d))
    && (d == ROOT ==> Parent(t, d) == ROOT)
    && Rooted(t, d)
  }

  /** An entry leads to an existing inode; if to a directory, then from its parent. */
  ghost predicate EntryOk(t: Table, d: nat, n: Name) {
    n in EntriesAt(t, d) ==>
      var i := EntriesAt(t, d)[n];
      i in t && (!Dots(n) && t[i].Dir? ==> i != ROOT && Parent(t, i) == d)
  }

  /** The name of a directory in its parent. */
  ghost predicate NamedBy(t: Table, d: nat, n: Name) {
    n in EntriesAt(t, Parent(t, d)) && !Dots(n) && EntriesAt(t, Parent(t, d))[n] == d
  }

  ghost predicate Named(t: Table, d: nat) {
    && (exists n :: NamedBy(t, d, n))
    && (forall n, m :: NamedBy(t, d, n) && NamedBy(t, d, m) ==> n == m)
  }

  ghost predicate Shape(t: Table) {
    && LiveDir(t, ROOT)
    && (forall d :: LiveDir(t, d) ==> DirOk(t, d))
    && (forall d :: LiveDir(t, d) && d != ROOT ==> Named(t, d))
    && (forall d, n :: EntryOk(t, d, n))
    && (forall d :: !LiveDir(t, d) ==> EntriesAt(t, d) == map[])
  }

  ghost predicate Balanced(t: Table) {
    forall i :: Balance(t, i) == 0 && Links(t, i) <= LINKS_CAP
  }

  /** The inode bitmap: a clear bit marks an unused, unreserved inode. */
  ghost predicate FreeOk(t: Table, free: set<nat>, first: nat) {
    forall i: nat :: (i in free <==> i in t && first <= i && Links(t, i) == 0) && (i < first && i != ROOT ==> Links(t, i) == 0)
  }

  /** The namespace is a tree of directories with exact link counts. */
  ghost predicate Inv(t: Table, free: set<nat>, first: nat) {
    Shape(t) && Balanced(t) && FreeOk(t, free, first) && ROOT < first
  }

}
