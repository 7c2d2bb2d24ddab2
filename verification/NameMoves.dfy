/** What the namespace operations do to the name graph, and that they keep it a tree. */
module NameMoves {
  import opened Common
  import opened DirBlock
  import opened NameTree

  const MAX_LINKS: nat := 32000

  // ---- the effects --------------------------------------------------------------------------

  /** A new file `i` under a free name. */
  function Made(t: Table, d: nat, n: Name, i: nat): Table
    requires IsDir(t, d) && d != i
  {
    AddEntry(t[i := Leaf(1)], d, n, i)
  }

  /** A new directory `i` under a free name. */
  function MadeDir(t: Table, d: nat, n: Name, i: nat): Table
    requires IsDir(t, d) && d != i
  {
    AdjLinks(AddEntry(t[i := Dir(map[DOT := i, DOTDOT := d], 2)], d, n, i), d, 1)
  }

  /** One more name for `i`. */
  function LinkedTo(t: Table, d: nat, n: Name, i: nat): Table
    requires IsDir(t, d) && i in t
  {
    AdjLinks(AddEntry(t, d, n, i), i, 1)
  }

  /** One name less for a file; with its last name the file goes. */
  function Dropped(t: Table, d: nat, n: Name): Table
    requires IsDir(t, d) && n in t[d].entries && t[d].entries[n] in t
  {
    var i := t[d].entries[n];
    if Links(t, i) <= 1 then Destroy(DelEntry(t, d, n), i) else AdjLinks(DelEntry(t, d, n), i, -1)
  }

  /** An empty directory goes. */
  function RemovedDir(t: Table, d: nat, n: Name): Table
    requires IsDir(t, d) && n in t[d].entries && t[d].entries[n] in t
  {
    AdjLinks(Destroy(DelEntry(t, d, n), t[d].entries[n]), d, -1)
  }

  // ---- leaves ---------------------------------------------------------------------------------

  /** A path to the root is kept if it avoids `e` and no other parent changes. */
  lemma {:induction false} ClimbKeep(t: Table, t': Table, x: nat, k: nat, e: nat)
    requires Climb(t, x, k) && x != e
    requires forall d :: LiveDir(t, d) && d != ROOT && d != e ==> LiveDir(t', d) && Parent(t', d) == Parent(t, d) != e
    ensures Climb(t', x, k)
    decreases k
  {
    hide LiveDir, Parent;
    if k > 0 { ClimbKeep(t, t', Parent(t, x), k - 1, e); }
  }

  /** Only the entry `n` of `d` differs, and it concerns no directory. */
  ghost predicate LeafChange(t: Table, t': Table, d: nat, n: Name) {
    && LiveDir(t, d) && !Dots(n)
    && (forall x :: LiveDir(t', x) <==> LiveDir(t, x))
    && (forall x :: IsDir(t', x) ==> IsDir(t, x))
    && (forall x :: x in t ==> x in t')
    && (forall x, m :: (x != d || m != n) ==> Lookup(t', x, m) == Lookup(t, x, m))
    && (Lookup(t, d, n).Some? ==> !LiveDir(t, Lookup(t, d, n).value))
    && (Lookup(t', d, n).Some? ==> Lookup(t', d, n).value in t' && !IsDir(t', Lookup(t', d, n).value))
  }

  /** Lookups decide the entries. */
  lemma NoEntries(t: Table, x: nat)
    ensures (forall m :: Lookup(t, x, m).None?) <==> EntriesAt(t, x) == map[]
  {
    if EntriesAt(t, x) != map[] {
      var m :| m in EntriesAt(t, x);
      assert Lookup(t, x, m).Some?;
    }
  }

  lemma ParentIs(t: Table, x: nat)
    ensures Parent(t, x) == if Lookup(t, x, DOTDOT).Some? then Lookup(t, x, DOTDOT).value else 0
  {
  }

  lemma NamedIs(t: Table, x: nat, m: Name)
    ensures NamedBy(t, x, m) <==> Lookup(t, Parent(t, x), m) == Some(x) && !Dots(m)
  {
  }

  lemma DirOkIs(t: Table, x: nat)
    ensures DirOk(t, x) <==>
      && Lookup(t, x, DOT) == Some(x) && Lookup(t, x, DOTDOT) == Some(Parent(t, x)) && LiveDir(t, Parent(t, x))
      && (x == ROOT ==> Parent(t, x) == ROOT) && Rooted(t, x)
  {
    hide Rooted;
  }

  lemma ShapeDirOk(t: Table, x: nat)
    requires Shape(t) && LiveDir(t, x)
    ensures DirOk(t, x) && (x != ROOT ==> Named(t, x))
  {
    hide DirOk, Named, EntryOk;
  }

  lemma LeafDirOk(t: Table, t': Table, d: nat, n: Name, x: nat)
    requires Shape(t) && LeafChange(t, t', d, n) && LiveDir(t', x)
    ensures DirOk(t', x) && Parent(t', x) == Parent(t, x)
  {
    hide Climb, Shape, DirOk, Lookup, EntriesAt, LiveDir, IsDir, Parent;
    ShapeDirOk(t, x);
    DirOkIs(t, x);
    DirOkIs(t', x);
    forall y ensures Parent(t', y) == Parent(t, y) {
      ParentIs(t, y);
      ParentIs(t', y);
      assert Lookup(t', y, DOTDOT) == Lookup(t, y, DOTDOT);
    }
    assert Lookup(t', x, DOT) == Lookup(t, x, DOT) && Lookup(t', x, DOTDOT) == Lookup(t, x, DOTDOT);
    var k: nat :| Climb(t, x, k);
    var e := Outside(t);
    ClimbKeep(t, t', x, k, e);
  }

  /** Some number is no live directory and nobody's parent. */
  lemma Outside(t: Table) returns (e: nat)
    requires Shape(t)
    ensures !LiveDir(t, e) && forall d :: LiveDir(t, d) ==> Parent(t, d) != e
  {
    var keys := t.Keys;
    e := Bound(keys);
    forall d | LiveDir(t, d) ensures Parent(t, d) != e { assert DirOk(t, d); }
  }

  lemma {:induction false} Bound(s: set<nat>) returns (e: nat)
    ensures forall x <- s :: x < e
  {
    if s == {} { e := 0; return; }
    var y :| y in s;
    e := Bound(s - {y});
    assert forall x <- s :: x == y || x in s - {y};
    if e <= y { e := y + 1; }
  }

  lemma LeafNamed(t: Table, t': Table, d: nat, n: Name, x: nat)
    requires Shape(t) && LeafChange(t, t', d, n) && LiveDir(t', x) && x != ROOT
    ensures Named(t', x)
  {
    hide Climb, Rooted, Shape, DirOk, EntryOk, Lookup, EntriesAt, Parent, NamedBy;
    ShapeDirOk(t, x);
    LeafDirOk(t, t', d, n, x);
    forall m ensures NamedBy(t', x, m) <==> NamedBy(t, x, m) {
      NamedIs(t, x, m);
      NamedIs(t', x, m);
      if Parent(t, x) != d || m != n { assert Lookup(t', Parent(t, x), m) == Lookup(t, Parent(t, x), m); }
    }
  }

  lemma LeafEntryOk(t: Table, t': Table, d: nat, n: Name, x: nat, m: Name)
    requires Shape(t) && LeafChange(t, t', d, n)
    ensures EntryOk(t', x, m)
  {
    hide Climb, Rooted, Named, DirOk;
    assert EntryOk(t, x, m);
    if m in EntriesAt(t', x) {
      var i := EntriesAt(t', x)[m];
      assert Lookup(t', x, m) == Some(i);
      if x != d || m != n {
        assert Lookup(t', x, m) == Lookup(t, x, m);
        ParentIs(t, i);
        ParentIs(t', i);
        assert Lookup(t', i, DOTDOT) == Lookup(t, i, DOTDOT);
        assert IsDir(t', i) ==> IsDir(t, i);
      } else {
        assert !IsDir(t', i);
      }
    }
  }

  lemma LeafShape(t: Table, t': Table, d: nat, n: Name)
    requires Shape(t) && LeafChange(t, t', d, n)
    ensures Shape(t')
  {
    forall x | LiveDir(t', x) ensures DirOk(t', x) { LeafDirOk(t, t', d, n, x); }
    forall x | LiveDir(t', x) && x != ROOT ensures Named(t', x) { LeafNamed(t, t', d, n, x); }
    forall x, m ensures EntryOk(t', x, m) { LeafEntryOk(t, t', d, n, x, m); }
    forall x | !LiveDir(t', x) ensures EntriesAt(t', x) == map[] {
      NoEntries(t, x);
      NoEntries(t', x);
      forall m ensures Lookup(t', x, m).None? {
        assert Lookup(t', x, m) == Lookup(t, x, m);
        assert Lookup(t, x, m).None?;
      }
    }
  }

  /** What an entry leads to has a link count above zero. */
  lemma Referenced(t: Table, d: nat, n: Name, i: nat)
    requires Balanced(t) && Lookup(t, d, n) == Some(i)
    ensures Links(t, i) > 0
  {
    assert (d, n) in Refs(t, i);
    assert Balance(t, i) == 0;
  }

  lemma MadeBalance(t: Table, d: nat, n: Name, i: nat, j: nat)
    requires Balanced(t) && IsDir(t, d) && d != i && n !in t[d].entries && Links(t, i) == 0 && EntriesAt(t, i) == map[]
    ensures Balance(Made(t, d, n, i), j) == 0
  {
    hide Balance, NamesTo;
    BalanceSet(t, i, Leaf(1), j);
    LeafNames(Leaf(1), j);
    LeafNames(NodeAt(t, i), j);
    AddBalance(t[i := Leaf(1)], d, n, i, j);
  }

  /** A free inode is not live and has no entries. */
  lemma FreeFacts(t: Table, free: set<nat>, first: nat, i: nat)
    requires Inv(t, free, first) && i in free
    ensures i in t && Links(t, i) == 0 && EntriesAt(t, i) == map[] && !LiveDir(t, i) && first <= i
  {
    hide Balance, DirOk, Named, EntryOk;
  }

  lemma LiveFacts(t: Table, d: nat)
    requires Shape(t) && LiveDir(t, d)
    ensures DOT in EntriesAt(t, d) && EntriesAt(t, d)[DOT] == d
    ensures DOTDOT in EntriesAt(t, d) && EntriesAt(t, d)[DOTDOT] == Parent(t, d) && LiveDir(t, Parent(t, d))
  {
    hide Named, EntryOk, Rooted;
    assert DirOk(t, d);
  }

  lemma MadeFree(t: Table, free: set<nat>, first: nat, d: nat, n: Name, i: nat)
    requires FreeOk(t, free, first) && IsDir(t, d) && d != i && i in free && (forall j :: Links(t, j) <= LINKS_CAP)
    ensures FreeOk(Made(t, d, n, i), free - {i}, first) && forall j :: Links(Made(t, d, n, i), j) <= LINKS_CAP
  {
    var t' := Made(t, d, n, i);
    forall j: nat ensures Links(t', j) == if j == i then 1 else Links(t, j) {}
    forall j: nat ensures j in t' <==> j in t {}
  }

  lemma MadeChange(t: Table, d: nat, n: Name, i: nat)
    requires LiveDir(t, d) && !Dots(n) && d != i && n !in t[d].entries && i in t && !LiveDir(t, i) && EntriesAt(t, i) == map[]
    ensures LeafChange(t, Made(t, d, n, i), d, n)
  {
    var t' := Made(t, d, n, i);
    forall x, m | x != d || m != n ensures Lookup(t', x, m) == Lookup(t, x, m) {}
    assert Lookup(t, d, n).None? && Lookup(t', d, n) == Some(i);
  }

  lemma CapOf(t: Table)
    requires Balanced(t)
    ensures forall j :: Links(t, j) <= LINKS_CAP
  {
    hide Balance, Links;
  }

  lemma BalancedIs(t: Table)
    requires forall i :: Balance(t, i) == 0
    requires forall i :: Links(t, i) <= LINKS_CAP
    ensures Balanced(t)
  {
    hide Balance, Links;
  }

  /** Creating a file keeps the tree. */
  lemma MadeInv(t: Table, free: set<nat>, first: nat, d: nat, n: Name, i: nat)
    requires Inv(t, free, first) && LiveDir(t, d) && n !in t[d].entries && i in free
    ensures d != i && Inv(Made(t, d, n, i), free - {i}, first)
  {
    hide Made, Shape, Balanced, FreeOk, Balance, Links, LeafChange;
    LiveFacts(t, d);
    FreeFacts(t, free, first, i);
    var t' := Made(t, d, n, i);
    forall j ensures Balance(t', j) == 0 { MadeBalance(t, d, n, i, j); }
    CapOf(t);
    MadeFree(t, free, first, d, n, i);
    BalancedIs(t');
    MadeChange(t, d, n, i);
    LeafShape(t, t', d, n);
  }

  // ---- link -----------------------------------------------------------------------------------

  lemma LinkedBalance(t: Table, d: nat, n: Name, i: nat, j: nat)
    requires Balanced(t) && IsDir(t, d) && n !in t[d].entries && i in t && !IsDir(t, i) && Links(t, i) < MAX_LINKS
    ensures Balance(LinkedTo(t, d, n, i), j) == 0
  {
    hide Balance, NamesTo;
    AddBalance(t, d, n, i, j);
    LinksBalance(AddEntry(t, d, n, i), i, Links(t, i) + 1, j);
  }

  lemma LinkedLinks(t: Table, free: set<nat>, first: nat, d: nat, n: Name, i: nat)
    requires FreeOk(t, free, first) && ROOT < first && IsDir(t, d) && IsDir(t, ROOT)
    requires i in t && !IsDir(t, i) && Links(t, i) < MAX_LINKS && (forall j :: Links(t, j) <= LINKS_CAP)
    ensures forall j :: Links(LinkedTo(t, d, n, i), j) <= LINKS_CAP
    ensures FreeOk(LinkedTo(t, d, n, i), free, first) <==> Links(t, i) > 0
  {
    var t' := LinkedTo(t, d, n, i);
    forall j: nat ensures Links(t', j) == if j == i then Links(t, i) + 1 else Links(t, j) {}
    forall j: nat ensures j in t' <==> j in t {}
    assert i in free <==> first <= i && Links(t, i) == 0;
    assert i != ROOT;
  }

  lemma LinkedChange(t: Table, d: nat, n: Name, i: nat)
    requires LiveDir(t, d) && !Dots(n) && n !in t[d].entries && i in t && !IsDir(t, i)
    ensures LeafChange(t, LinkedTo(t, d, n, i), d, n)
  {
    var t' := LinkedTo(t, d, n, i);
    forall x, m | x != d || m != n ensures Lookup(t', x, m) == Lookup(t, x, m) {}
    assert Lookup(t, d, n).None? && Lookup(t', d, n) == Some(i);
  }

  /** An entry in a dead directory breaks the tree. */
  lemma DeadEntry(t: Table, d: nat, n: Name)
    requires n in EntriesAt(t, d) && !LiveDir(t, d)
    ensures !Shape(t)
  {
  }

  lemma LinkedDead(t: Table, d: nat, n: Name, i: nat)
    requires IsDir(t, d) && i in t && !IsDir(t, i)
    ensures n in EntriesAt(LinkedTo(t, d, n, i), d) && (LiveDir(LinkedTo(t, d, n, i), d) <==> LiveDir(t, d))
  {
  }

  /** A hard link keeps the tree exactly if directory and target are both in use; `link` itself
      checks neither. */
  lemma LinkExact(t: Table, free: set<nat>, first: nat, d: nat, n: Name, i: nat)
    requires Inv(t, free, first) && IsDir(t, d) && n !in t[d].entries && i in t && !IsDir(t, i) && Links(t, i) < MAX_LINKS
    ensures Inv(LinkedTo(t, d, n, i), free, first) <==> LiveDir(t, d) && Links(t, i) > 0
  {
    hide Shape, Balanced, FreeOk, Balance, Links, LeafChange, LinkedTo;
    RootLive(t);
    var t' := LinkedTo(t, d, n, i);
    CapOf(t);
    LinkedLinks(t, free, first, d, n, i);
    LinkedDead(t, d, n, i);
    if LiveDir(t, d) {
      LiveFacts(t, d);
      forall j ensures Balance(t', j) == 0 { LinkedBalance(t, d, n, i, j); }
      BalancedIs(t');
      LinkedChange(t, d, n, i);
      LeafShape(t, t', d, n);
    } else {
      DeadEntry(t', d, n);
    }
  }

  lemma RootLive(t: Table)
    requires Shape(t)
    ensures LiveDir(t, ROOT)
  {
  }

  // ---- unlink ---------------------------------------------------------------------------------

  lemma DroppedBalance(t: Table, d: nat, n: Name, j: nat)
    requires Balanced(t) && IsDir(t, d) && n in t[d].entries && t[d].entries[n] in t && !IsDir(t, t[d].entries[n])
    requires Links(t, t[d].entries[n]) > 0
    ensures Balance(Dropped(t, d, n), j) == 0
  {
    assert Balance(t, j) == 0 && Links(t, t[d].entries[n]) <= LINKS_CAP;
    hide Balance, NamesTo, Balanced;
    var i := t[d].entries[n];
    var t1 := DelEntry(t, d, n);
    DelBalance(t, d, n, j);
    assert t1[i] == t[i];
    if Links(t, i) <= 1 {
      DestroyBalance(t1, i, j);
    } else {
      LinksBalance(t1, i, Links(t, i) - 1, j);
    }
  }

  ghost function FreeAfterDrop(t: Table, free: set<nat>, i: nat): set<nat> {
    if Links(t, i) <= 1 then free + {i} else free
  }

  lemma DroppedLinks(t: Table, free: set<nat>, first: nat, d: nat, n: Name, i: nat)
    requires FreeOk(t, free, first) && ROOT < first && IsDir(t, d) && IsDir(t, ROOT) && n in t[d].entries && i == t[d].entries[n]
    requires i in t && !IsDir(t, i) && Links(t, i) > 0 && (forall j :: Links(t, j) <= LINKS_CAP)
    ensures forall j :: Links(Dropped(t, d, n), j) <= LINKS_CAP
    ensures FreeOk(Dropped(t, d, n), FreeAfterDrop(t, free, i), first)
  {
    var t' := Dropped(t, d, n);
    forall j: nat ensures Links(t', j) == if j == i then Links(t, i) - 1 else Links(t, j) {
      assert Links(t, i) <= LINKS_CAP;
    }
    forall j: nat ensures j in t' <==> j in t {}
    assert i != ROOT;
    assert first <= i;
  }

  lemma DroppedChange(t: Table, d: nat, n: Name, i: nat)
    requires LiveDir(t, d) && !Dots(n) && n in t[d].entries && i == t[d].entries[n] && i in t && !IsDir(t, i)
    ensures LeafChange(t, Dropped(t, d, n), d, n)
  {
    var t' := Dropped(t, d, n);
    forall x, m | x != d || m != n ensures Lookup(t', x, m) == Lookup(t, x, m) {}
    assert Lookup(t, d, n) == Some(i) && Lookup(t', d, n).None?;
  }

  /** What an existing entry tells. */
  lemma EntryFacts(t: Table, d: nat, n: Name)
    requires Shape(t) && Balanced(t) && n in EntriesAt(t, d)
    ensures LiveDir(t, d) && EntriesAt(t, d)[n] in t && Links(t, EntriesAt(t, d)[n]) > 0
  {
    assert EntryOk(t, d, n);
    Referenced(t, d, n, EntriesAt(t, d)[n]);
  }

  /** Removing a file's name keeps the tree. */
  lemma DroppedInv(t: Table, free: set<nat>, first: nat, d: nat, n: Name, i: nat)
    requires Inv(t, free, first) && IsDir(t, d) && n in t[d].entries && i == t[d].entries[n] && i in t && !IsDir(t, i)
    ensures Inv(Dropped(t, d, n), FreeAfterDrop(t, free, i), first) && LiveDir(t, d) && !Dots(n)
  {
    hide Shape, Balanced, FreeOk, Balance, Links, LeafChange, Dropped, FreeAfterDrop;
    RootLive(t);
    EntryFacts(t, d, n);
    LiveFacts(t, d);
    var t' := Dropped(t, d, n);
    forall j ensures Balance(t', j) == 0 { DroppedBalance(t, d, n, j); }
    CapOf(t);
    DroppedLinks(t, free, first, d, n, i);
    BalancedIs(t');
    DroppedChange(t, d, n, i);
    LeafShape(t, t', d, n);
  }
}
