/** Directories in the name graph: making, removing and moving them keeps the tree. */
module NameDirs {
  import opened Common
  import opened DirBlock
  import opened NameTree
  import opened NameMoves

  // ---- directories come and go ------------------------------------------------------------------

  function FreshLookup(d: nat, i: nat, m: Name): Option<nat> {
    if m == DOT then Some(i) else if m == DOTDOT then Some(d) else None
  }

  /** `t'` is `t` with an empty directory `i` under the name `n` of `d`. */
  ghost predicate DirAdded(t: Table, t': Table, d: nat, n: Name, i: nat) {
    && LiveDir(t, d) && d != i && !Dots(n) && i != ROOT && !LiveDir(t, i) && i in t
    && (forall x :: x in t' <==> x in t)
    && (forall x :: LiveDir(t', x) <==> LiveDir(t, x) || x == i)
    && (forall x :: x != i ==> (IsDir(t', x) <==> IsDir(t, x)))
    && (forall x, m :: Lookup(t, x, m) != Some(i))
    && (forall x, m :: Lookup(t', x, m) ==
         if x == i then FreshLookup(d, i, m) else if x == d && m == n then Some(i) else Lookup(t, x, m))
    && Lookup(t, d, n).None? && (forall m :: Lookup(t, i, m).None?)
  }

  lemma AddedParent(t: Table, t': Table, d: nat, n: Name, i: nat, x: nat)
    requires DirAdded(t, t', d, n, i)
    ensures Parent(t', x) == if x == i then d else Parent(t, x)
    ensures LiveDir(t, x) && Shape(t) ==> Parent(t, x) != i
  {
    hide DirOk, Named, EntryOk;
    ParentIs(t, x);
    ParentIs(t', x);
    assert Lookup(t', x, DOTDOT) == if x == i then Some(d) else Lookup(t, x, DOTDOT);
    if LiveDir(t, x) && Shape(t) {
      LiveFacts(t, x);
      assert Lookup(t, x, DOTDOT) != Some(i);
    }
  }

  lemma AddedDirOk(t: Table, t': Table, d: nat, n: Name, i: nat, x: nat)
    requires Shape(t) && DirAdded(t, t', d, n, i) && LiveDir(t', x)
    ensures DirOk(t', x)
  {
    hide Named, EntryOk;
    forall y ensures Parent(t', y) == (if y == i then d else Parent(t, y)) && (LiveDir(t, y) ==> Parent(t, y) != i) {
      AddedParent(t, t', d, n, i, y);
    }
    assert Lookup(t', x, DOT) == if x == i then Some(i) else Lookup(t, x, DOT);
    assert Lookup(t', x, DOTDOT) == if x == i then Some(d) else Lookup(t, x, DOTDOT);
    var y := if x == i then d else x;
    assert DirOk(t, y);
    var k: nat :| Climb(t, y, k);
    ClimbKeep(t, t', y, k, i);
    if x == i { assert Climb(t', i, k + 1); }
  }

  lemma AddedNamed(t: Table, t': Table, d: nat, n: Name, i: nat, x: nat)
    requires Shape(t) && DirAdded(t, t', d, n, i) && LiveDir(t', x) && x != ROOT
    ensures Named(t', x)
  {
    hide EntryOk, Rooted, Shape, DirOk, Lookup, EntriesAt, Parent, NamedBy;
    AddedParent(t, t', d, n, i, x);
    var p := Parent(t', x);
    forall m ensures NamedBy(t', x, m) <==> Lookup(t', p, m) == Some(x) && !Dots(m) { NamedIs(t', x, m); }
    if x == i {
      forall m ensures NamedBy(t', x, m) <==> m == n { assert Lookup(t', d, m) == if m == n then Some(i) else Lookup(t, d, m); }
      assert NamedBy(t', x, n);
    } else {
      ShapeDirOk(t, x);
      LiveFacts(t, x);
      forall m ensures NamedBy(t', x, m) <==> NamedBy(t, x, m) {
        NamedIs(t, x, m);
        assert Lookup(t', p, m) == if p == d && m == n then Some(i) else Lookup(t, p, m);
        assert Lookup(t, p, m) != Some(i);
      }
      var m :| NamedBy(t, x, m);
      assert NamedBy(t', x, m);
    }
  }

  lemma AddedEntryOk(t: Table, t': Table, d: nat, n: Name, i: nat, x: nat, m: Name)
    requires Shape(t) && DirAdded(t, t', d, n, i)
    ensures EntryOk(t', x, m)
  {
    hide DirOk, Named;
    assert EntryOk(t, x, m);
    assert Lookup(t', x, m) ==
      if x == i then FreshLookup(d, i, m) else if x == d && m == n then Some(i) else Lookup(t, x, m);
    if m in EntriesAt(t', x) {
      var j := EntriesAt(t', x)[m];
      AddedParent(t, t', d, n, i, j);
      assert Lookup(t', x, m) == Some(j) && Lookup(t, x, m) != Some(i);
      assert d in t' && i in t';
      if x != i && !(x == d && m == n) {
        assert m in EntriesAt(t, x) && EntriesAt(t, x)[m] == j && j != i;
        assert IsDir(t', j) <==> IsDir(t, j);
      }
    }
  }

  lemma DirAddedShape(t: Table, t': Table, d: nat, n: Name, i: nat)
    requires Shape(t) && DirAdded(t, t', d, n, i)
    ensures Shape(t')
  {
    hide DirOk, Named, EntryOk, Lookup, EntriesAt, LiveDir, IsDir, Parent;
    forall x | LiveDir(t', x) ensures DirOk(t', x) { AddedDirOk(t, t', d, n, i, x); }
    forall x | LiveDir(t', x) && x != ROOT ensures Named(t', x) { AddedNamed(t, t', d, n, i, x); }
    forall x, m ensures EntryOk(t', x, m) { AddedEntryOk(t, t', d, n, i, x, m); }
    forall x | !LiveDir(t', x) ensures EntriesAt(t', x) == map[] {
      NoEntries(t, x);
      NoEntries(t', x);
      forall m ensures Lookup(t', x, m).None? {
        assert Lookup(t', x, m) == Lookup(t, x, m);
        assert Lookup(t, x, m).None?;
      }
    }
  }

  lemma RemovedDirOk(t: Table, t': Table, d: nat, n: Name, i: nat, x: nat)
    requires Shape(t') && DirAdded(t, t', d, n, i) && LiveDir(t, x)
    ensures DirOk(t, x)
  {
    hide Shape, DirOk, Named, EntryOk, Lookup, EntriesAt, LiveDir, IsDir, Parent, Climb;
    ShapeDirOk(t', x);
    DirOkIs(t', x);
    DirOkIs(t, x);
    AddedParent(t, t', d, n, i, x);
    assert Lookup(t', x, DOT) == Lookup(t, x, DOT) && Lookup(t', x, DOTDOT) == Lookup(t, x, DOTDOT);
    forall y | LiveDir(t', y) && y != i ensures LiveDir(t, y) && Parent(t, y) == Parent(t', y) != i {
      ShapeDirOk(t', y);
      DirOkIs(t', y);
      AddedParent(t, t', d, n, i, y);
      assert Lookup(t, y, DOTDOT) != Some(i) && Lookup(t', y, DOTDOT) == Lookup(t, y, DOTDOT);
    }
    assert LiveDir(t, Parent(t, x)) by { assert LiveDir(t', Parent(t', x)); }
    var k: nat :| Climb(t', x, k);
    ClimbKeep(t', t, x, k, i);
  }

  lemma RemovedNamed(t: Table, t': Table, d: nat, n: Name, i: nat, x: nat)
    requires Shape(t') && DirAdded(t, t', d, n, i) && LiveDir(t, x) && x != ROOT
    ensures Named(t, x)
  {
    hide Shape, DirOk, EntryOk, Rooted, Lookup, EntriesAt, LiveDir, IsDir, Parent, NamedBy;
    AddedParent(t, t', d, n, i, x);
    ShapeDirOk(t', x);
    var p := Parent(t', x);
    forall m ensures NamedBy(t', x, m) <==> NamedBy(t, x, m) {
      NamedIs(t, x, m);
      NamedIs(t', x, m);
      assert Lookup(t', p, m) ==
        if p == i then FreshLookup(d, i, m) else if p == d && m == n then Some(i) else Lookup(t, p, m);
      assert Lookup(t, p, m) != Some(i);
      assert p == i ==> Lookup(t, i, m).None?;
    }
    var m :| NamedBy(t', x, m);
    assert NamedBy(t, x, m);
  }

  lemma RemovedEntryOk(t: Table, t': Table, d: nat, n: Name, i: nat, x: nat, m: Name)
    requires Shape(t') && DirAdded(t, t', d, n, i)
    ensures EntryOk(t, x, m)
  {
    hide DirOk, Named;
    assert EntryOk(t', x, m);
    if m in EntriesAt(t, x) {
      var j := EntriesAt(t, x)[m];
      assert Lookup(t, x, m) == Some(j) && Lookup(t, x, m) != Some(i);
      assert Lookup(t', x, m) ==
        if x == i then FreshLookup(d, i, m) else if x == d && m == n then Some(i) else Lookup(t, x, m);
      AddedParent(t, t', d, n, i, j);
      assert Lookup(t, d, n).None? && Lookup(t, i, m).None?;
      assert IsDir(t', j) <==> IsDir(t, j);
    }
  }

  lemma DirRemovedShape(t: Table, t': Table, d: nat, n: Name, i: nat)
    requires Shape(t') && DirAdded(t, t', d, n, i)
    ensures Shape(t)
  {
    hide DirOk, Named, EntryOk, Lookup, EntriesAt, LiveDir, IsDir, Parent;
    assert LiveDir(t, ROOT) by { assert LiveDir(t', ROOT); }
    forall x | LiveDir(t, x) ensures DirOk(t, x) { RemovedDirOk(t, t', d, n, i, x); }
    forall x | LiveDir(t, x) && x != ROOT ensures Named(t, x) { RemovedNamed(t, t', d, n, i, x); }
    forall x, m ensures EntryOk(t, x, m) { RemovedEntryOk(t, t', d, n, i, x, m); }
    forall x | !LiveDir(t, x) ensures EntriesAt(t, x) == map[] {
      NoEntries(t, x);
      NoEntries(t', x);
      forall m ensures Lookup(t, x, m).None? {
        if x != i { assert Lookup(t', x, m) == Lookup(t, x, m); }
      }
    }
  }

  // ---- mkdir ----------------------------------------------------------------------------------

  lemma MadeDirBalance(t: Table, d: nat, n: Name, i: nat, j: nat)
    requires Balanced(t) && IsDir(t, d) && d != i && n !in t[d].entries && Links(t, i) == 0 && EntriesAt(t, i) == map[]
    requires Links(t, d) < LINKS_CAP
    ensures Balance(MadeDir(t, d, n, i), j) == 0
  {
    hide Balance, NamesTo;
    var v := Dir(map[DOT := i, DOTDOT := d], 2);
    BalanceSet(t, i, v, j);
    DotNames(v, i, d, j);
    LeafNames(NodeAt(t, i), j);
    AddBalance(t[i := v], d, n, i, j);
    LinksBalance(AddEntry(t[i := v], d, n, i), d, Links(t, d) + 1, j);
  }

  lemma MadeDirLinks(t: Table, free: set<nat>, first: nat, d: nat, n: Name, i: nat)
    requires FreeOk(t, free, first) && IsDir(t, d) && d != i && i in free && (forall j :: Links(t, j) <= LINKS_CAP)
    requires 0 < Links(t, d) < LINKS_CAP
    ensures FreeOk(MadeDir(t, d, n, i), free - {i}, first) && forall j :: Links(MadeDir(t, d, n, i), j) <= LINKS_CAP
  {
    var t' := MadeDir(t, d, n, i);
    forall j: nat ensures Links(t', j) == if j == i then 2 else Links(t, j) + Hit(j, d) {}
    forall j: nat ensures j in t' <==> j in t {}
  }

  lemma MadeDirAdds(t: Table, d: nat, n: Name, i: nat)
    requires LiveDir(t, d) && !Dots(n) && d != i && n !in t[d].entries && i in t && !LiveDir(t, i) && EntriesAt(t, i) == map[] && i != ROOT
    requires (forall x, m :: Lookup(t, x, m) != Some(i)) && Links(t, d) < LINKS_CAP
    ensures DirAdded(t, MadeDir(t, d, n, i), d, n, i)
  {
    var t' := MadeDir(t, d, n, i);
    assert Lookup(t, d, n).None?;
    assert forall m :: Lookup(t, i, m).None?;
    forall x, m ensures Lookup(t', x, m) ==
      if x == i then FreshLookup(d, i, m) else if x == d && m == n then Some(i) else Lookup(t, x, m) {}
  }

  /** Making a directory keeps the tree. */
  lemma MadeDirInv(t: Table, free: set<nat>, first: nat, d: nat, n: Name, i: nat)
    requires Inv(t, free, first) && LiveDir(t, d) && n !in t[d].entries && i in free && Links(t, d) < LINKS_CAP
    ensures d != i && Inv(MadeDir(t, d, n, i), free - {i}, first)
  {
    hide Shape, Balanced, FreeOk, Balance, DirAdded;
    LiveFacts(t, d);
    FreeFacts(t, free, first, i);
    forall x, m ensures Lookup(t, x, m) != Some(i) {
      if Lookup(t, x, m) == Some(i) { Referenced(t, x, m, i); }
    }
    hide MadeDir, Lookup, EntriesAt;
    var t' := MadeDir(t, d, n, i);
    forall j ensures Balance(t', j) == 0 { MadeDirBalance(t, d, n, i, j); }
    CapOf(t);
    MadeDirLinks(t, free, first, d, n, i);
    BalancedIs(t');
    MadeDirAdds(t, d, n, i);
    DirAddedShape(t, t', d, n, i);
  }

  // ---- rmdir ------------------------------------------------------------------------------------

  /** `i` is a directory with nothing but the dots. */
  ghost predicate EmptyDir(t: Table, i: nat) {
    LiveDir(t, i) && forall n <- t[i].entries :: Dots(n)
  }

  /** A directory named in `d`. */
  ghost predicate NamedDir(t: Table, d: nat, n: Name, i: nat) {
    IsDir(t, d) && n in t[d].entries && t[d].entries[n] == i && !Dots(n) && IsDir(t, i)
  }

  lemma NamedDirFacts(t: Table, d: nat, n: Name, i: nat)
    requires Shape(t) && Balanced(t) && NamedDir(t, d, n, i)
    ensures LiveDir(t, d) && LiveDir(t, i) && i != ROOT && Parent(t, i) == d && i in t
  {
    hide Balanced;
    assert EntryOk(t, d, n);
    EntryFacts(t, d, n);
  }

  lemma EmptyEntries(t: Table, i: nat)
    requires Shape(t) && EmptyDir(t, i)
    ensures t[i].entries == map[DOT := i, DOTDOT := Parent(t, i)]
  {
    hide Shape;
    LiveFacts(t, i);
    var e, f := t[i].entries, map[DOT := i, DOTDOT := Parent(t, i)];
    assert forall n :: n in e <==> n == DOT || n == DOTDOT;
    assert e.Keys == f.Keys;
  }

  /** An empty directory is not its own parent. */
  lemma EmptyNotOwnParent(t: Table, d: nat, n: Name, i: nat)
    requires NamedDir(t, d, n, i) && EmptyDir(t, i)
    ensures d != i
  {
  }

  /** A directory without subdirectories has two references. */
  lemma EmptyLinks(t: Table, d: nat, n: Name, i: nat)
    requires Shape(t) && Balanced(t) && NamedDir(t, d, n, i) && EmptyDir(t, i)
    ensures Links(t, i) == 2
  {
    NamedDirFacts(t, d, n, i);
    EmptyEntries(t, i);
    EmptyNotOwnParent(t, d, n, i);
    forall p ensures p in Refs(t, i) <==> p == (i, DOT) || p == (d, n) { EmptyRefs(t, d, n, i, p.0, p.1); }
    assert Refs(t, i) == {(i, DOT), (d, n)};
    assert Balance(t, i) == 0;
  }

  /** Nothing lives in an empty directory. */
  lemma NoChild(t: Table, i: nat, x: nat)
    requires Shape(t) && EmptyDir(t, i) && i != ROOT && LiveDir(t, x)
    ensures Parent(t, x) != i
  {
    hide Rooted, EntryOk;
    assert DirOk(t, x);
    if x != ROOT {
      assert Named(t, x);
      var c :| NamedBy(t, x, c);
    }
  }

  lemma EmptyRefs(t: Table, d: nat, n: Name, i: nat, x: nat, m: Name)
    requires Shape(t) && NamedDir(t, d, n, i) && EmptyDir(t, i) && Parent(t, i) == d && d != i && i != ROOT
    requires t[i].entries == map[DOT := i, DOTDOT := d]
    ensures (x, m) in Refs(t, i) <==> (x == i && m == DOT) || (x == d && m == n)
  {
    hide Rooted;
    if m in EntriesAt(t, x) && EntriesAt(t, x)[m] == i {
      assert LiveDir(t, x);
      assert EntryOk(t, x, m);
      LiveFacts(t, x);
      NoChild(t, i, x);
      if !Dots(m) {
        assert x == d && NamedBy(t, i, m) && NamedBy(t, i, n) && Named(t, i);
      }
    }
  }

  lemma RemovedDirBalance(t: Table, d: nat, n: Name, i: nat, j: nat)
    requires Balanced(t) && IsDir(t, d) && n in t[d].entries && t[d].entries[n] == i && IsDir(t, i) && d != i && Links(t, i) == 2
    requires t[i].entries == map[DOT := i, DOTDOT := d] && Links(t, d) > 0
    ensures Balance(RemovedDir(t, d, n), j) == 0
  {
    assert Balance(t, j) == 0 && Links(t, d) <= LINKS_CAP;
    hide Balance, NamesTo, Balanced;
    var t1 := DelEntry(t, d, n);
    DelBalance(t, d, n, j);
    assert t1[i] == t[i];
    DestroyBalance(t1, i, j);
    assert DOT in t[i].entries;
    LinksBalance(Destroy(t1, i), d, Links(t, d) - 1, j);
  }

  lemma RemovedDirLinks(t: Table, free: set<nat>, first: nat, d: nat, n: Name, i: nat)
    requires FreeOk(t, free, first) && ROOT < first && IsDir(t, d) && n in t[d].entries && t[d].entries[n] == i && IsDir(t, i) && i != ROOT
    requires d != i && Links(t, i) > 0 && Links(t, d) >= 2 && (forall j :: Links(t, j) <= LINKS_CAP)
    ensures forall j :: Links(RemovedDir(t, d, n), j) <= LINKS_CAP
    ensures FreeOk(RemovedDir(t, d, n), free + {i}, first)
  {
    var t' := RemovedDir(t, d, n);
    forall j: nat ensures Links(t', j) == if j == i then 0 else Links(t, j) - Hit(j, d) {
      assert Links(t, d) <= LINKS_CAP;
    }
    forall j: nat ensures j in t' <==> j in t {}
    assert first <= i;
  }

  lemma RemovedDirAdds(t: Table, d: nat, n: Name, i: nat)
    requires NamedDir(t, d, n, i) && LiveDir(t, d) && LiveDir(t, i) && i != ROOT && d != i && Links(t, d) >= 2
    requires t[i].entries == map[DOT := i, DOTDOT := d]
    requires forall x, m :: Lookup(RemovedDir(t, d, n), x, m) != Some(i)
    ensures DirAdded(RemovedDir(t, d, n), t, d, n, i)
  {
    var t' := RemovedDir(t, d, n);
    assert Lookup(t', d, n).None?;
    assert forall m :: Lookup(t', i, m).None?;
    forall x, m ensures Lookup(t, x, m) ==
      if x == i then FreshLookup(d, i, m) else if x == d && m == n then Some(i) else Lookup(t', x, m) {}
  }

  /** A directory with a subdirectory has at least the two references "." and its child's "..". */
  lemma ParentLinks(t: Table, d: nat, i: nat)
    requires Shape(t) && Balanced(t) && LiveDir(t, d) && LiveDir(t, i) && d != i && Parent(t, i) == d
    ensures Links(t, d) >= 2
  {
    hide Shape;
    LiveFacts(t, d);
    LiveFacts(t, i);
    assert {(d, DOT), (i, DOTDOT)} <= Refs(t, d);
    SubsetSize({(d, DOT), (i, DOTDOT)}, Refs(t, d));
    assert Balance(t, d) == 0;
  }

  lemma SubsetSize<T>(a: set<T>, b: set<T>)
    requires a <= b
    ensures |a| <= |b|
  {
    assert b == a + (b - a);
  }

  /** Removing an empty directory keeps the tree. */
  lemma RemovedDirInv(t: Table, free: set<nat>, first: nat, d: nat, n: Name, i: nat)
    requires Inv(t, free, first) && NamedDir(t, d, n, i) && EmptyDir(t, i)
    ensures Inv(RemovedDir(t, d, n), free + {i}, first)
  {
    hide Lookup, RemovedDir, EmptyDir, Parent, Shape, Balanced, FreeOk, Balance, DirAdded;
    NamedDirFacts(t, d, n, i);
    EmptyEntries(t, i);
    EmptyNotOwnParent(t, d, n, i);
    EmptyLinks(t, d, n, i);
    ParentLinks(t, d, i);
    var t' := RemovedDir(t, d, n);
    forall j ensures Balance(t', j) == 0 { RemovedDirBalance(t, d, n, i, j); }
    CapOf(t);
    RemovedDirLinks(t, free, first, d, n, i);
    BalancedIs(t');
    assert Links(t', i) == 0;
    forall x, m ensures Lookup(t', x, m) != Some(i) {
      if Lookup(t', x, m) == Some(i) { Referenced(t', x, m, i); }
    }
    RemovedDirAdds(t, d, n, i);
    DirRemovedShape(t', t, d, n, i);
  }
}
