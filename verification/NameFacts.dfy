/** Consequences for callers: atomic renames, the meaning of link counts, and two accepted calls
    that break the tree. */
module NameFacts {
  import opened Common
  import opened DirBlock
  import opened Directory
  import opened NameTree
  import opened NameMoves
  import opened NameDirs
  import opened NameRename
  import opened NameSpec

  /** Seen from outside, an overwriting or plain rename is one step: the old name is gone, the new
      name leads to the source, and every other name is as before. */
  lemma RenameNames(t: Table, free: set<nat>, first: nat, t': Table, free': set<nat>, od: nat, on: Name, nd: nat, nn: Name, x: nat, m: Name)
    requires Inv(t, free, first) && RenameRefused(t, od, on, nd, nn).None? && RenameDone(t, free, t', free', od, on, nd, nn)
    requires !(od == nd && on == nn) && !Dots(m)
    ensures on in EntriesAt(t, od)
    ensures Lookup(t', x, m) ==
      if x == nd && m == nn then Some(EntriesAt(t, od)[on]) else if x == od && m == on then None else Lookup(t, x, m)
  {
    hide Inv, Inside, Shape, Balanced, FreeAfterOverwrite, FreeAfterDrop;
    var s := t[od].entries[on];
    if nn !in t[nd].entries {
      MovedName(t, od, on, nd, nn, s, x, m);
    } else if t[nd].entries[nn] != s {
      var e := t[nd].entries[nn];
      MovedName(Overwritten(t, nd, nn), od, on, nd, nn, s, x, m);
      OverwrittenName(t, nd, nn, e, x, m);
    } else {
      InvParts(t, free, first);
      if IsDir(t, s) { OneName(t, od, on, nd, nn, s); }
    }
  }

  lemma MovedName(t: Table, od: nat, on: Name, nd: nat, nn: Name, s: nat, x: nat, m: Name)
    requires Movable(t, od, on, nd, nn, s) && !Dots(m)
    ensures Lookup(Moved(t, od, on, nd, nn), x, m) ==
      if x == nd && m == nn then Some(s) else if x == od && m == on then None else Lookup(t, x, m)
  {
  }

  lemma OverwrittenName(t: Table, nd: nat, nn: Name, e: nat, x: nat, m: Name)
    requires IsDir(t, nd) && nn in t[nd].entries && t[nd].entries[nn] == e && e in t && !Dots(m)
    requires IsDir(t, e) ==> EmptyDir(t, e)
    ensures Lookup(Overwritten(t, nd, nn), x, m) == if x == nd && m == nn then None else Lookup(t, x, m)
  {
  }

  // ---- the start, and two runs that break the tree -----------------------------------------------

  /** The numbers from `first` to `count`. */
  function FreeInodes(first: nat, count: nat): set<nat> {
    if count < first then {} else {count} + (if count == 0 then {} else FreeInodes(first, count - 1))
  }

  lemma {:induction false} InFreeInodes(first: nat, count: nat, i: nat)
    ensures i in FreeInodes(first, count) <==> first <= i <= count
    decreases count
  {
    if count >= first && count > 0 { InFreeInodes(first, count - 1, i); }
  }

  /** The inodes of an empty filesystem. */
  function Formatted(count: nat): Table {
    map i | i in FreeInodes(1, count) :: if i == ROOT then Dir(map[DOT := ROOT, DOTDOT := ROOT], 2) else Leaf(0)
  }

  lemma FormattedAt(count: nat, i: nat)
    ensures i in Formatted(count) <==> 1 <= i <= count
    ensures 1 <= i <= count ==>
      Formatted(count)[i] == if i == ROOT then Dir(map[DOT := ROOT, DOTDOT := ROOT], 2) else Leaf(0)
  {
    InFreeInodes(1, count, i);
  }

  lemma FormattedRefs(count: nat, i: nat)
    requires ROOT <= count
    ensures Balance(Formatted(count), i) == 0
  {
    hide Formatted;
    var t := Formatted(count);
    FormattedAt(count, i);
    FormattedAt(count, ROOT);
    forall p ensures p in Refs(t, i) <==> i == ROOT && (p == (ROOT, DOT) || p == (ROOT, DOTDOT)) {
      assert p == (p.0, p.1);
      FormattedAt(count, p.0);
    }
    if i == ROOT {
      assert Refs(t, i) == {(ROOT, DOT), (ROOT, DOTDOT)};
      Letters();
    } else {
      assert Refs(t, i) == {};
    }
  }

  lemma FormattedShape(count: nat)
    requires ROOT <= count
    ensures Shape(Formatted(count))
  {
    hide Formatted;
    var t := Formatted(count);
    forall d: nat ensures (d in t <==> 1 <= d <= count) && (d in t ==> t[d] == if d == ROOT then Dir(map[DOT := ROOT, DOTDOT := ROOT], 2) else Leaf(0)) {
      FormattedAt(count, d);
    }
    assert LiveDir(t, ROOT);
    assert forall d :: LiveDir(t, d) ==> d == ROOT;
    assert Climb(t, ROOT, 0);
    assert DirOk(t, ROOT);
  }

  lemma FormattedFree(count: nat, first: nat)
    requires ROOT < first <= count
    ensures FreeOk(Formatted(count), FreeInodes(first, count), first) && forall i :: Links(Formatted(count), i) <= LINKS_CAP
  {
    hide Formatted, FreeInodes;
    forall i: nat ensures Links(Formatted(count), i) == (if i == ROOT then 2 else 0) && (i in FreeInodes(first, count) <==> first <= i <= count)
      && (i in Formatted(count) <==> 1 <= i <= count)
    {
      FormattedAt(count, i);
      FormattedAt(count, ROOT);
      InFreeInodes(first, count, i);
    }
  }

  /** An empty filesystem is a tree. */
  lemma FormattedInv(count: nat, first: nat)
    requires ROOT < first <= count
    ensures Inv(Formatted(count), FreeInodes(first, count), first)
  {
    hide Balance, Shape, FreeOk, Formatted, Links;
    FormattedShape(count);
    forall i ensures Balance(Formatted(count), i) == 0 { FormattedRefs(count, i); }
    FormattedFree(count, first);
    BalancedIs(Formatted(count));
  }

  const NAME_D: Name := [100]
  const NAME_F: Name := [102]

  lemma CreatedNodes(t: Table, d: nat, n: Name, i: nat, dir: bool, x: nat)
    requires IsDir(t, d) && d != i
    ensures var t' := Created(t, d, n, i, dir);
            && IsDir(t', d) && t'[d].entries == t[d].entries[n := i] && (x in t ==> x in t')
            && i in t' && t'[i] == (if dir then Dir(map[DOT := i, DOTDOT := d], 2) else Leaf(1))
            && (x != d && x != i && x in t ==> t'[x] == t[x])
            && (t[d].links < LINKS_CAP ==> t'[d].links == t[d].links + (if dir then 1 else 0))
  {
  }

  lemma RemovedNodes(t: Table, d: nat, n: Name, i: nat, x: nat)
    requires IsDir(t, d) && n in t[d].entries && t[d].entries[n] == i && IsDir(t, i) && d != i
    ensures var t' := RemovedDir(t, d, n);
            && IsDir(t', d) && t'[d].entries == t[d].entries - {n} && i in t' && t'[i] == Dir(map[], 0)
            && (x != d && x != i && x in t ==> x in t' && t'[x] == t[x])
  {
  }

  /** `mkdir d`, `create f`, `rmdir d`: afterwards the removed directory still has its record. */
  lemma RemovedDirRun() returns (t: Table, free: set<nat>)
    ensures Inv(t, free, 11) && 11 in t && t[11] == Dir(map[], 0) && 12 in t && t[12] == Leaf(1)
    ensures IsDir(t, ROOT) && NAME_F in t[ROOT].entries && t[ROOT].entries[NAME_F] == 12
  {
    hide Inv, Formatted, FreeInodes, Created, RemovedDir, ValidateName;
    FormattedInv(12, 11);
    FormattedAt(12, ROOT);
    InFreeInodes(11, 12, 11);
    InFreeInodes(11, 12, 12);
    Letters();
    var t0, f0 := Formatted(12), FreeInodes(11, 12);
    CreateKeepsTree(t0, f0, 11, ROOT, NAME_D, 11, true);
    CreatedNodes(t0, ROOT, NAME_D, 11, true, 12);
    var t1 := Created(t0, ROOT, NAME_D, 11, true);
    CreateKeepsTree(t1, f0 - {11}, 11, ROOT, NAME_F, 12, false);
    CreatedNodes(t1, ROOT, NAME_F, 12, false, 11);
    var t2 := Created(t1, ROOT, NAME_F, 12, false);
    RemovedDirInv(t2, f0 - {11} - {12}, 11, ROOT, NAME_D, 11);
    RemovedNodes(t2, ROOT, NAME_D, 11, 12);
    t, free := RemovedDir(t2, ROOT, NAME_D), f0 - {11} - {12} + {11};
  }

  lemma Letters()
    ensures ValidateName(NAME_D).None? && ValidateName(NAME_F).None? && NAME_D != NAME_F
    ensures !Dots(NAME_D) && !Dots(NAME_F) && DOT != DOTDOT
  {
    assert NAME_D[0] == 100 && NAME_F[0] == 102 && DOT[0] == 46 && |DOT| == 1 && |DOTDOT| == 2;
  }

  /** A link into a removed directory is accepted and breaks the tree. */
  lemma LinkIntoRemovedDir() returns (t: Table, free: set<nat>)
    ensures Inv(t, free, 11) && LinkRefused(t, 11, NAME_D, 12).None?
    ensures !Inv(LinkedTo(t, 11, NAME_D, 12), free, 11)
  {
    hide Inv, LinkedTo;
    t, free := RemovedDirRun();
    Letters();
    LinkExact(t, free, 11, 11, NAME_D, 12);
  }

  /** So is the rename of a file into a removed directory. */
  lemma RenameIntoRemovedDir() returns (t: Table, free: set<nat>)
    ensures Inv(t, free, 11) && RenameRefused(t, ROOT, NAME_F, 11, NAME_D).None? && Movable(t, ROOT, NAME_F, 11, NAME_D, 12)
    ensures !Inv(Moved(t, ROOT, NAME_F, 11, NAME_D), free, 11)
  {
    hide Inv, Moved, Inside;
    t, free := RemovedDirRun();
    Letters();
    MoveExact(t, free, 11, ROOT, NAME_F, 11, NAME_D, 12);
  }

  // ---- what link counts mean ------------------------------------------------------------------------

  ghost function Subdirs(t: Table, d: nat): set<nat> {
    set c | c in t && LiveDir(t, c) && c != ROOT && Parent(t, c) == d
  }

  ghost function Uplinks(s: set<nat>): set<(nat, Name)> {
    set c | c in s :: (c, DOTDOT)
  }

  lemma {:induction false} UplinksSize(s: set<nat>)
    ensures |Uplinks(s)| == |s|
    decreases |s|
  {
    if s != {} {
      var c :| c in s;
      UplinksSize(s - {c});
      assert Uplinks(s) == Uplinks(s - {c}) + {(c, DOTDOT)};
    } else {
      assert Uplinks(s) == {};
    }
  }

  /** The names of a file. */
  ghost function Names(t: Table, i: nat): set<(nat, Name)> {
    set p | p in Refs(t, i) && !Dots(p.1)
  }

  /** A file's link count is the number of its names. */
  lemma FileLinks(t: Table, free: set<nat>, first: nat, i: nat)
    requires Inv(t, free, first) && i in t && !IsDir(t, i)
    ensures Links(t, i) == |Names(t, i)|
  {
    forall p | p in Refs(t, i) ensures !Dots(p.1) {
      assert p == (p.0, p.1);
      assert LiveDir(t, p.0);
      LiveFacts(t, p.0);
    }
    assert Names(t, i) == Refs(t, i);
    assert Balance(t, i) == 0;
  }

  ghost predicate IsTop(t: Table, d: nat, top: (nat, Name)) {
    if d == ROOT then top == (ROOT, DOTDOT) else top.0 == Parent(t, d) && NamedBy(t, d, top.1)
  }

  lemma RefKinds(t: Table, d: nat, top: (nat, Name), x: nat, m: Name)
    requires Shape(t) && LiveDir(t, d) && IsTop(t, d, top) && Lookup(t, x, m) == Some(d)
    ensures (x, m) == (d, DOT) || (x, m) == top || (x, m) in Uplinks(Subdirs(t, d))
  {
    hide Rooted, DirOk, Named, EntryOk, NamedBy;
    RefFromLive(t, x, m, d);
    LiveFacts(t, x);
    if !Dots(m) {
      FromParent(t, x, m, d);
      TopIsName(t, d, top, m);
    } else if m == DOTDOT && x == ROOT {
      ShapeDirOk(t, ROOT);
      DirOkIs(t, ROOT);
    }
  }

  lemma RefFromLive(t: Table, x: nat, m: Name, d: nat)
    requires Shape(t) && Lookup(t, x, m) == Some(d)
    ensures LiveDir(t, x)
  {
    hide Rooted, DirOk, Named, EntryOk;
  }

  lemma TopIsName(t: Table, d: nat, top: (nat, Name), m: Name)
    requires Shape(t) && LiveDir(t, d) && IsTop(t, d, top) && d != ROOT && !Dots(m) && Lookup(t, Parent(t, d), m) == Some(d)
    ensures top == (Parent(t, d), m)
  {
    hide Shape, DirOk, EntryOk, Rooted, Lookup, EntriesAt, LiveDir, Parent, NamedBy;
    ShapeDirOk(t, d);
    NamedIs(t, d, m);
  }

  lemma KindsRef(t: Table, d: nat, top: (nat, Name), x: nat, m: Name)
    requires Shape(t) && LiveDir(t, d) && IsTop(t, d, top)
    requires (x, m) == (d, DOT) || (x, m) == top || (x, m) in Uplinks(Subdirs(t, d))
    ensures Lookup(t, x, m) == Some(d)
  {
    hide Rooted, Named, EntryOk;
    assert DirOk(t, d);
    if (x, m) in Uplinks(Subdirs(t, d)) { LiveFacts(t, x); }
  }

  /** The references to a directory: itself, its name (or the root's ".."), and its children. */
  lemma DirRefs(t: Table, d: nat, top: (nat, Name), x: nat, m: Name)
    requires Shape(t) && LiveDir(t, d) && IsTop(t, d, top)
    ensures (x, m) in Refs(t, d) <==> (x, m) == (d, DOT) || (x, m) == top || (x, m) in Uplinks(Subdirs(t, d))
  {
    hide Shape, Uplinks, Subdirs, IsTop;
    if Lookup(t, x, m) == Some(d) { RefKinds(t, d, top, x, m); }
    if (x, m) == (d, DOT) || (x, m) == top || (x, m) in Uplinks(Subdirs(t, d)) { KindsRef(t, d, top, x, m); }
  }

  lemma CountRefs(refs: set<(nat, Name)>, a: (nat, Name), b: (nat, Name), ups: set<(nat, Name)>)
    requires a != b && a !in ups && b !in ups && forall p :: p in refs <==> p == a || p == b || p in ups
    ensures |refs| == 2 + |ups|
  {
    assert refs == {a, b} + ups && {a, b} !! ups;
  }

  /** A directory's link count is two more than the number of its subdirectories. */
  lemma DirLinks(t: Table, free: set<nat>, first: nat, d: nat)
    requires Inv(t, free, first) && LiveDir(t, d)
    ensures Links(t, d) == 2 + |Subdirs(t, d)|
  {
    hide Refs, Subdirs, Shape, Uplinks, IsTop;
    var top := TopName(t, d);
    var ups := Uplinks(Subdirs(t, d));
    UplinksSize(Subdirs(t, d));
    TopApart(t, d, top);
    forall p ensures p in Refs(t, d) <==> p == (d, DOT) || p == top || p in ups {
      assert p == (p.0, p.1);
      DirRefs(t, d, top, p.0, p.1);
    }
    CountRefs(Refs(t, d), (d, DOT), top, ups);
    assert Balance(t, d) == 0;
  }

  lemma TopName(t: Table, d: nat) returns (top: (nat, Name))
    requires Shape(t) && LiveDir(t, d)
    ensures IsTop(t, d, top)
  {
    hide DirOk, EntryOk;
    if d == ROOT {
      top := (ROOT, DOTDOT);
    } else {
      assert Named(t, d);
      var n :| NamedBy(t, d, n);
      top := (Parent(t, d), n);
    }
  }

  lemma TopApart(t: Table, d: nat, top: (nat, Name))
    requires IsTop(t, d, top)
    ensures top != (d, DOT) && top !in Uplinks(Subdirs(t, d)) && (d, DOT) !in Uplinks(Subdirs(t, d))
  {
    Letters();
  }
}
