/** The namespace operations as functions on the name graph: when they refuse, what they do, and
    that they keep the tree. */
module NameSpec {
  import opened Common
  import opened FsErrors
  import opened DirBlock
  import opened Directory
  import opened NameTree
  import opened NameMoves
  import opened NameDirs
  import opened NameRename

  /** `check_dir`. */
  function NoDir(t: Table, d: nat): Option<FsError> {
    if d !in t then Some(Invalid) else if !t[d].Dir? then Some(NotDirectory) else None
  }

  // ---- create and mkdir ------------------------------------------------------------------------

  function CreateRefused(t: Table, d: nat, n: Name, dir: bool): Option<FsError> {
    if ValidateName(n).Some? then ValidateName(n)
    else if NoDir(t, d).Some? then NoDir(t, d)
    else if t[d].links == 0 then Some(NotFound)
    else if dir && t[d].links >= MAX_LINKS then Some(TooManyLinks)
    else if n in t[d].entries then Some(Exists)
    else None
  }

  function Created(t: Table, d: nat, n: Name, i: nat, dir: bool): Table
    requires IsDir(t, d) && d != i
  {
    if dir then MadeDir(t, d, n, i) else Made(t, d, n, i)
  }

  ghost predicate IsCreated(t: Table, t': Table, d: nat, n: Name, i: nat, dir: bool) {
    IsDir(t, d) && d != i && t' == Created(t, d, n, i, dir)
  }

  /** Creation keeps the tree, whichever free inode it takes. */
  lemma CreateKeepsTree(t: Table, free: set<nat>, first: nat, d: nat, n: Name, i: nat, dir: bool)
    requires Inv(t, free, first) && CreateRefused(t, d, n, dir).None? && i in free
    ensures d != i && Inv(Created(t, d, n, i, dir), free - {i}, first)
  {
    hide Inv, Made, MadeDir;
    if dir { MadeDirInv(t, free, first, d, n, i); } else { MadeInv(t, free, first, d, n, i); }
  }

  /** A node of no consequence, as a free inode's. */
  predicate Empty(v: Node) {
    v.links == 0 && Entries(v) == map[]
  }

  /** The same names, the same live directories; only the kinds of unnamed inodes may differ. */
  ghost predicate SameNames(t: Table, t': Table) {
    && (forall x :: x in t' <==> x in t)
    && (forall x :: LiveDir(t', x) <==> LiveDir(t, x))
    && (forall x, m :: Lookup(t', x, m) == Lookup(t, x, m))
    && (forall x, m, j :: Lookup(t, x, m) == Some(j) ==> (IsDir(t', j) <==> IsDir(t, j)))
  }

  lemma SameParent(t: Table, t': Table, x: nat)
    requires SameNames(t, t')
    ensures Parent(t', x) == Parent(t, x)
  {
    ParentIs(t, x);
    ParentIs(t', x);
    assert Lookup(t', x, DOTDOT) == Lookup(t, x, DOTDOT);
  }

  lemma SameDirOk(t: Table, t': Table, x: nat)
    requires Shape(t) && SameNames(t, t') && LiveDir(t, x)
    ensures DirOk(t', x) && (x != ROOT ==> Named(t', x))
  {
    hide EntryOk;
    forall y ensures Parent(t', y) == Parent(t, y) { SameParent(t, t', y); }
    assert Lookup(t', x, DOT) == Lookup(t, x, DOT) && Lookup(t', x, DOTDOT) == Lookup(t, x, DOTDOT);
    assert DirOk(t, x);
    var k: nat :| Climb(t, x, k);
    var e := Outside(t);
    ClimbKeep(t, t', x, k, e);
    if x != ROOT {
      assert Named(t, x);
      forall m ensures NamedBy(t', x, m) <==> NamedBy(t, x, m) {
        NamedIs(t, x, m);
        NamedIs(t', x, m);
      }
    }
  }

  lemma SameEntryOk(t: Table, t': Table, x: nat, m: Name)
    requires Shape(t) && SameNames(t, t')
    ensures EntryOk(t', x, m)
  {
    hide DirOk, Named;
    assert EntryOk(t, x, m);
    assert Lookup(t', x, m) == Lookup(t, x, m);
    if m in EntriesAt(t', x) {
      var j := EntriesAt(t', x)[m];
      assert Lookup(t, x, m) == Some(j);
      SameParent(t, t', j);
    }
  }

  lemma SameShape(t: Table, t': Table)
    requires Shape(t) && SameNames(t, t')
    ensures Shape(t')
  {
    hide DirOk, Named, EntryOk, Lookup, EntriesAt, LiveDir, IsDir, Parent;
    forall x | LiveDir(t', x) ensures DirOk(t', x) && (x != ROOT ==> Named(t', x)) { SameDirOk(t, t', x); }
    forall x, m ensures EntryOk(t', x, m) { SameEntryOk(t, t', x, m); }
    forall x | !LiveDir(t', x) ensures EntriesAt(t', x) == map[] {
      NoEntries(t, x);
      NoEntries(t', x);
      forall m ensures Lookup(t', x, m).None? { assert Lookup(t', x, m) == Lookup(t, x, m); }
    }
  }

  lemma EmptySame(t: Table, i: nat, v: Node)
    requires Balanced(t) && i in t && Empty(t[i]) && Empty(v)
    ensures SameNames(t, t[i := v])
  {
    hide Balanced;
    var t' := t[i := v];
    forall x, m ensures Lookup(t', x, m) == Lookup(t, x, m) && Lookup(t, x, m) != Some(i) {
      if Lookup(t, x, m) == Some(i) { Referenced(t, x, m, i); }
    }
  }

  /** What a free inode's record says makes no difference. */
  lemma EmptyInv(t: Table, free: set<nat>, first: nat, i: nat, v: Node)
    requires Inv(t, free, first) && i in free && Empty(v)
    ensures Inv(t[i := v], free, first) && forall x, m :: Lookup(t[i := v], x, m) == Lookup(t, x, m)
  {
    hide Shape, Balance, NamesTo, Entries;
    FreeFacts(t, free, first, i);
    var t' := t[i := v];
    EmptySame(t, i, v);
    SameShape(t, t');
    forall j ensures Balance(t', j) == 0 {
      assert Balance(t, j) == 0;
      BalanceSet(t, i, v, j);
      LeafNames(v, j);
      LeafNames(t[i], j);
    }
    forall j: nat ensures Links(t', j) == Links(t, j) && (j in t' <==> j in t) {}
  }

  // ---- link ------------------------------------------------------------------------------------

  function LinkRefused(t: Table, d: nat, n: Name, i: nat): Option<FsError> {
    if ValidateName(n).Some? then ValidateName(n)
    else if i !in t then Some(Invalid)
    else if t[i].Dir? then Some(IsDirectory)
    else if t[i].links >= MAX_LINKS then Some(TooManyLinks)
    else if NoDir(t, d).Some? then NoDir(t, d)
    else if n in t[d].entries then Some(Exists)
    else None
  }

  ghost predicate IsLinked(t: Table, t': Table, d: nat, n: Name, i: nat) {
    IsDir(t, d) && i in t && t' == LinkedTo(t, d, n, i)
  }

  // ---- unlink and rmdir ------------------------------------------------------------------------

  ghost predicate IsDropped(t: Table, free: set<nat>, t': Table, free': set<nat>, d: nat, n: Name) {
    && IsDir(t, d) && n in t[d].entries && t[d].entries[n] in t
    && t' == Dropped(t, d, n) && free' == FreeAfterDrop(t, free, t[d].entries[n])
  }

  ghost predicate IsRemoved(t: Table, t': Table, d: nat, n: Name) {
    IsDir(t, d) && n in t[d].entries && t[d].entries[n] in t && t' == RemovedDir(t, d, n)
  }

  function UnlinkRefused(t: Table, d: nat, n: Name): Option<FsError> {
    if ValidateName(n).Some? then ValidateName(n)
    else if NoDir(t, d).Some? then NoDir(t, d)
    else if n !in t[d].entries then Some(NotFound)
    else if IsDir(t, t[d].entries[n]) then Some(IsDirectory)
    else None
  }

  ghost function RmdirRefused(t: Table, d: nat, n: Name): Option<FsError> {
    if ValidateName(n).Some? then ValidateName(n)
    else if Dots(n) then Some(Invalid)
    else if NoDir(t, d).Some? then NoDir(t, d)
    else if n !in t[d].entries then Some(NotFound)
    else if !IsDir(t, t[d].entries[n]) then Some(NotDirectory)
    else if !EmptyDir(t, t[d].entries[n]) then Some(NotEmpty)
    else None
  }

  // ---- rename ------------------------------------------------------------------------------------

  /** The refusals of `rename`; `walk` is what the parent walk says of a directory to be moved. */
  ghost function RenameRefusedBy(t: Table, od: nat, on: Name, nd: nat, nn: Name, walk: Option<FsError>): Option<FsError> {
    if ValidateName(on).Some? then ValidateName(on)
    else if ValidateName(nn).Some? then ValidateName(nn)
    else if Dots(on) || Dots(nn) then Some(Invalid)
    else if od == nd && on == nn then None
    else if NoDir(t, od).Some? then NoDir(t, od)
    else if NoDir(t, nd).Some? then NoDir(t, nd)
    else if on !in t[od].entries then Some(NotFound)
    else MoveRefused(t, t[od].entries[on], nd, nn, walk)
  }

  ghost function MoveRefused(t: Table, s: nat, nd: nat, nn: Name, walk: Option<FsError>): Option<FsError> {
    if IsDir(t, s) && walk.Some? then walk
    else if nn !in EntriesAt(t, nd) then None
    else OverwriteRefused(t, s, EntriesAt(t, nd)[nn])
  }

  /** The parent walk in a tree: it fails in a removed directory, and refuses a target inside the source. */
  ghost function TreeWalk(t: Table, nd: nat, s: nat): Option<FsError> {
    if !LiveDir(t, nd) then Some(NotFound) else if Inside(t, nd, s) then Some(Invalid) else None
  }

  ghost function Source(t: Table, od: nat, on: Name): nat {
    if on in EntriesAt(t, od) then EntriesAt(t, od)[on] else 0
  }

  ghost function RenameRefused(t: Table, od: nat, on: Name, nd: nat, nn: Name): Option<FsError> {
    RenameRefusedBy(t, od, on, nd, nn, TreeWalk(t, nd, Source(t, od, on)))
  }

  /** Whether the existing target may be replaced. */
  ghost function OverwriteRefused(t: Table, s: nat, e: nat): Option<FsError> {
    if e == s then None
    else if IsDir(t, e) then
      if !IsDir(t, s) then Some(IsDirectory) else if !EmptyDir(t, e) then Some(NotEmpty) else None
    else if IsDir(t, s) then Some(NotDirectory)
    else None
  }

  /** The existing target goes as by `unlink` or `rmdir`. */
  function Overwritten(t: Table, d: nat, n: Name): Table
    requires IsDir(t, d) && n in t[d].entries && t[d].entries[n] in t
  {
    if IsDir(t, t[d].entries[n]) then RemovedDir(t, d, n) else Dropped(t, d, n)
  }

  ghost function FreeAfterOverwrite(t: Table, free: set<nat>, e: nat): set<nat> {
    if IsDir(t, e) then free + {e} else FreeAfterDrop(t, free, e)
  }

  /** An accepted overwriting rename leaves the source movable to the cleared name. */
  lemma OverwriteThenMove(t: Table, free: set<nat>, first: nat, od: nat, on: Name, nd: nat, nn: Name, s: nat, e: nat)
    requires Inv(t, free, first) && IsDir(t, od) && IsDir(t, nd) && on in t[od].entries && t[od].entries[on] == s && s in t
    requires nn in t[nd].entries && t[nd].entries[nn] == e && e in t && e != s && OverwriteRefused(t, s, e).None? && !Dots(on) && !Dots(nn)
    ensures var t1 := Overwritten(t, nd, nn);
            && Inv(t1, FreeAfterOverwrite(t, free, e), first) && Movable(t1, od, on, nd, nn, s)
            && LiveDir(t1, nd) && (IsDir(t1, s) <==> IsDir(t, s))
            && (IsDir(t, s) ==> Links(t1, nd) < LINKS_CAP)
  {
    hide Inv, Inside, Shape, Balanced, FreeOk;
    InvParts(t, free, first);
    EntryFacts(t, nd, nn);
    if IsDir(t, e) {
      RemovedDirInv(t, free, first, nd, nn, e);
      NamedDirFacts(t, nd, nn, e);
      EmptyNotOwnParent(t, nd, nn, e);
      ParentLinks(t, nd, e);
      CapOf(t);
    } else {
      DroppedInv(t, free, first, nd, nn, e);
    }
  }

  /** The parent walk of `rename`, one step at a time. */
  lemma InsideUp(t: Table, x: nat, s: nat)
    ensures x == s ==> Inside(t, x, s)
    ensures x != s && x == ROOT ==> !Inside(t, x, s)
    ensures x != s && x != ROOT ==> (Inside(t, x, s) <==> Inside(t, Parent(t, x), s))
  {
    if x == s {
      assert Above(t, s, x, 0);
    } else if x != ROOT {
      if k: nat :| Above(t, s, x, k) { assert Above(t, s, Parent(t, x), k - 1); }
      if k: nat :| Above(t, s, Parent(t, x), k) { assert Above(t, s, x, k + 1); }
    }
  }

  /** Two names mean two links. */
  lemma TwoNames(t: Table, d: nat, n: Name, d': nat, n': Name, i: nat)
    requires Balanced(t) && Lookup(t, d, n) == Some(i) && Lookup(t, d', n') == Some(i) && !(d == d' && n == n')
    ensures Links(t, i) >= 2
  {
    SubsetSize({(d, n), (d', n')}, Refs(t, i));
    assert Balance(t, i) == 0;
  }

  lemma InvParts(t: Table, free: set<nat>, first: nat)
    requires Inv(t, free, first)
    ensures Shape(t) && Balanced(t)
  {
  }

  lemma {:induction false} AboveKept(t: Table, t1: Table, s: nat, x: nat, k: nat, e: nat)
    requires Above(t1, s, x, k) && LiveDir(t, x) && x != e
    requires forall d :: LiveDir(t, d) && d != e ==> LiveDir(t, Parent(t, d)) && Parent(t1, d) == Parent(t, d) != e
    ensures Above(t, s, x, k)
    decreases k
  {
    hide LiveDir, Parent;
    if k > 0 { AboveKept(t, t1, s, Parent(t, x), k - 1, e); }
  }

  lemma OverwrittenParents(t: Table, nd: nat, nn: Name, e: nat, d: nat)
    requires Shape(t) && Balanced(t) && IsDir(t, nd) && nn in t[nd].entries && t[nd].entries[nn] == e && e in t && !Dots(nn)
    requires (IsDir(t, e) ==> EmptyDir(t, e)) && LiveDir(t, d) && d != e
    ensures LiveDir(t, Parent(t, d)) && Parent(Overwritten(t, nd, nn), d) == Parent(t, d) != e
  {
    hide Shape, Balanced;
    LiveFacts(t, d);
    if IsDir(t, e) {
      NamedDirFacts(t, nd, nn, e);
      NoChild(t, e, d);
    }
  }

  /** Clearing the target name puts nobody inside the source. */
  lemma StillOutside(t: Table, nd: nat, nn: Name, s: nat, e: nat)
    requires Shape(t) && Balanced(t) && LiveDir(t, nd) && nn in t[nd].entries && t[nd].entries[nn] == e && e in t && !Dots(nn)
    requires (IsDir(t, e) ==> EmptyDir(t, e)) && nd != e && !Inside(t, nd, s)
    ensures !Inside(Overwritten(t, nd, nn), nd, s)
  {
    hide Shape, Balanced, EmptyDir, Overwritten, Above;
    var t1 := Overwritten(t, nd, nn);
    forall d | LiveDir(t, d) && d != e ensures LiveDir(t, Parent(t, d)) && Parent(t1, d) == Parent(t, d) != e {
      OverwrittenParents(t, nd, nn, e, d);
    }
    hide LiveDir, Parent;
    forall k: nat ensures !Above(t1, s, nd, k) {
      if Above(t1, s, nd, k) { AboveKept(t, t1, s, nd, k, e); }
    }
  }

  /** What an accepted rename did. */
  ghost predicate RenameDone(t: Table, free: set<nat>, t': Table, free': set<nat>, od: nat, on: Name, nd: nat, nn: Name) {
    if od == nd && on == nn then t' == t && free' == free
    else
      IsDir(t, od) && IsDir(t, nd) && on in t[od].entries && t[od].entries[on] in t &&
      var s := t[od].entries[on];
      if nn !in t[nd].entries then t' == Moved(t, od, on, nd, nn) && free' == free
      else
        t[nd].entries[nn] in t &&
        var e := t[nd].entries[nn];
        if e == s then t' == Dropped(t, od, on) && free' == FreeAfterDrop(t, free, s)
        else
          var t1 := Overwritten(t, nd, nn);
          Movable(t1, od, on, nd, nn, s) && t' == Moved(t1, od, on, nd, nn) && free' == FreeAfterOverwrite(t, free, e)
  }

  /** The target directory is in use, and has room in its link count for one more subdirectory
      if it gets one. */
  ghost predicate RenameSound(t: Table, od: nat, on: Name, nd: nat, nn: Name) {
    (od == nd && on == nn) ||
    (LiveDir(t, nd) &&
      (IsDir(t, od) && on in t[od].entries && IsDir(t, t[od].entries[on]) && od != nd && nn !in EntriesAt(t, nd)
       ==> Links(t, nd) < LINKS_CAP))
  }

  /** A directory has one name. */
  lemma OneName(t: Table, od: nat, on: Name, nd: nat, nn: Name, s: nat)
    requires Shape(t) && Balanced(t) && NamedDir(t, od, on, s) && NamedDir(t, nd, nn, s)
    ensures od == nd && on == nn
  {
    hide Balanced, Rooted, DirOk, EntryOk;
    NamedDirFacts(t, od, on, s);
    NamedDirFacts(t, nd, nn, s);
    assert Named(t, s) && NamedBy(t, s, on) && NamedBy(t, s, nn);
  }

  lemma OverwriteExact(t: Table, free: set<nat>, first: nat, od: nat, on: Name, nd: nat, nn: Name, s: nat, e: nat)
    requires Inv(t, free, first) && IsDir(t, od) && IsDir(t, nd) && on in t[od].entries && t[od].entries[on] == s && s in t
    requires nn in t[nd].entries && t[nd].entries[nn] == e && e in t && e != s && OverwriteRefused(t, s, e).None? && !Dots(on) && !Dots(nn)
    requires IsDir(t, s) ==> !Inside(t, nd, s)
    ensures Movable(Overwritten(t, nd, nn), od, on, nd, nn, s) && LiveDir(t, nd)
    ensures Inv(Moved(Overwritten(t, nd, nn), od, on, nd, nn), FreeAfterOverwrite(t, free, e), first)
  {
    hide Inv, Inside, Overwritten, FreeAfterOverwrite, Moved, Movable, Shape, Balanced;
    InvParts(t, free, first);
    EntryFacts(t, nd, nn);
    OverwriteThenMove(t, free, first, od, on, nd, nn, s, e);
    var t1 := Overwritten(t, nd, nn);
    if IsDir(t, s) {
      if IsDir(t, e) { EmptyNotOwnParent(t, nd, nn, e); }
      StillOutside(t, nd, nn, s, e);
    }
    MoveExact(t1, FreeAfterOverwrite(t, free, e), first, od, on, nd, nn, s);
  }

  /** An accepted rename keeps the tree exactly if it is sound; `rename` itself checks neither
      that the target directory is in use (for a file) nor its link count. */
  lemma RenameExact(t: Table, free: set<nat>, first: nat, t': Table, free': set<nat>, od: nat, on: Name, nd: nat, nn: Name)
    requires Inv(t, free, first) && RenameRefused(t, od, on, nd, nn).None? && RenameDone(t, free, t', free', od, on, nd, nn)
    ensures Inv(t', free', first) <==> RenameSound(t, od, on, nd, nn)
  {
    hide Inv, Inside, Overwritten, FreeAfterOverwrite, Moved, Dropped, FreeAfterDrop, Shape, Balanced, EmptyDir;
    if od == nd && on == nn { return; }
    InvParts(t, free, first);
    var s := t[od].entries[on];
    if nn !in t[nd].entries {
      MoveExact(t, free, first, od, on, nd, nn, s);
    } else {
      var e := t[nd].entries[nn];
      EntryFacts(t, nd, nn);
      if e == s {
        if IsDir(t, s) { OneName(t, od, on, nd, nn, s); }
        DroppedInv(t, free, first, od, on, s);
      } else {
        OverwriteExact(t, free, first, od, on, nd, nn, s, e);
      }
    }
  }
}
