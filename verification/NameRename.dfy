/** Renaming in the name graph: exactly when a move keeps the tree. */
module NameRename {
  import opened Common
  import opened DirBlock
  import opened NameTree
  import opened NameMoves
  import opened NameDirs

  /** The entry `on` of `od` becomes the entry `nn` of `nd`; a directory that changes its parent
      gets a new "..", and both parents' counts are adjusted. */
  function Moved(t: Table, od: nat, on: Name, nd: nat, nn: Name): Table
    requires IsDir(t, od) && IsDir(t, nd) && on in t[od].entries && t[od].entries[on] in t
  {
    var s := t[od].entries[on];
    var t2 := DelEntry(AddEntry(t, nd, nn, s), od, on);
    if IsDir(t, s) && od != nd then AdjLinks(AdjLinks(AddEntry(t2, s, DOTDOT, nd), od, -1), nd, 1) else t2
  }

  /** What a move starts from. */
  ghost predicate Movable(t: Table, od: nat, on: Name, nd: nat, nn: Name, s: nat) {
    && IsDir(t, od) && IsDir(t, nd) && on in t[od].entries && t[od].entries[on] == s && s in t
    && !Dots(on) && !Dots(nn) && nn !in t[nd].entries
  }

  // ---- link counts ------------------------------------------------------------------------------

  lemma RetargetBalance(t: Table, s: nat, n: Name, to: nat, j: nat)
    requires IsDir(t, s) && n in t[s].entries
    ensures Balance(AddEntry(t, s, n, to), j) == Balance(t, j) + Hit(t[s].entries[n], j) - Hit(to, j)
  {
    hide Balance;
    var t1 := DelEntry(t, s, n);
    DelBalance(t, s, n, j);
    AddBalance(t1, s, n, to, j);
    assert (t[s].entries - {n})[n := to] == t[s].entries[n := to];
    assert AddEntry(t1, s, n, to) == AddEntry(t, s, n, to);
  }

  /** The first two steps leave every balance as it was. */
  lemma SwapBalance(t: Table, od: nat, on: Name, nd: nat, nn: Name, s: nat, j: nat)
    requires Movable(t, od, on, nd, nn, s)
    ensures IsDir(AddEntry(t, nd, nn, s), od) && on in AddEntry(t, nd, nn, s)[od].entries
    ensures Balance(DelEntry(AddEntry(t, nd, nn, s), od, on), j) == Balance(t, j)
  {
    hide Balance;
    AddBalance(t, nd, nn, s, j);
    DelBalance(AddEntry(t, nd, nn, s), od, on, j);
  }

  lemma SwapLinks(t: Table, od: nat, on: Name, nd: nat, nn: Name, s: nat, j: nat)
    requires Movable(t, od, on, nd, nn, s)
    ensures var t2 := DelEntry(AddEntry(t, nd, nn, s), od, on);
            && Links(t2, j) == Links(t, j) && (j in t2 <==> j in t) && (IsDir(t2, j) <==> IsDir(t, j))
            && Parent(t2, j) == Parent(t, j) && (DOTDOT in EntriesAt(t2, j) <==> DOTDOT in EntriesAt(t, j))
  {
  }

  /** A move across directories is exact unless the clamp takes the new parent's link away. */
  lemma CrossBalance(t: Table, od: nat, on: Name, nd: nat, nn: Name, s: nat, j: nat)
    requires Movable(t, od, on, nd, nn, s) && IsDir(t, s) && od != nd && DOTDOT in t[s].entries && Parent(t, s) == od
    requires 0 < Links(t, od) <= LINKS_CAP && Links(t, nd) <= LINKS_CAP
    ensures Balance(Moved(t, od, on, nd, nn), j) == Balance(t, j) - (if j == nd && Links(t, nd) == LINKS_CAP then 1 else 0)
    ensures Links(Moved(t, od, on, nd, nn), j) == Links(t, j) - Hit(j, od) + (if j == nd && Links(t, nd) < LINKS_CAP then 1 else 0)
    ensures (j in Moved(t, od, on, nd, nn) <==> j in t) && (IsDir(Moved(t, od, on, nd, nn), j) <==> IsDir(t, j))
  {
    SwapBalance(t, od, on, nd, nn, s, j);
    var t2 := DelEntry(AddEntry(t, nd, nn, s), od, on);
    forall x ensures Links(t2, x) == Links(t, x) && (x in t2 <==> x in t) && (IsDir(t2, x) <==> IsDir(t, x)) { SwapLinks(t, od, on, nd, nn, s, x); }
    SwapLinks(t, od, on, nd, nn, s, s);
    CrossLinks(t2, s, od, nd, j);
  }

  lemma CrossLinks(t: Table, s: nat, od: nat, nd: nat, j: nat)
    requires IsDir(t, s) && DOTDOT in t[s].entries && Parent(t, s) == od && od in t && nd in t && od != nd
    requires 0 < Links(t, od) <= LINKS_CAP && Links(t, nd) <= LINKS_CAP
    ensures var t' := AdjLinks(AdjLinks(AddEntry(t, s, DOTDOT, nd), od, -1), nd, 1);
            && Balance(t', j) == Balance(t, j) - (if j == nd && Links(t, nd) == LINKS_CAP then 1 else 0)
            && Links(t', j) == Links(t, j) - Hit(j, od) + (if j == nd && Links(t, nd) < LINKS_CAP then 1 else 0)
            && (j in t' <==> j in t) && (IsDir(t', j) <==> IsDir(t, j))
  {
    hide Balance;
    var t3 := AddEntry(t, s, DOTDOT, nd);
    RetargetBalance(t, s, DOTDOT, nd, j);
    LinksBalance(t3, od, Links(t, od) - 1, j);
    var t4 := AdjLinks(t3, od, -1);
    LinksBalance(t4, nd, Clamp(Links(t, nd) + 1), j);
  }

  // ---- files --------------------------------------------------------------------------------------

  lemma MovedFileShape(t: Table, od: nat, on: Name, nd: nat, nn: Name, s: nat)
    requires Movable(t, od, on, nd, nn, s) && !IsDir(t, s) && Shape(t) && LiveDir(t, od) && LiveDir(t, nd)
    ensures Shape(Moved(t, od, on, nd, nn))
  {
    hide Shape;
    var t1 := AddEntry(t, nd, nn, s);
    var t2 := Moved(t, od, on, nd, nn);
    FileAdded(t, nd, nn, s);
    LeafShape(t, t1, nd, nn);
    FileTaken(t1, od, on, s);
    LeafShape(t1, t2, od, on);
  }

  lemma FileAdded(t: Table, d: nat, n: Name, s: nat)
    requires LiveDir(t, d) && !Dots(n) && n !in t[d].entries && s in t && !IsDir(t, s)
    ensures LeafChange(t, AddEntry(t, d, n, s), d, n)
  {
    var t' := AddEntry(t, d, n, s);
    forall x, m | x != d || m != n ensures Lookup(t', x, m) == Lookup(t, x, m) {}
    assert Lookup(t, d, n).None? && Lookup(t', d, n) == Some(s);
  }

  lemma FileTaken(t: Table, d: nat, n: Name, s: nat)
    requires LiveDir(t, d) && !Dots(n) && n in t[d].entries && t[d].entries[n] == s && !IsDir(t, s)
    ensures LeafChange(t, DelEntry(t, d, n), d, n)
  {
    var t' := DelEntry(t, d, n);
    forall x, m | x != d || m != n ensures Lookup(t', x, m) == Lookup(t, x, m) {}
    assert Lookup(t, d, n) == Some(s) && Lookup(t', d, n).None?;
  }

  // ---- directories ----------------------------------------------------------------------------------

  /** `t'` is `t` with directory `s` moved from `od`/`on` to `nd`/`nn`. */
  ghost predicate DirMoved(t: Table, t': Table, od: nat, on: Name, nd: nat, nn: Name, s: nat) {
    && LiveDir(t, nd) && LiveDir(t, s) && s != ROOT && !Dots(on) && !Dots(nn) && !(od == nd && on == nn)
    && Lookup(t, od, on) == Some(s) && Lookup(t, nd, nn).None? && Parent(t, s) == od
    && (forall x :: x in t' <==> x in t)
    && (forall x :: LiveDir(t', x) <==> LiveDir(t, x))
    && (forall x :: IsDir(t', x) <==> IsDir(t, x))
    && (forall x, m :: Lookup(t', x, m) == MovedLookup(t, od, on, nd, nn, s, x, m))
  }

  function MovedLookup(t: Table, od: nat, on: Name, nd: nat, nn: Name, s: nat, x: nat, m: Name): Option<nat> {
    if x == nd && m == nn then Some(s)
    else if x == od && m == on then None
    else if x == s && m == DOTDOT then Some(nd)
    else Lookup(t, x, m)
  }

  lemma MovedParent(t: Table, t': Table, od: nat, on: Name, nd: nat, nn: Name, s: nat, x: nat)
    requires DirMoved(t, t', od, on, nd, nn, s)
    ensures Parent(t', x) == if x == s then nd else Parent(t, x)
  {
    ParentIs(t, x);
    ParentIs(t', x);
    assert Lookup(t', x, DOTDOT) == MovedLookup(t, od, on, nd, nn, s, x, DOTDOT);
  }

  /** Above a directory outside the moved one nothing changes. */
  lemma {:induction false} ClimbOutside(t: Table, t': Table, od: nat, on: Name, nd: nat, nn: Name, s: nat, x: nat, k: nat)
    requires DirMoved(t, t', od, on, nd, nn, s) && Climb(t, x, k) && !Inside(t, x, s)
    ensures Climb(t', x, k)
    decreases k
  {
    assert Above(t, s, s, 0);
    MovedParent(t, t', od, on, nd, nn, s, x);
    if k > 0 {
      NotInsideUp(t, x, s);
      hide DirMoved;
      ClimbOutside(t, t', od, on, nd, nn, s, Parent(t, x), k - 1);
    }
  }

  lemma NotInsideUp(t: Table, x: nat, s: nat)
    requires x != ROOT && !Inside(t, x, s)
    ensures !Inside(t, Parent(t, x), s)
  {
    forall k: nat ensures !Above(t, s, Parent(t, x), k) {
      assert Above(t, s, x, k + 1) <==> Above(t, s, Parent(t, x), k);
    }
  }

  /** Every directory still climbs to the root: outside the moved one as before, inside it
      through the new parent. */
  lemma {:induction false} ClimbMoved(t: Table, t': Table, od: nat, on: Name, nd: nat, nn: Name, s: nat, x: nat, k: nat)
    requires DirMoved(t, t', od, on, nd, nn, s) && Climb(t, x, k) && Rooted(t', nd)
    ensures Rooted(t', x)
    decreases k
  {
    MovedParent(t, t', od, on, nd, nn, s, x);
    if x == s {
      var m: nat :| Climb(t', nd, m);
      assert Climb(t', s, m + 1);
    } else if k == 0 {
      assert Climb(t', x, 0);
    } else {
      ClimbMoved(t, t', od, on, nd, nn, s, Parent(t, x), k - 1);
      var m: nat :| Climb(t', Parent(t, x), m);
      assert Climb(t', x, m + 1);
    }
  }

  lemma MovedDirOk(t: Table, t': Table, od: nat, on: Name, nd: nat, nn: Name, s: nat, x: nat)
    requires Shape(t) && DirMoved(t, t', od, on, nd, nn, s) && LiveDir(t', x) && !Inside(t, nd, s)
    ensures DirOk(t', x)
  {
    hide Shape, DirOk, Named, EntryOk, Climb, Above, Inside, Lookup, EntriesAt, LiveDir, IsDir, Parent;
    MovedParent(t, t', od, on, nd, nn, s, x);
    assert Lookup(t', x, DOT) == MovedLookup(t, od, on, nd, nn, s, x, DOT);
    assert Lookup(t', x, DOTDOT) == MovedLookup(t, od, on, nd, nn, s, x, DOTDOT);
    ShapeDirOk(t, x);
    ShapeDirOk(t, nd);
    DirOkIs(t, x);
    DirOkIs(t, nd);
    DirOkIs(t', x);
    var k: nat :| Climb(t, nd, k);
    var m: nat :| Climb(t, x, m);
    ClimbOutside(t, t', od, on, nd, nn, s, nd, k);
    ClimbMoved(t, t', od, on, nd, nn, s, x, m);
  }

  lemma MovedNamed(t: Table, t': Table, od: nat, on: Name, nd: nat, nn: Name, s: nat, x: nat)
    requires Shape(t) && DirMoved(t, t', od, on, nd, nn, s) && LiveDir(t', x) && x != ROOT
    ensures Named(t', x)
  {
    hide Shape, DirOk, EntryOk, Rooted, Lookup, EntriesAt, LiveDir, IsDir, Parent, NamedBy;
    MovedParent(t, t', od, on, nd, nn, s, x);
    assert LiveDir(t, x);
    ShapeDirOk(t, x);
    var p := Parent(t', x);
    forall m ensures Lookup(t', p, m) == MovedLookup(t, od, on, nd, nn, s, p, m) {}
    if x == s {
      NewNameOnly(t, t', od, on, nd, nn, s);
    } else {
      forall m ensures NamedBy(t', x, m) <==> NamedBy(t, x, m) {
        NamedIs(t, x, m);
        NamedIs(t', x, m);
      }
      var m :| NamedBy(t, x, m);
      assert NamedBy(t', x, m);
    }
  }

  lemma NewNameOnly(t: Table, t': Table, od: nat, on: Name, nd: nat, nn: Name, s: nat)
    requires Shape(t) && DirMoved(t, t', od, on, nd, nn, s)
    ensures Named(t', s)
  {
    hide Rooted, DirOk;
    MovedParent(t, t', od, on, nd, nn, s, s);
    assert Named(t, s);
    NamedIs(t, s, on);
    forall m ensures NamedBy(t', s, m) <==> m == nn {
      NamedIs(t', s, m);
      NamedIs(t, s, m);
      assert Lookup(t', nd, m) == MovedLookup(t, od, on, nd, nn, s, nd, m);
      FromParent(t, nd, m, s);
    }
    assert NamedBy(t', s, nn);
  }

  /** A directory is named in its parent only. */
  lemma FromParent(t: Table, d: nat, m: Name, s: nat)
    requires Shape(t) && IsDir(t, s)
    ensures Lookup(t, d, m) == Some(s) && !Dots(m) ==> Parent(t, s) == d && s != ROOT
  {
    hide Rooted, DirOk, Named;
    assert EntryOk(t, d, m);
  }

  lemma MovedEntryOk(t: Table, t': Table, od: nat, on: Name, nd: nat, nn: Name, s: nat, x: nat, m: Name)
    requires Shape(t) && DirMoved(t, t', od, on, nd, nn, s)
    ensures EntryOk(t', x, m)
  {
    hide DirOk, Rooted;
    assert EntryOk(t, x, m);
    assert Lookup(t', x, m) == MovedLookup(t, od, on, nd, nn, s, x, m);
    if m in EntriesAt(t', x) {
      var j := EntriesAt(t', x)[m];
      assert Lookup(t', x, m) == Some(j);
      MovedParent(t, t', od, on, nd, nn, s, j);
      assert nd in t' && s in t';
      assert IsDir(t', j) <==> IsDir(t, j);
      FromParent(t, x, m, s);
      if j == s && !Dots(m) { assert Named(t, s); NamedIs(t, s, m); NamedIs(t, s, on); }
    }
  }

  lemma MovedDead(t: Table, t': Table, od: nat, on: Name, nd: nat, nn: Name, s: nat, x: nat)
    requires Shape(t) && DirMoved(t, t', od, on, nd, nn, s)
    ensures LiveDir(t', ROOT) && (!LiveDir(t', x) ==> EntriesAt(t', x) == map[])
  {
    hide DirOk, Named, EntryOk;
    assert LiveDir(t, ROOT) && LiveDir(t, od);
    NoEntries(t', x);
    forall m ensures !LiveDir(t, x) ==> Lookup(t', x, m).None? {
      assert Lookup(t', x, m) == MovedLookup(t, od, on, nd, nn, s, x, m);
    }
  }

  lemma DirMovedShape(t: Table, t': Table, od: nat, on: Name, nd: nat, nn: Name, s: nat)
    requires Shape(t) && DirMoved(t, t', od, on, nd, nn, s) && !Inside(t, nd, s)
    ensures Shape(t')
  {
    hide DirOk, Named, EntryOk, Lookup, EntriesAt, LiveDir, IsDir, Parent, Inside, MovedLookup, DirMoved;
    forall x | LiveDir(t', x) ensures DirOk(t', x) { MovedDirOk(t, t', od, on, nd, nn, s, x); }
    forall x | LiveDir(t', x) && x != ROOT ensures Named(t', x) { MovedNamed(t, t', od, on, nd, nn, s, x); }
    forall x, m ensures EntryOk(t', x, m) { MovedEntryOk(t, t', od, on, nd, nn, s, x, m); }
    forall x | !LiveDir(t', x) ensures EntriesAt(t', x) == map[] { MovedDead(t, t', od, on, nd, nn, s, x); }
    MovedDead(t, t', od, on, nd, nn, s, ROOT);
  }

  // ---- the exact condition ------------------------------------------------------------------------

  lemma MovedLooks(t: Table, od: nat, on: Name, nd: nat, nn: Name, s: nat)
    requires Movable(t, od, on, nd, nn, s) && LiveDir(t, nd) && LiveDir(t, s) && s != ROOT && LiveDir(t, od)
    requires Parent(t, s) == od && DOTDOT in t[s].entries && (od != nd ==> Links(t, od) >= 2)
    ensures DirMoved(t, Moved(t, od, on, nd, nn), od, on, nd, nn, s)
  {
    hide MovedLookup, Lookup, EntriesAt, Moved, LiveDir;
    var t' := Moved(t, od, on, nd, nn);
    forall x ensures (x in t' <==> x in t) && (IsDir(t', x) <==> IsDir(t, x)) && (LiveDir(t', x) <==> LiveDir(t, x)) {
      MovedKind(t, od, on, nd, nn, s, x);
    }
    forall x, m ensures Lookup(t', x, m) == MovedLookup(t, od, on, nd, nn, s, x, m) {
      MovedLook(t, od, on, nd, nn, s, x, m);
    }
    assert Lookup(t, od, on) == Some(s) && Lookup(t, nd, nn).None? by {
      LookupIs(t, od, on);
      LookupIs(t, nd, nn);
    }
  }

  lemma LookupIs(t: Table, x: nat, m: Name)
    ensures Lookup(t, x, m) == if IsDir(t, x) && m in t[x].entries then Some(t[x].entries[m]) else None
  {
  }

  lemma MovedKind(t: Table, od: nat, on: Name, nd: nat, nn: Name, s: nat, x: nat)
    requires Movable(t, od, on, nd, nn, s) && LiveDir(t, nd) && LiveDir(t, s) && LiveDir(t, od)
    requires od != nd ==> Links(t, od) >= 2
    ensures var t' := Moved(t, od, on, nd, nn);
            (x in t' <==> x in t) && (IsDir(t', x) <==> IsDir(t, x)) && (LiveDir(t', x) <==> LiveDir(t, x))
  {
  }

  lemma MovedLook(t: Table, od: nat, on: Name, nd: nat, nn: Name, s: nat, x: nat, m: Name)
    requires Movable(t, od, on, nd, nn, s) && LiveDir(t, nd) && LiveDir(t, s) && s != ROOT && LiveDir(t, od)
    requires Parent(t, s) == od && DOTDOT in t[s].entries
    ensures Lookup(Moved(t, od, on, nd, nn), x, m) == MovedLookup(t, od, on, nd, nn, s, x, m)
  {
  }

  lemma {:induction false} ClimbUnique(t: Table, x: nat, k: nat, m: nat)
    requires Climb(t, x, k) && Climb(t, x, m)
    ensures k == m
    decreases k
  {
    if k > 0 && m > 0 { ClimbUnique(t, Parent(t, x), k - 1, m - 1); }
  }

  /** The fewest steps from `x` up to `s`. */
  lemma {:induction false} Shortest(t: Table, s: nat, x: nat, k: nat) returns (m: nat)
    requires Above(t, s, x, k)
    ensures Above(t, s, x, m) && forall j: nat :: j < m ==> !Above(t, s, x, j)
    decreases k
  {
    if j: nat :| j < k && Above(t, s, x, j) {
      m := Shortest(t, s, x, j);
    } else {
      m := k;
    }
  }

  /** After the move, whoever climbs to the root from a directory that was inside `s` passes `s`. */
  lemma {:induction false} ClimbThrough(t: Table, t': Table, od: nat, on: Name, nd: nat, nn: Name, s: nat, x: nat, k: nat, c: nat)
    requires DirMoved(t, t', od, on, nd, nn, s) && Climb(t', x, c)
    requires Above(t, s, x, k) && forall j: nat :: j < k ==> !Above(t, s, x, j)
    ensures k <= c && Climb(t', s, c - k)
    decreases k
  {
    hide DirMoved;
    if k > 0 {
      MovedParent(t, t', od, on, nd, nn, s, x);
      assert x != s by { assert !Above(t, s, x, 0); }
      var p := Parent(t, x);
      forall j: nat | j < k - 1 ensures !Above(t, s, p, j) {
        var j' := j + 1;
        assert !Above(t, s, x, j');
      }
      ClimbThrough(t, t', od, on, nd, nn, s, p, k - 1, c - 1);
    }
  }

  /** Moving a directory into itself would cut it off from the root. */
  lemma CycleCutsOff(t: Table, t': Table, od: nat, on: Name, nd: nat, nn: Name, s: nat)
    requires DirMoved(t, t', od, on, nd, nn, s) && Inside(t, nd, s)
    ensures !Rooted(t', s)
  {
    var k0: nat :| Above(t, s, nd, k0);
    var k := Shortest(t, s, nd, k0);
    MovedParent(t, t', od, on, nd, nn, s, s);
    forall c: nat ensures !Climb(t', s, c) {
      if Climb(t', s, c) {
        ClimbThrough(t, t', od, on, nd, nn, s, nd, k, c - 1);
        ClimbUnique(t', s, c, c - 1 - k);
      }
    }
  }

  /** What is known of a movable directory. */
  lemma SourceFacts(t: Table, od: nat, on: Name, nd: nat, nn: Name, s: nat)
    requires Shape(t) && Balanced(t) && Movable(t, od, on, nd, nn, s) && IsDir(t, s)
    ensures LiveDir(t, od) && LiveDir(t, s) && s != ROOT && Parent(t, s) == od && DOTDOT in t[s].entries
    ensures od != s ==> Links(t, od) >= 2
  {
    hide Balanced, DirOk, EntryOk, Named;
    NamedDirFacts(t, od, on, s);
    LiveFacts(t, s);
    if od != s { ParentLinks(t, od, s); }
  }

  lemma NotOwnParent(t: Table, x: nat)
    requires Shape(t) && LiveDir(t, x) && x != ROOT
    ensures Parent(t, x) != x
  {
    hide Named, EntryOk;
    assert DirOk(t, x);
    var k: nat :| Climb(t, x, k);
    if Parent(t, x) == x { ClimbUnique(t, x, k, k - 1); }
  }

  lemma SameLinksKeepFree(t: Table, t': Table, free: set<nat>, first: nat)
    requires FreeOk(t, free, first)
    requires forall j: nat :: (j in t' <==> j in t) && (Links(t', j) == 0 <==> Links(t, j) == 0)
    ensures FreeOk(t', free, first)
  {
    hide Links;
  }

  /** Moving a file, or moving within one directory. */
  lemma NearMoveCounts(t: Table, free: set<nat>, first: nat, od: nat, on: Name, nd: nat, nn: Name, s: nat)
    requires Balanced(t) && FreeOk(t, free, first) && Movable(t, od, on, nd, nn, s) && (IsDir(t, s) ==> od == nd)
    ensures Balanced(Moved(t, od, on, nd, nn)) && FreeOk(Moved(t, od, on, nd, nn), free, first)
  {
    var t' := Moved(t, od, on, nd, nn);
    forall j: nat ensures Balance(t', j) == Balance(t, j) && Links(t', j) == Links(t, j) && (j in t' <==> j in t) {
      SwapBalance(t, od, on, nd, nn, s, j);
      SwapLinks(t, od, on, nd, nn, s, j);
    }
    hide Balance, Links, Moved;
    SameLinksKeepFree(t, t', free, first);
    assert forall j :: Balance(t, j) == 0 && Links(t, j) <= LINKS_CAP;
  }

  lemma FarMoveCounts(t: Table, free: set<nat>, first: nat, od: nat, on: Name, nd: nat, nn: Name, s: nat)
    requires Balanced(t) && FreeOk(t, free, first) && Movable(t, od, on, nd, nn, s) && IsDir(t, s) && od != nd
    requires DOTDOT in t[s].entries && Parent(t, s) == od && Links(t, od) >= 2 && LiveDir(t, nd)
    ensures Balanced(Moved(t, od, on, nd, nn)) <==> Links(t, nd) < LINKS_CAP
    ensures FreeOk(Moved(t, od, on, nd, nn), free, first)
  {
    hide Moved, Balance;
    assert Links(t, od) <= LINKS_CAP && Links(t, nd) <= LINKS_CAP;
    var t' := Moved(t, od, on, nd, nn);
    forall j: nat
      ensures Balance(t', j) == -(if j == nd && Links(t, nd) == LINKS_CAP then 1 else 0)
      ensures Links(t', j) == Links(t, j) - Hit(j, od) + (if j == nd && Links(t, nd) < LINKS_CAP then 1 else 0)
      ensures j in t' <==> j in t
    {
      assert Balance(t, j) == 0;
      CrossBalance(t, od, on, nd, nn, s, j);
    }
    SameLinksKeepFree(t, t', free, first);
    if Links(t, nd) < LINKS_CAP {
      BalancedIs(t');
    } else {
      assert Balance(t', nd) == -1;
    }
  }

  /** A move into a dead directory leaves an entry there, or a directory without dots. */
  lemma DeadTarget(t: Table, od: nat, on: Name, nd: nat, nn: Name, s: nat)
    requires Movable(t, od, on, nd, nn, s) && !LiveDir(t, nd) && EntriesAt(t, nd) == map[] && od != nd && s != nd
    ensures !Shape(Moved(t, od, on, nd, nn))
  {
    var t' := Moved(t, od, on, nd, nn);
    assert EntriesAt(t', nd) == map[nn := s];
    assert nn in EntriesAt(t', nd) && DOT !in EntriesAt(t', nd);
    assert !DirOk(t', nd);
    hide DirOk;
    if !LiveDir(t', nd) { DeadEntry(t', nd, nn); }
  }

  /** A move keeps the tree exactly if the target directory is in use, is not inside the moved
      directory, and has room in its link count for one more subdirectory. */
  lemma MoveExact(t: Table, free: set<nat>, first: nat, od: nat, on: Name, nd: nat, nn: Name, s: nat)
    requires Inv(t, free, first) && Movable(t, od, on, nd, nn, s)
    ensures Inv(Moved(t, od, on, nd, nn), free, first) <==>
      LiveDir(t, nd) && (IsDir(t, s) ==> !Inside(t, nd, s) && (od != nd ==> Links(t, nd) < LINKS_CAP))
  {
    hide Shape, Balanced, FreeOk, DirMoved, Inside, Moved;
    EntryFacts(t, od, on);
    var t' := Moved(t, od, on, nd, nn);
    if !LiveDir(t, nd) {
      DeadHasNothing(t, nd);
      SourceNotDead(t, od, on, nd, s);
      DeadTarget(t, od, on, nd, nn, s);
    } else if !IsDir(t, s) {
      NearMoveCounts(t, free, first, od, on, nd, nn, s);
      MovedFileShape(t, od, on, nd, nn, s);
    } else {
      SourceFacts(t, od, on, nd, nn, s);
      NotOwnParent(t, s);
      MovedLooks(t, od, on, nd, nn, s);
      if Inside(t, nd, s) {
        CycleCutsOff(t, t', od, on, nd, nn, s);
        CutOff(t, t', od, on, nd, nn, s);
      } else {
        DirMovedShape(t, t', od, on, nd, nn, s);
        if od == nd {
          NearMoveCounts(t, free, first, od, on, nd, nn, s);
        } else {
          FarMoveCounts(t, free, first, od, on, nd, nn, s);
        }
      }
    }
  }

  lemma CutOff(t: Table, t': Table, od: nat, on: Name, nd: nat, nn: Name, s: nat)
    requires DirMoved(t, t', od, on, nd, nn, s) && !Rooted(t', s)
    ensures !Shape(t')
  {
    hide Rooted, Named, EntryOk;
    assert LiveDir(t', s);
    assert !DirOk(t', s);
  }

  lemma DeadHasNothing(t: Table, d: nat)
    requires Shape(t) && !LiveDir(t, d)
    ensures EntriesAt(t, d) == map[]
  {
  }

  /** The source of a move is in use, so it differs from a dead directory. */
  lemma SourceNotDead(t: Table, od: nat, on: Name, nd: nat, s: nat)
    requires LiveDir(t, od) && Links(t, s) > 0 && IsDir(t, nd) && !LiveDir(t, nd)
    ensures od != nd && s != nd
  {
  }
}
