/** What a call through a record that has been given up does to the tree, and why the parent walk
    of `rename` ends from every directory that counts. */
module NameStale {
  import opened Common
  import opened FsErrors
  import opened DirBlock
  import D = Directory
  import opened NameTree
  import opened NameMoves
  import opened NameDirs
  import opened NameRename
  import opened NameSpec
  import opened InodeDirs
  import opened DirStore

  /** The node of a directory `mkdir` has just written. */
  function FreshNode(i: nat, parent: nat): Node {
    Dir(map[DOT := i, DOTDOT := parent], 2)
  }

  lemma FreeNotRoot(t: Table, free: set<nat>, first: nat, i: nat)
    requires Inv(t, free, first) && i in free
    ensures i != ROOT
  {
    hide Shape, Balanced;
  }

  // ---- calls through a leftover directory ---------------------------------------------------------

  lemma Unbalanced(t: Table, free: set<nat>, first: nat, i: nat)
    requires Balance(t, i) != 0
    ensures !Inv(t, free, first)
  {
    hide Balance;
  }

  lemma InvBalance(t: Table, free: set<nat>, first: nat, i: nat)
    requires Inv(t, free, first)
    ensures Balance(t, i) == 0
  {
    hide Balance;
  }

  /** A new file whose name went into a leftover directory is lost. */
  lemma LostFile(t: Table, free: set<nat>, first: nat, i: nat)
    requires Inv(t, free, first) && i in free
    ensures !Inv(t[i := Leaf(1)], free - {i}, first)
  {
    hide Balance, NamesTo;
    FreeFacts(t, free, first, i);
    InvBalance(t, free, first, i);
    BalanceSet(t, i, Leaf(1), i);
    LeafNames(Leaf(1), i);
    LeafNames(t[i], i);
    Unbalanced(t[i := Leaf(1)], free - {i}, first, i);
  }

  /** A directory whose parent is not in use. */
  lemma DeadParent(t: Table, free: set<nat>, first: nat, i: nat)
    requires LiveDir(t, i) && !LiveDir(t, Parent(t, i))
    ensures !Inv(t, free, first)
  {
    hide Balanced, FreeOk, Named, EntryOk, Rooted;
    DirOkIs(t, i);
  }

  /** An entry in a directory that is not in use. */
  lemma DeadHolds(t: Table, free: set<nat>, first: nat, d: nat, n: Name)
    requires n in EntriesAt(t, d) && !LiveDir(t, d)
    ensures !Inv(t, free, first)
  {
    hide Balanced, FreeOk;
  }

  /** A directory that goes while its name stays. */
  lemma NameStays(t: Table, free: set<nat>, free': set<nat>, first: nat, i: nat)
    requires Inv(t, free, first) && LiveDir(t, i) && i != ROOT
    ensures !Inv(Destroy(t, i), free', first)
  {
    hide Inv, Shape, Balanced, DirOk, EntryOk, NamedBy;
    InvParts(t, free, first);
    ShapeDirOk(t, i);
    LiveFacts(t, i);
    NotOwnParent(t, i);
    var n :| NamedBy(t, i, n);
    NamedIs(t, i, n);
    DanglingName(Destroy(t, i), free', first, Parent(t, i), n, i);
  }

  lemma DanglingName(t: Table, free: set<nat>, first: nat, d: nat, n: Name, i: nat)
    requires Lookup(t, d, n) == Some(i) && Links(t, i) == 0
    ensures !Inv(t, free, first)
  {
    hide Balance, Shape;
    if Balanced(t) { Referenced(t, d, n, i); }
  }

  /** A directory that goes with its name, while its parent's count stays. */
  lemma CountStays(t: Table, free: set<nat>, free': set<nat>, first: nat, d: nat, n: Name, i: nat)
    requires Inv(t, free, first) && NamedDir(t, d, n, i) && EmptyDir(t, i) && i in t
    ensures !Inv(Destroy(DelEntry(t, d, n), i), free', first)
  {
    hide Inv, Shape, Balanced, Balance;
    InvParts(t, free, first);
    NamedDirFacts(t, d, n, i);
    EmptyNotOwnParent(t, d, n, i);
    RemovedDirInv(t, free, first, d, n, i);
    var t1 := Destroy(DelEntry(t, d, n), i);
    InvBalance(RemovedDir(t, d, n), free + {i}, first, d);
    ParentLinks(t, d, i);
    CapOf(t);
    LinksBalance(t1, d, Clamp(t1[d].links - 1), d);
    Unbalanced(t1, free', first, d);
  }

  /** A directory made inside itself, when the leftover number is taken for it, is cut off. */
  lemma OwnParent(t: Table, free: set<nat>, first: nat, i: nat, v: Node)
    requires v.Dir? && v.links > 0 && DOTDOT in v.entries && v.entries[DOTDOT] == i && i != ROOT
    ensures !Inv(t[i := v], free, first)
  {
    var t' := t[i := v];
    assert LiveDir(t', i) && Parent(t', i) == i;
    if Shape(t') { NotOwnParent(t', i); }
  }

  /** A file whose count moves without its names. */
  lemma WrongCount(t: Table, free: set<nat>, free': set<nat>, first: nat, i: nat, k: nat)
    requires Inv(t, free, first) && i in t && !IsDir(t, i) && k != Links(t, i)
    ensures !Inv(t[i := Leaf(k)], free', first)
  {
    hide Balance, NamesTo;
    InvBalance(t, free, first, i);
    BalanceSet(t, i, Leaf(k), i);
    LeafNames(Leaf(k), i);
    LeafNames(t[i], i);
    Unbalanced(t[i := Leaf(k)], free', first, i);
  }

  /** A name for an inode whose count does not know of it. */
  lemma UncountedName(t: Table, free: set<nat>, first: nat, d: nat, n: Name, i: nat)
    requires Inv(t, free, first) && IsDir(t, d) && n !in t[d].entries
    ensures !Inv(AddEntry(t, d, n, i), free, first)
  {
    hide Balance;
    InvBalance(t, free, first, i);
    AddBalance(t, d, n, i, i);
    Unbalanced(AddEntry(t, d, n, i), free, first, i);
  }

  /** What is left of a rename whose new name went into a leftover directory. */
  function MovedAway(t: Table, od: nat, on: Name, nd: nat): Table
    requires IsDir(t, od) && on in t[od].entries && t[od].entries[on] in t
  {
    var s := t[od].entries[on];
    var t1 := DelEntry(t, od, on);
    if IsDir(t, s) then AdjLinks(AddEntry(t1, s, DOTDOT, nd), od, -1) else t1
  }

  lemma MovedAwayBreaks(t: Table, free: set<nat>, first: nat, od: nat, on: Name, nd: nat, s: nat)
    requires Inv(t, free, first) && IsDir(t, od) && on in t[od].entries && t[od].entries[on] == s && s in t && !Dots(on) && nd != s
    ensures !Inv(MovedAway(t, od, on, nd), free, first)
  {
    hide Balance, Inv, Shape, Balanced;
    InvParts(t, free, first);
    InvBalance(t, free, first, s);
    DelBalance(t, od, on, s);
    if IsDir(t, s) {
      NamedDirFacts(t, od, on, s);
      NotOwnParent(t, s);
      LiveFacts(t, s);
      MovedAwayDir(t, od, on, nd, s);
    }
    Unbalanced(MovedAway(t, od, on, nd), free, first, s);
  }

  lemma MovedAwayDir(t: Table, od: nat, on: Name, nd: nat, s: nat)
    requires IsDir(t, od) && on in t[od].entries && t[od].entries[on] == s && IsDir(t, s) && !Dots(on) && nd != s && od != s
    requires DOTDOT in t[s].entries && t[s].entries[DOTDOT] == od
    ensures Balance(MovedAway(t, od, on, nd), s) == Balance(DelEntry(t, od, on), s)
  {
    hide Balance;
    var t1 := DelEntry(t, od, on);
    RetargetBalance(t1, s, DOTDOT, nd, s);
    var t2 := AddEntry(t1, s, DOTDOT, nd);
    LinksBalance(t2, od, Clamp(t2[od].links - 1), s);
  }

  // ---- the parent walk from a directory that counts ----------------------------------------------

  /** What ".." of a directory says, read from its blocks. */
  lemma UpIs(bs: nat, records: Records, store: Store, stale: set<nat>, x: nat)
    requires Sane(bs, records, store, stale) && x in records && x !in stale && records[x].DirRecord?
    ensures var t := See(records, store, stale);
            Up(records, store, x) == if DOTDOT in EntriesAt(t, x) then Ok(Parent(t, x)) else Err(NotFound)
  {
    hide RecordOk, DotsInFront, D.Finding, Slots, See;
    SeeAt(records, store, stale, x);
    FindsView(bs, Load(store, records[x]), DOTDOT);
  }

  lemma {:induction false} ClimbStops(bs: nat, records: Records, store: Store, stale: set<nat>, x: nat, s: nat, k: nat)
    requires Sane(bs, records, store, stale) && Shape(See(records, store, stale))
    requires Climb(See(records, store, stale), x, k) && LiveDir(See(records, store, stale), x)
    ensures Stops(records, store, x, s, k)
    ensures Outcome(records, store, x, s, k) == if Inside(See(records, store, stale), x, s) then Some(Invalid) else None
    decreases k
  {
    hide Inside, Shape, Sane, See, Up;
    var t := See(records, store, stale);
    SeeAt(records, store, stale, x);
    InsideUp(t, x, s);
    LiveFacts(t, x);
    if x != s && x != ROOT {
      NotOwnParent(t, x);
      UpIs(bs, records, store, stale, x);
      ClimbStops(bs, records, store, stale, Parent(t, x), s, k - 1);
    }
  }

  /** From a directory that counts the walk ends, and says what the tree says. */
  lemma WalkInTree(bs: nat, records: Records, store: Store, stale: set<nat>, free: set<nat>, first: nat, nd: nat, s: nat)
    requires Sane(bs, records, store, stale) && Inv(See(records, store, stale), free, first)
    requires nd in records && nd !in stale && records[nd].DirRecord?
    ensures WalkEnds(records, store, nd, s)
    ensures LiveDir(See(records, store, stale), s) ==> ParentWalk(records, store, nd, s) == TreeWalk(See(records, store, stale), nd, s)
  {
    hide Inside, See, Inv, Shape, DirOk, Sane, Up, EntriesAt, Parent;
    var t := See(records, store, stale);
    SeeAt(records, store, stale, nd);
    InvParts(t, free, first);
    RootLive(t);
    if LiveDir(t, nd) {
      ShapeDirOk(t, nd);
      DirOkIs(t, nd);
      var k: nat :| Climb(t, nd, k);
      ClimbStops(bs, records, store, stale, nd, s, k);
      WalkIs(records, store, nd, s, k);
    } else {
      DeadHasNothing(t, nd);
      UpIs(bs, records, store, stale, nd);
      assert Stops(records, store, nd, s, 0);
      WalkIs(records, store, nd, s, 0);
    }
  }
}
