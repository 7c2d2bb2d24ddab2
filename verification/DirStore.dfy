/** Inode records and the blocks they point at. Nothing keeps a record that has been given up from
    pointing at a block that now belongs to another: the records in `stale` own nothing, and what
    they point at may hold anything. */
module DirStore {
  import opened Common
  import opened Bits
  import opened FsErrors
  import opened DirRecords
  import opened DirBlock
  import D = Directory
  import opened NameTree
  import opened NameMoves
  import opened InodeDirs

  datatype Record = DirRecord(ptrs: seq<nat>, links: nat) | OtherRecord(links: nat)

  type Records = map<nat, Record>
  type Store = map<nat, seq<byte>>

  /** What a pointer leads to; one that leads nowhere is a hole. */
  function SlotAt(store: Store, p: nat): D.Slot {
    if p in store then Some(store[p]) else None
  }

  function Slots(store: Store, ptrs: seq<nat>): (s: seq<D.Slot>)
    ensures |s| == |ptrs| && forall k :: 0 <= k < |ptrs| ==> s[k] == SlotAt(store, ptrs[k])
  {
    seq(|ptrs|, k requires 0 <= k < |ptrs| => SlotAt(store, ptrs[k]))
  }

  /** An inode with its blocks read in. */
  function Load(store: Store, r: Record): Inode {
    if r.DirRecord? then DirInode(Slots(store, r.ptrs), r.links) else OtherInode(r.links)
  }

  function Hollow(r: Record): Node {
    if r.DirRecord? then Dir(map[], 0) else Leaf(0)
  }

  /** The name graph: records that have been given up are taken as empty. */
  ghost function See(records: Records, store: Store, stale: set<nat>): Table {
    map i | i in records :: if i in stale then Hollow(records[i]) else ViewOf(Load(store, records[i]))
  }

  ghost predicate Good(bs: nat, v: Inode) {
    RecordOk(bs, v) && DotsInFront(v)
  }

  /** Every record that counts is sound. */
  ghost predicate Sane(bs: nat, records: Records, store: Store, stale: set<nat>) {
    forall i <- records :: i !in stale ==> Good(bs, Load(store, records[i]))
  }

  /** Pointer `k` of directory `i`, which counts, leads to block `p`. */
  ghost predicate Owns(records: Records, stale: set<nat>, i: nat, k: nat, p: nat) {
    i in records && i !in stale && records[i].DirRecord? && k < |records[i].ptrs| && records[i].ptrs[k] == p
  }

  ghost predicate Owned(records: Records, stale: set<nat>, p: nat) {
    exists i: nat, k: nat :: Owns(records, stale, i, k, p)
  }

  /** A block of a directory is in use, and in one place. */
  ghost predicate Apart(records: Records, store: Store, freeBlocks: set<nat>, stale: set<nat>) {
    && (forall i: nat, k: nat, p: nat :: Owns(records, stale, i, k, p) && p in store ==> p !in freeBlocks)
    && (forall i: nat, k: nat, j: nat, m: nat, p: nat ::
          Owns(records, stale, i, k, p) && Owns(records, stale, j, m, p) && p in store ==> i == j && k == m)
  }

  lemma SeeAt(records: Records, store: Store, stale: set<nat>, i: nat)
    ensures var t := See(records, store, stale);
            && (i in t <==> i in records)
            && (i in records ==> t[i] == if i in stale then Hollow(records[i]) else ViewOf(Load(store, records[i])))
            && (i in records ==> (IsDir(t, i) <==> records[i].DirRecord?))
            && (i in records && i !in stale ==> t[i].links == records[i].links)
  {
  }

  // ---- writing a block -------------------------------------------------------------------------

  /** A block no directory owns. */
  lemma ForeignWrite(bs: nat, records: Records, store: Store, stale: set<nat>, p: nat, b: seq<byte>)
    requires p in store && !Owned(records, stale, p)
    ensures See(records, store[p := b], stale) == See(records, store, stale)
    ensures Sane(bs, records, store[p := b], stale) <==> Sane(bs, records, store, stale)
  {
    hide Good, ViewOf;
    forall i | i in records && i !in stale ensures Load(store[p := b], records[i]) == Load(store, records[i]) {
      LoadSame(records, store, store[p := b], stale, i);
    }
    var t, t' := See(records, store, stale), See(records, store[p := b], stale);
    assert t.Keys == t'.Keys;
    assert forall i <- t :: t[i] == t'[i];
  }

  lemma LoadSame(records: Records, store: Store, store': Store, stale: set<nat>, i: nat)
    requires i in records && i !in stale
    requires forall k: nat, p: nat :: Owns(records, stale, i, k, p) ==> SlotAt(store', p) == SlotAt(store, p)
    ensures Load(store', records[i]) == Load(store, records[i])
  {
    if records[i].DirRecord? {
      forall k: nat | k < |records[i].ptrs| ensures SlotAt(store', records[i].ptrs[k]) == SlotAt(store, records[i].ptrs[k]) {
        assert Owns(records, stale, i, k, records[i].ptrs[k]);
      }
      assert Slots(store', records[i].ptrs) == Slots(store, records[i].ptrs);
    }
  }

  /** A block of directory `i`: that directory changes, and no other that counts. */
  lemma OwnedWrite(bs: nat, records: Records, store: Store, freeBlocks: set<nat>, stale: set<nat>, i: nat, k: nat, p: nat, b: seq<byte>)
    requires Sane(bs, records, store, stale) && Apart(records, store, freeBlocks, stale) && Owns(records, stale, i, k, p) && p in store
    ensures var v := Load(store, records[i]);
            && k < |v.blocks| && v.blocks[k] == Some(store[p])
            && See(records, store[p := b], stale) == See(records, store, stale)[i := ViewOf(Applied(v, Edit(k, b)))]
            && (Sane(bs, records, store[p := b], stale) <==> Good(bs, Applied(v, Edit(k, b))))
  {
    hide Good, ViewOf;
    var store', v := store[p := b], Load(store, records[i]);
    forall j | j in records && j !in stale && j != i ensures Load(store', records[j]) == Load(store, records[j]) {
      LoadSame(records, store, store', stale, j);
    }
    forall m: nat | m < |v.blocks| && m != k ensures records[i].ptrs[m] == p ==> p !in store {
      assert Owns(records, stale, i, m, records[i].ptrs[m]);
    }
    assert Slots(store', records[i].ptrs) == Slots(store, records[i].ptrs)[k := Some(b)];
    assert Load(store', records[i]) == Applied(v, Edit(k, b));
    var t, t' := See(records, store, stale)[i := ViewOf(Applied(v, Edit(k, b)))], See(records, store', stale);
    assert t.Keys == t'.Keys;
    assert forall j <- t :: t[j] == t'[j];
  }

  lemma ApartWrite(records: Records, store: Store, freeBlocks: set<nat>, stale: set<nat>, p: nat, b: seq<byte>)
    requires Apart(records, store, freeBlocks, stale) && p in store
    ensures Apart(records, store[p := b], freeBlocks, stale)
  {
    forall q ensures q in store[p := b] <==> q in store {}
  }

  lemma FreeNotOwned(records: Records, store: Store, freeBlocks: set<nat>, stale: set<nat>, p: nat)
    requires Apart(records, store, freeBlocks, stale) && p in store && p in freeBlocks
    ensures !Owned(records, stale, p)
  {
  }

  // ---- replacing a record ------------------------------------------------------------------------

  /** Record `i` is written and counts. */
  lemma RecordSet(bs: nat, records: Records, store: Store, stale: set<nat>, i: nat, r: Record)
    ensures See(records[i := r], store, stale - {i}) == See(records, store, stale)[i := ViewOf(Load(store, r))]
    ensures Sane(bs, records, store, stale) && Good(bs, Load(store, r)) ==> Sane(bs, records[i := r], store, stale - {i})
    ensures i in records && Sane(bs, records[i := r], store, stale - {i}) && Good(bs, Load(store, records[i])) ==> Sane(bs, records, store, stale)
  {
    hide Good, ViewOf, Load;
    var t, t' := See(records, store, stale)[i := ViewOf(Load(store, r))], See(records[i := r], store, stale - {i});
    assert t.Keys == t'.Keys;
    assert forall j <- t :: t[j] == t'[j];
    var records' := records[i := r];
    if i in records && Sane(bs, records', store, stale - {i}) && Good(bs, Load(store, records[i])) {
      forall j | j in records && j !in stale ensures Good(bs, Load(store, records[j])) {
        if j != i { assert j in records' && records'[j] == records[j]; }
      }
    }
  }

  /** Record `i` is given up as it stands. */
  lemma GivenUp(bs: nat, records: Records, store: Store, stale: set<nat>, i: nat)
    requires i in records
    ensures See(records, store, stale + {i}) == See(records, store, stale)[i := Hollow(records[i])]
    ensures Sane(bs, records, store, stale) ==> Sane(bs, records, store, stale + {i})
  {
    hide Good, ViewOf, Load;
    var t, t' := See(records, store, stale)[i := Hollow(records[i])], See(records, store, stale + {i});
    assert t.Keys == t'.Keys;
    assert forall j <- t :: t[j] == t'[j];
  }

  /** Writing a record that has been given up changes nothing that counts. */
  lemma StaleWritten(bs: nat, records: Records, store: Store, freeBlocks: set<nat>, stale: set<nat>, i: nat, r: Record)
    requires i in records && i in stale && (r.DirRecord? <==> records[i].DirRecord?)
    ensures See(records[i := r], store, stale) == See(records, store, stale)
    ensures Sane(bs, records, store, stale) <==> Sane(bs, records[i := r], store, stale)
    ensures Apart(records, store, freeBlocks, stale) <==> Apart(records[i := r], store, freeBlocks, stale)
  {
    hide Good, ViewOf, Load;
    var t, t' := See(records, store, stale), See(records[i := r], store, stale);
    assert t.Keys == t'.Keys;
    assert forall j <- t :: t[j] == t'[j];
    OwnsSame(records, records[i := r], stale, stale);
    ApartSame(records, records[i := r], store, freeBlocks, freeBlocks, stale, stale);
    ApartSame(records[i := r], records, store, freeBlocks, freeBlocks, stale, stale);
  }

  lemma OwnsSame(records: Records, records': Records, stale: set<nat>, stale': set<nat>)
    requires forall j :: j in records && j !in stale <==> j in records' && j !in stale'
    requires forall j <- records :: j !in stale ==>
               (records'[j].DirRecord? <==> records[j].DirRecord?) && (records[j].DirRecord? ==> records'[j].ptrs == records[j].ptrs)
    ensures forall i: nat, k: nat, p: nat :: Owns(records', stale', i, k, p) <==> Owns(records, stale, i, k, p)
  {
    forall i: nat, k: nat, p: nat ensures Owns(records', stale', i, k, p) <==> Owns(records, stale, i, k, p) {
      assert i in records && i !in stale <==> i in records' && i !in stale';
    }
  }

  lemma ApartSame(records: Records, records': Records, store: Store, freeBlocks: set<nat>, freeBlocks': set<nat>, stale: set<nat>, stale': set<nat>)
    requires forall i: nat, k: nat, p: nat :: Owns(records', stale', i, k, p) <==> Owns(records, stale, i, k, p)
    requires freeBlocks' <= freeBlocks
    ensures Apart(records, store, freeBlocks, stale) ==> Apart(records', store, freeBlocks', stale')
  {
    hide Owns;
  }

  /** Only link counts differ. */
  lemma ApartLinks(records: Records, store: Store, freeBlocks: set<nat>, stale: set<nat>, i: nat, r: Record)
    requires i in records && (r.DirRecord? <==> records[i].DirRecord?) && (r.DirRecord? ==> r.ptrs == records[i].ptrs)
    ensures Apart(records, store, freeBlocks, stale) <==> Apart(records[i := r], store, freeBlocks, stale)
  {
    OwnsSame(records, records[i := r], stale, stale);
    ApartSame(records, records[i := r], store, freeBlocks, freeBlocks, stale, stale);
    ApartSame(records[i := r], records, store, freeBlocks, freeBlocks, stale, stale);
  }

  /** A record without blocks. */
  lemma ApartEmpty(records: Records, store: Store, freeBlocks: set<nat>, stale: set<nat>, i: nat, r: Record)
    requires Apart(records, store, freeBlocks, stale) && (r.DirRecord? ==> r.ptrs == [])
    ensures Apart(records[i := r], store, freeBlocks, stale - {i})
  {
    var records', stale' := records[i := r], stale - {i};
    forall j: nat, k: nat, p: nat | Owns(records', stale', j, k, p) ensures Owns(records, stale, j, k, p) {}
    hide Owns;
  }

  /** A directory takes free block `q` as its last. */
  lemma ApartTake(records: Records, store: Store, freeBlocks: set<nat>, stale: set<nat>, i: nat, r: Record, q: nat)
    requires Apart(records, store, freeBlocks, stale) && q in store && q in freeBlocks && r.DirRecord? && r.ptrs != [] && r.ptrs[|r.ptrs| - 1] == q
    requires |r.ptrs| == 1 || (i in records && i !in stale && records[i].DirRecord? && r.ptrs == records[i].ptrs + [q])
    ensures Apart(records[i := r], store, freeBlocks - {q}, stale - {i})
  {
    var records', stale' := records[i := r], stale - {i};
    forall j: nat, k: nat, p: nat | Owns(records', stale', j, k, p)
      ensures (j == i && k == |r.ptrs| - 1 && p == q) || Owns(records, stale, j, k, p)
    {
    }
    FreeNotOwned(records, store, freeBlocks, stale, q);
    assert forall j: nat, k: nat :: !Owns(records, stale, j, k, q);
    hide Owns;
  }

  function Blocks(r: Record): set<nat> {
    if r.DirRecord? then set k | 0 <= k < |r.ptrs| :: r.ptrs[k] else {}
  }

  lemma OneOwner(records: Records, store: Store, freeBlocks: set<nat>, stale: set<nat>, i: nat, j: nat, k: nat, p: nat)
    requires Apart(records, store, freeBlocks, stale) && i in records && i !in stale && Owns(records, stale, j, k, p) && p in store && j != i
    ensures p !in Blocks(records[i])
  {
    if records[i].DirRecord? {
      forall m: nat | m < |records[i].ptrs| ensures records[i].ptrs[m] != p { assert Owns(records, stale, i, m, records[i].ptrs[m]); }
    }
  }

  function BlocksAt(records: Records, i: nat): set<nat> {
    if i in records then Blocks(records[i]) else {}
  }

  /** The blocks that an addition to `dir` can write. */
  function Reach(records: Records, dir: nat, grow: Result<nat>): set<nat> {
    if grow.Ok? then BlocksAt(records, dir) + {grow.value} else BlocksAt(records, dir)
  }

  /** `adj_links` on a record. */
  function Bumped(r: Record, delta: int): Record {
    var k := Clamp(r.links + delta);
    if r.DirRecord? then DirRecord(r.ptrs, k) else OtherRecord(k)
  }

  function BumpedAt(records: Records, i: nat, delta: int): Records {
    if i in records then records[i := Bumped(records[i], delta)] else records
  }

  lemma Bump(records: Records, i: nat, delta: int, j: nat)
    ensures j in BumpedAt(records, i, delta) <==> j in records
    ensures j in records ==>
      && (BumpedAt(records, i, delta)[j].DirRecord? <==> records[j].DirRecord?)
      && (records[j].DirRecord? ==> BumpedAt(records, i, delta)[j].ptrs == records[j].ptrs)
      && (j != i ==> BumpedAt(records, i, delta)[j] == records[j])
  {
  }

  /** Record `i` is that of a directory `mkdir` has just written. */
  ghost predicate FreshAt(bs: nat, records: Records, store: Store, i: nat, parent: nat) {
    i in records && FreshRecord(bs, Load(store, records[i]), i, parent)
  }

  /** A record is given up or emptied, and its blocks become free. */
  lemma ApartGive(records: Records, records': Records, store: Store, freeBlocks: set<nat>, stale: set<nat>, stale': set<nat>, i: nat)
    requires Apart(records, store, freeBlocks, stale) && i in records && i !in stale
    requires forall j: nat, k: nat, p: nat :: Owns(records', stale', j, k, p) ==> j != i && Owns(records, stale, j, k, p)
    ensures Apart(records', store, freeBlocks + Blocks(records[i]), stale')
  {
    forall j: nat, k: nat, p: nat | Owns(records', stale', j, k, p) && p in store ensures p !in freeBlocks + Blocks(records[i]) {
      OneOwner(records, store, freeBlocks, stale, i, j, k, p);
    }
    hide Owns;
  }

  // ---- who is behind a block -----------------------------------------------------------------------

  /** The directory that counts, and its pointer, behind pointer `slot` of `dir`. A directory that
      counts is behind its own; a record given up may point at a block of another. */
  ghost function Behind(records: Records, stale: set<nat>, dir: nat, slot: nat): Option<(nat, nat)>
    requires dir in records && records[dir].DirRecord?
  {
    if dir !in stale then Some((dir, slot))
    else if slot < |records[dir].ptrs| && Owned(records, stale, records[dir].ptrs[slot]) then
      var i: nat, k: nat :| Owns(records, stale, i, k, records[dir].ptrs[slot]);
      Some((i, k))
    else None
  }

  lemma BehindIs(records: Records, store: Store, freeBlocks: set<nat>, stale: set<nat>, dir: nat, slot: nat, i: nat, k: nat)
    requires Apart(records, store, freeBlocks, stale) && dir in records && records[dir].DirRecord?
    requires dir in stale && slot < |records[dir].ptrs| && records[dir].ptrs[slot] in store
    ensures Owns(records, stale, i, k, records[dir].ptrs[slot]) <==> Behind(records, stale, dir, slot) == Some((i, k))
  {
    if Owns(records, stale, i, k, records[dir].ptrs[slot]) { assert Owned(records, stale, records[dir].ptrs[slot]); }
  }

  /** The directory into which a name put into `dir` goes. */
  ghost function Receiver(records: Records, store: Store, stale: set<nat>, dir: nat, name: Name): Option<nat> {
    if dir !in records || records[dir].OtherRecord? then None
    else
      var g := D.Landing(Slots(store, records[dir].ptrs), name);
      if g.Ok? && Behind(records, stale, dir, g.value).Some? then Some(Behind(records, stale, dir, g.value).value.0) else None
  }

  /** The directory from which a name found in `dir` goes. */
  ghost function Holder(records: Records, store: Store, stale: set<nat>, dir: nat, name: Name): Option<nat> {
    if dir !in records || records[dir].OtherRecord? then None
    else
      var f := D.Finding(Slots(store, records[dir].ptrs), name);
      if f.Ok? && f.value.Some? && Behind(records, stale, dir, f.value.value.0).Some? then Some(Behind(records, stale, dir, f.value.value.0).value.0)
      else None
  }

  /** A name put into `dir` goes into a directory in use that does not have it. */
  ghost predicate Welcome(records: Records, store: Store, stale: set<nat>, dir: nat, name: Name) {
    var w, t := Receiver(records, store, stale, dir, name), See(records, store, stale);
    w.Some? && LiveDir(t, w.value) && name !in EntriesAt(t, w.value)
  }

  /** The answer of `dir_add`; `grow` is the block the file layer would append, or its error. */
  function AddAnswer(records: Records, store: Store, dir: nat, name: Name, grow: Result<nat>): Result<()> {
    var failed := if grow.Err? then Err(grow.error) else Ok(());
    if dir !in records then Err(Invalid)
    else if records[dir].OtherRecord? then failed
    else
      var g := D.Landing(Slots(store, records[dir].ptrs), name);
      if g.Err? then Err(g.error) else if g.value == |records[dir].ptrs| then failed else Ok(())
  }

  /** The name goes into a block the directory has, or nowhere. */
  predicate Stays(records: Records, store: Store, dir: nat, name: Name, grow: Result<nat>) {
    grow.Err? ||
    (dir in records && records[dir].DirRecord? &&
     var g := D.Landing(Slots(store, records[dir].ptrs), name);
     g.Ok? && g.value < |records[dir].ptrs|)
  }

  /** What the search for a name in `dir` finds. */
  function Found(records: Records, store: Store, dir: nat, name: Name): Result<Option<nat>> {
    if dir !in records then Err(Invalid)
    else if records[dir].OtherRecord? then Err(NotDirectory)
    else
      var f := D.Finding(Slots(store, records[dir].ptrs), name);
      if f.Err? then Err(f.error) else Ok(if f.value.Some? then Some(f.value.value.1) else None)
  }

  /** The refusals of a creation, in order, for any number. */
  function CreateRefusal(records: Records, store: Store, dir: nat, name: Name, isDir: bool): Option<FsError> {
    if D.ValidateName(name).Some? then D.ValidateName(name)
    else if dir !in records then Some(Invalid)
    else if records[dir].OtherRecord? then Some(NotDirectory)
    else if records[dir].links == 0 then Some(NotFound)
    else if isDir && records[dir].links >= MAX_LINKS then Some(TooManyLinks)
    else
      var f := Found(records, store, dir, name);
      if f.Err? then Some(f.error) else if f.value.Some? then Some(Exists) else None
  }

  function LinkRefusal(records: Records, store: Store, dir: nat, name: Name, target: nat): Option<FsError> {
    if D.ValidateName(name).Some? then D.ValidateName(name)
    else if target !in records then Some(Invalid)
    else if records[target].DirRecord? then Some(IsDirectory)
    else if records[target].links >= MAX_LINKS then Some(TooManyLinks)
    else
      var f := Found(records, store, dir, name);
      if f.Err? then Some(f.error) else if f.value.Some? then Some(Exists) else None
  }

  function UnlinkRefusal(records: Records, store: Store, dir: nat, name: Name): Option<FsError> {
    if D.ValidateName(name).Some? then D.ValidateName(name)
    else
      var f := Found(records, store, dir, name);
      if f.Err? then Some(f.error)
      else if f.value.None? then Some(NotFound)
      else if f.value.value !in records then Some(Invalid)
      else if records[f.value.value].DirRecord? then Some(IsDirectory)
      else None
  }

  /** The inode a search finds. */
  function FoundIno(records: Records, store: Store, dir: nat, name: Name): nat {
    var f := Found(records, store, dir, name);
    if f.Ok? && f.value.Some? then f.value.value else 0
  }

  /** Whether the name fits into the directory without another block. */
  ghost predicate Fits(records: Records, store: Store, dir: nat, name: Name) {
    dir in records && records[dir].DirRecord? && D.RoomIn(Slots(store, records[dir].ptrs), name)
  }

  /** No block outside `blocks` has changed. */
  ghost predicate Touched(store: Store, store': Store, blocks: set<nat>) {
    store'.Keys == store.Keys && forall p <- store :: p !in blocks ==> store'[p] == store[p]
  }

  /** Who receives a name stays the same when another record becomes a plain file. */
  lemma ReceiverClaim(records: Records, store: Store, freeBlocks: set<nat>, stale: set<nat>, i: nat, dir: nat, name: Name)
    requires Apart(records, store, freeBlocks, stale) && dir != i
    ensures var w, w' := Receiver(records, store, stale, dir, name), Receiver(records[i := OtherRecord(1)], store, stale - {i}, dir, name);
            w' == if w == Some(i) then None else w
  {
    if dir in records && records[dir].DirRecord? && dir in stale {
      var records', stale' := records[i := OtherRecord(1)], stale - {i};
      forall j: nat, k: nat, p: nat ensures Owns(records', stale', j, k, p) <==> j != i && Owns(records, stale, j, k, p) {}
      ApartEmpty(records, store, freeBlocks, stale, i, OtherRecord(1));
      var blocks := Slots(store, records[dir].ptrs);
      var g := D.Landing(blocks, name);
      D.LandsThere(blocks, 0, Need(name));
      if g.Ok? && g.value < |blocks| {
        var p := records[dir].ptrs[g.value];
        if j: nat, k: nat :| Owns(records, stale, j, k, p) {
          BehindIs(records, store, freeBlocks, stale, dir, g.value, j, k);
          BehindIs(records', store, freeBlocks, stale', dir, g.value, j, k);
        }
      }
    }
  }

  /** Whatever its other users do to the blocks that no directory owns, the names stay. */
  lemma OthersHarmNothing(bs: nat, records: Records, store: Store, store': Store, freeBlocks: set<nat>, freeBlocks': set<nat>, stale: set<nat>)
    requires Sane(bs, records, store, stale) && Apart(records, store, freeBlocks, stale) && store'.Keys == store.Keys
    requires forall p <- store :: Owned(records, stale, p) ==> store'[p] == store[p] && p !in freeBlocks'
    ensures See(records, store', stale) == See(records, store, stale)
    ensures Sane(bs, records, store', stale) && Apart(records, store', freeBlocks', stale)
  {
    hide Good, ViewOf;
    forall i | i in records && i !in stale ensures Load(store', records[i]) == Load(store, records[i]) {
      forall k: nat, p: nat | Owns(records, stale, i, k, p) ensures SlotAt(store', p) == SlotAt(store, p) {
        assert Owned(records, stale, p);
      }
      LoadSame(records, store, store', stale, i);
    }
    var t, t' := See(records, store, stale), See(records, store', stale);
    assert t.Keys == t'.Keys;
    assert forall i <- t :: t[i] == t'[i];
    forall i: nat, k: nat, p: nat | Owns(records, stale, i, k, p) && p in store' ensures p !in freeBlocks' {
      assert Owned(records, stale, p);
    }
  }

  // ---- the parent walk, on any records ----------------------------------------------------------

  /** `lookup(x, "..")`. */
  function Up(records: Records, store: Store, x: nat): Result<nat> {
    var f := Found(records, store, x, DOTDOT);
    if f.Err? then Err(f.error) else if f.value.None? then Err(NotFound) else Ok(f.value.value)
  }

  /** The walk ends within `k` steps. */
  ghost predicate Stops(records: Records, store: Store, x: nat, s: nat, k: nat)
    decreases k
  {
    || x == s || x == ROOT || Up(records, store, x).Err? || Up(records, store, x).value == x
    || (k > 0 && Stops(records, store, Up(records, store, x).value, s, k - 1))
  }

  ghost predicate WalkEnds(records: Records, store: Store, x: nat, s: nat) {
    exists k: nat :: Stops(records, store, x, s, k)
  }

  /** What it says. */
  ghost function Outcome(records: Records, store: Store, x: nat, s: nat, k: nat): Option<FsError>
    requires Stops(records, store, x, s, k)
    decreases k
  {
    if x == s then Some(Invalid)
    else if x == ROOT then None
    else if Up(records, store, x).Err? then Some(Up(records, store, x).error)
    else if Up(records, store, x).value == x then None
    else Outcome(records, store, Up(records, store, x).value, s, k - 1)
  }

  lemma {:induction false} OutcomeSame(records: Records, store: Store, x: nat, s: nat, k: nat, k': nat)
    requires Stops(records, store, x, s, k) && Stops(records, store, x, s, k')
    ensures Outcome(records, store, x, s, k) == Outcome(records, store, x, s, k')
    decreases k
  {
    hide Up;
    if !(x == s || x == ROOT || Up(records, store, x).Err? || Up(records, store, x).value == x) {
      OutcomeSame(records, store, Up(records, store, x).value, s, k - 1, k' - 1);
    }
  }

  ghost function ParentWalk(records: Records, store: Store, x: nat, s: nat): Option<FsError> {
    if WalkEnds(records, store, x, s) then
      var k: nat :| Stops(records, store, x, s, k);
      Outcome(records, store, x, s, k)
    else None
  }

  lemma WalkIs(records: Records, store: Store, x: nat, s: nat, k: nat)
    requires Stops(records, store, x, s, k)
    ensures WalkEnds(records, store, x, s) && ParentWalk(records, store, x, s) == Outcome(records, store, x, s, k)
  {
    hide Up;
    var k': nat :| Stops(records, store, x, s, k') && ParentWalk(records, store, x, s) == Outcome(records, store, x, s, k');
    OutcomeSame(records, store, x, s, k, k');
  }
}
