/** Directories as they lie in inode records: the record operations seen as changes of a name map. */
module InodeDirs {
  import opened Common
  import opened Bits
  import opened FsErrors
  import opened DirRecords
  import opened DirBlock
  import D = Directory
  import opened NameTree

  /** An inode with its blocks read in: kind, link count and, for a directory, its blocks. */
  datatype Inode = DirInode(blocks: seq<D.Slot>, links: nat) | OtherInode(links: nat)

  /** A directory's blocks are tiled and its names unique. */
  ghost predicate RecordOk(bs: nat, v: Inode) {
    v.DirInode? ==> D.Sound(bs, v.blocks)
  }

  /** A directory with links starts with its dots. */
  ghost predicate DotsInFront(v: Inode) {
    v.DirInode? && v.links > 0 ==> D.StartsWithDots(v.blocks)
  }

  ghost function InoMap(m: map<Name, Item>): map<Name, nat> {
    map n | n in m :: m[n].ino
  }

  ghost function NamesOf(blocks: seq<D.Slot>): map<Name, nat> {
    if D.NamesOnce(D.AllItems(blocks)) then InoMap(D.AsMap(D.AllItems(blocks))) else map[]
  }

  ghost function ViewOf(v: Inode): Node {
    if v.DirInode? then Dir(NamesOf(v.blocks), v.links) else Leaf(v.links)
  }

  lemma NoBlocks()
    ensures D.NamesOnce(D.AllItems([])) && NamesOf([]) == map[]
  {
    assert D.AllItems([]) == multiset{};
    D.AsMapIs(multiset{}, map[]);
  }

  lemma InoInsert(m: map<Name, Item>, it: Item)
    ensures InoMap(m[it.name := it]) == InoMap(m)[it.name := it.ino]
  {
  }

  lemma InoKeys(m: map<Name, Item>)
    ensures InoMap(m).Keys == m.Keys
  {
  }

  lemma InoDots(self: nat, parent: nat, ft: byte)
    ensures InoMap(map[DOT := Item(DOT, self, ft), DOTDOT := Item(DOTDOT, parent, ft)]) == map[DOT := self, DOTDOT := parent]
  {
    InoInsert(map[], Item(DOT, self, ft));
    InoInsert(map[DOT := Item(DOT, self, ft)], Item(DOTDOT, parent, ft));
  }

  lemma InoDelete(m: map<Name, Item>, n: Name)
    ensures InoMap(m - {n}) == InoMap(m) - {n}
  {
  }

  // ---- one block changed -----------------------------------------------------------------------

  /** A block of a directory gets new bytes; the block after the last is a new one. */
  datatype Edit = Edit(slot: nat, bytes: seq<byte>)

  function Applied(v: Inode, e: Edit): Inode
    requires v.DirInode? && e.slot <= |v.blocks|
  {
    DirInode(if e.slot < |v.blocks| then v.blocks[e.slot := Some(e.bytes)] else v.blocks + [Some(e.bytes)], v.links)
  }

  /** What the edit of an insertion is, whatever the directory's blocks hold. */
  ghost predicate Adds(bs: nat, v: Inode, e: Edit, it: Item) {
    && v.DirInode? && e.slot <= |v.blocks| && |e.bytes| == bs
    && if e.slot < |v.blocks| then v.blocks[e.slot].Some? && D.BlockGains(v.blocks[e.slot].value, e.bytes, it)
       else Tiled(e.bytes) && BlockItems(e.bytes) == multiset{it}
  }

  ghost predicate Removes(bs: nat, v: Inode, e: Edit, name: Name, ino: nat) {
    && v.DirInode? && e.slot < |v.blocks| && |e.bytes| == bs
    && v.blocks[e.slot].Some? && D.BlockLoses(v.blocks[e.slot].value, e.bytes, name, ino)
  }

  /** Insertion into the map, or a second entry of the same name. */
  lemma AddsView(bs: nat, v: Inode, e: Edit, it: Item)
    requires RecordOk(bs, v) && Adds(bs, v, e, it)
    ensures var v' := Applied(v, e);
            if it.name in Entries(ViewOf(v)) then !RecordOk(bs, v')
            else
              && RecordOk(bs, v') && ViewOf(v') == Dir(Entries(ViewOf(v))[it.name := it.ino], v.links)
              && (DotsInFront(v) ==> DotsInFront(v'))
  {
    hide D.SlotOk, D.StartsWithDots, D.AllItems, D.AsMap, D.NamesOnce, D.BlockGains;
    var m := D.AsMap(D.AllItems(v.blocks));
    InoKeys(m);
    InoInsert(m, it);
    if e.slot < |v.blocks| { D.Gained(bs, v.blocks, e.slot, e.bytes, it); } else { D.GainedBlock(bs, v.blocks, e.bytes, it); }
  }

  /** Deletion from the map. */
  lemma RemovesView(bs: nat, v: Inode, e: Edit, name: Name, ino: nat)
    requires RecordOk(bs, v) && Removes(bs, v, e, name, ino)
    ensures var v' := Applied(v, e);
            && RecordOk(bs, v') && name in Entries(ViewOf(v)) && Entries(ViewOf(v))[name] == ino
            && ViewOf(v') == Dir(Entries(ViewOf(v)) - {name}, v.links) && D.RoomIn(v'.blocks, name)
            && (DotsInFront(v) && !Dots(name) ==> DotsInFront(v'))
  {
    hide D.SlotOk, D.StartsWithDots, D.AllItems, D.AsMap, D.NamesOnce, D.BlockLoses, D.RoomIn;
    var m := D.AsMap(D.AllItems(v.blocks));
    InoDelete(m, name);
    D.Lost(bs, v.blocks, e.slot, e.bytes, name, ino);
  }

  /** In a sound directory a search finds what the map says. */
  lemma FindsView(bs: nat, v: Inode, name: Name)
    requires v.DirInode? && RecordOk(bs, v)
    ensures var f, m := D.Finding(v.blocks, name), Entries(ViewOf(v));
            f.Ok? && (f.value.Some? <==> name in m) && (f.value.Some? ==> m[name] == f.value.value.1)
  {
    hide D.SlotOk, D.AllItems, D.AsMap, D.NamesOnce;
    D.FindsMap(bs, v.blocks, name);
  }

  lemma LandsView(bs: nat, v: Inode, name: Name)
    requires v.DirInode? && RecordOk(bs, v)
    ensures var g := D.Landing(v.blocks, name);
            g.Ok? && g.value <= |v.blocks| && (g.value < |v.blocks| <==> D.RoomIn(v.blocks, name))
  {
    hide D.AllItems, D.NamesOnce, D.RoomIn, D.SlotOk, Need;
    D.LandTiled(bs, v.blocks, 0, name);
    D.LandsThere(v.blocks, 0, Need(name));
  }

  // ---- the directory operations on an inode -------------------------------------------------------

  /** `dir_find`. */
  method FindIn(bs: nat, v: Inode, name: Name) returns (r: Result<Option<nat>>)
    requires v.DirInode? && D.Sized(bs, v.blocks)
    ensures r == var f := D.Finding(v.blocks, name); if f.Err? then Err(f.error) else Ok(if f.value.Some? then Some(f.value.value.1) else None)
    ensures RecordOk(bs, v) ==> r == Ok(if name in Entries(ViewOf(v)) then Some(Entries(ViewOf(v))[name]) else None)
  {
    hide D.NamesOnce, D.AsMap, D.AllItems, D.SlotOk, D.Finding;
    var dir := new D.Dir(bs, v.blocks);
    r := dir.Find(name);
    if RecordOk(bs, v) { FindsView(bs, v, name); }
  }

  /** `dir_add`; `grow` is the block the file layer would append, or its error. */
  method AddIn(bs: nat, v: Inode, name: Name, child: nat, ft: byte, grow: Result<nat>) returns (r: Result<Edit>)
    requires v.DirInode? && D.Sized(bs, v.blocks) && 0 < child < 0x1_0000_0000
    ensures if D.ValidateName(name).Some? then r == Err(D.ValidateName(name).value)
            else
              var g := D.Landing(v.blocks, name);
              if g.Err? then r == Err(g.error)
              else if g.value == |v.blocks| && grow.Err? then r == Err(grow.error)
              else r.Ok? && r.value.slot == g.value && Adds(bs, v, r.value, Item(name, child, ft))
    ensures RecordOk(bs, v) && D.ValidateName(name).None? ==>
              (r.Err? <==> grow.Err? && !D.RoomIn(v.blocks, name)) && (r.Err? ==> r == Err(grow.error))
    ensures RecordOk(bs, v) && r.Ok? && name !in Entries(ViewOf(v)) ==>
              ViewOf(Applied(v, r.value)) == Dir(Entries(ViewOf(v))[name := child], v.links)
  {
    hide D.SlotOk, D.RoomIn, D.StartsWithDots, D.AllItems, D.AsMap, D.NamesOnce, D.BlockGains, BlockItems, Tiled, D.LandFrom, Need, NamesOf;
    var dir := new D.Dir(bs, v.blocks);
    D.LandsThere(v.blocks, 0, Need(name));
    var done := dir.Add(name, child, ft, grow);
    if done.Err? { return Err(done.error); }
    r := Ok(Edit(done.value, dir.blocks[done.value].value));
    if RecordOk(bs, v) && name !in Entries(ViewOf(v)) { AddsView(bs, v, r.value, Item(name, child, ft)); }
  }

  /** `dir_remove`. */
  method RemoveIn(bs: nat, v: Inode, name: Name) returns (r: Result<Edit>)
    requires v.DirInode? && D.Sized(bs, v.blocks)
    ensures var f := D.Finding(v.blocks, name);
            if f.Err? then r == Err(f.error)
            else if f.value.None? then r == Err(NotFound)
            else r.Ok? && r.value.slot == f.value.value.0 && Removes(bs, v, r.value, name, f.value.value.1)
    ensures RecordOk(bs, v) ==> (r.Err? <==> name !in Entries(ViewOf(v))) && (r.Err? ==> r == Err(NotFound))
    ensures RecordOk(bs, v) && r.Ok? ==> ViewOf(Applied(v, r.value)) == Dir(Entries(ViewOf(v)) - {name}, v.links)
  {
    hide D.SlotOk, D.RoomIn, D.StartsWithDots, D.AllItems, D.AsMap, D.NamesOnce, D.BlockLoses, D.FindFrom, NamesOf;
    var dir := new D.Dir(bs, v.blocks);
    if RecordOk(bs, v) { FindsView(bs, v, name); }
    var done := dir.Remove(name);
    if done.Err? { return Err(done.error); }
    r := Ok(Edit(done.value.0, dir.blocks[done.value.0].value));
    if RecordOk(bs, v) { RemovesView(bs, v, r.value, name, done.value.1); }
  }

  /** `dir_is_empty`. */
  method EmptyIn(bs: nat, v: Inode) returns (r: Result<bool>)
    requires v.DirInode? && D.Sized(bs, v.blocks)
    ensures RecordOk(bs, v) ==> r == Ok(forall n <- Entries(ViewOf(v)) :: Dots(n))
  {
    hide InoMap, D.SlotOk, D.AllItems, D.AsMap, D.NamesOnce, OnlyDots;
    var dir := new D.Dir(bs, v.blocks);
    r := dir.IsEmpty();
    if RecordOk(bs, v) {
      ghost var m := D.AsMap(D.AllItems(v.blocks));
      InoKeys(m);
      assert Entries(ViewOf(v)).Keys == m.Keys;
    }
  }

  /** `dir_set_parent`. */
  method SetParentIn(bs: nat, v: Inode, parent: nat) returns (r: Result<Edit>)
    requires v.DirInode? && D.Sized(bs, v.blocks) && 0 < parent < 0x1_0000_0000
    ensures r.Err? ==> r == Err(Corrupt)
    ensures r.Ok? ==> r.value.slot == 0 < |v.blocks| && v.blocks[0].Some? && |r.value.bytes| == bs
    ensures RecordOk(bs, v) && v.links > 0 && DotsInFront(v) ==>
              && r.Ok? && RecordOk(bs, Applied(v, r.value)) && DotsInFront(Applied(v, r.value))
              && ViewOf(Applied(v, r.value)) == Dir(Entries(ViewOf(v))[DOTDOT := parent], v.links)
  {
    hide D.AllItems, D.AsMap, D.NamesOnce, D.StartsWithDots, InoMap, D.ParentSet, Tiled;
    var dir := new D.Dir(bs, v.blocks);
    var done := dir.SetParent(parent);
    if done.Err? { return Err(done.error); }
    r := Ok(Edit(0, dir.blocks[0].value));
    if RecordOk(bs, v) && v.links > 0 && DotsInFront(v) {
      ParentMap(D.AllItems(v.blocks), D.AllItems(dir.blocks), parent);
    }
  }

  /** The block `mkdir` writes. */
  method FreshIn(bs: nat, self: nat, parent: nat, ft: byte) returns (b: seq<byte>)
    requires D.SizeOk(bs) && 0 < self < 0x1_0000_0000 && 0 < parent < 0x1_0000_0000
    ensures |b| == bs && FreshRecord(bs, DirInode([Some(b)], 2), self, parent)
  {
    hide Tiled, D.AllItems, D.AsMap, D.NamesOnce, D.StartsWithDots, D.RoomIn, InoMap;
    var dir := new D.Dir.Fresh(bs, self, parent, ft);
    InoDots(self, parent, ft);
    b := dir.blocks[0].value;
    assert dir.blocks == [Some(b)];
  }

  /** A directory as `mkdir` writes it: its dots, two links, and room for every name. */
  ghost predicate FreshRecord(bs: nat, v: Inode, self: nat, parent: nat) {
    && v.DirInode? && RecordOk(bs, v) && DotsInFront(v) && ViewOf(v) == Dir(map[DOT := self, DOTDOT := parent], 2)
    && forall name :: |name| <= MAX_NAME ==> D.RoomIn(v.blocks, name)
  }

  lemma ParentMap(items: multiset<Item>, items': multiset<Item>, parent: nat)
    requires D.ParentSet(items, items', parent)
    ensures D.NamesOnce(items') && D.NamesOnce(items)
    ensures InoMap(D.AsMap(items')) == InoMap(D.AsMap(items))[DOTDOT := parent]
  {
    hide D.AsMap, D.NamesOnce;
    D.AsMapRepresents(items);
    InoInsert(D.AsMap(items), D.AsMap(items)[DOTDOT].(ino := parent));
  }

  lemma Kind(v: Inode)
    ensures ViewOf(v).Dir? <==> v.DirInode?
    ensures ViewOf(v).links == v.links
  {
  }

  lemma DeadOk(bs: nat, v: Inode)
    requires D.SizeOk(bs) && (v == DirInode([], 0) || v == OtherInode(0))
    ensures RecordOk(bs, v) && DotsInFront(v) && ViewOf(v) == if v.DirInode? then Dir(map[], 0) else Leaf(0)
  {
    NoBlocks();
  }

  lemma OtherOk(bs: nat, links: nat)
    ensures RecordOk(bs, OtherInode(links)) && DotsInFront(OtherInode(links)) && ViewOf(OtherInode(links)) == Leaf(links)
  {
  }
}
