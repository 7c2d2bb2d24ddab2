/** A directory: a file of tiled blocks that behaves as a finite map from names to entries. */
module Directory {
  import opened Common
  import opened Bits
  import opened FsErrors
  import opened DirRecords
  import opened DirBlock

  const SLASH: byte := 47

  /** `validate_name`. */
  function ValidateName(name: seq<byte>): Option<FsError> {
    if name == [] || 0 in name || SLASH in name then Some(Invalid)
    else if |name| > MAX_NAME then Some(NameTooLong)
    else None
  }

  /** Which names are refused, and how: an empty name or one with a zero or a slash is invalid, whatever its length;
      any other is too long from 256 bytes on. */
  lemma NameRefusals(name: seq<byte>)
    ensures ValidateName(name).None? <==> 1 <= |name| <= 255 && forall c <- name :: c != 0 && c != 47
    ensures ValidateName(name) == Some(NameTooLong) <==> |name| >= 256 && forall c <- name :: c != 0 && c != 47
    ensures ValidateName(name) == Some(Invalid) <==> |name| == 0 || exists i :: 0 <= i < |name| && (name[i] == 0 || name[i] == 47)
  {
    if 0 in name {
      var i :| 0 <= i < |name| && name[i] == 0;
    }
    if SLASH in name {
      var i :| 0 <= i < |name| && name[i] == SLASH;
    }
  }

  /** A logical block of the directory file; `None` is a hole. */
  type Slot = Option<seq<byte>>

  ghost function SlotItems(s: Slot): multiset<Item> {
    if s.None? then multiset{} else BlockItems(s.value)
  }

  ghost function AllItems(blocks: seq<Slot>): multiset<Item> {
    if blocks == [] then multiset{} else SlotItems(blocks[0]) + AllItems(blocks[1..])
  }

  lemma {:induction false} AllItemsConcat(a: seq<Slot>, b: seq<Slot>)
    ensures AllItems(a + b) == AllItems(a) + AllItems(b)
  {
    hide SlotItems;
    if a == [] {
      assert a + b == b;
    } else {
      AllItemsConcat(a[1..], b);
      assert (a + b)[1..] == a[1..] + b;
      assert SlotItems(a[0]) + (AllItems(a[1..]) + AllItems(b)) == (SlotItems(a[0]) + AllItems(a[1..])) + AllItems(b);
    }
  }

  lemma AllItemsOne(s: Slot)
    ensures AllItems([s]) == SlotItems(s)
  {
    assert [s][1..] == [];
  }

  /** Exchanging one block exchanges its entries. */
  lemma AllItemsUpdate(blocks: seq<Slot>, i: nat, s: Slot)
    requires i < |blocks|
    ensures AllItems(blocks[i := s]) + SlotItems(blocks[i]) == AllItems(blocks) + SlotItems(s)
  {
    hide AllItems, SlotItems;
    var pre, post := blocks[..i], blocks[i + 1..];
    assert blocks == pre + [blocks[i]] + post;
    assert blocks[i := s] == pre + [s] + post;
    AllItemsConcat(pre, [blocks[i]]);
    AllItemsConcat(pre + [blocks[i]], post);
    AllItemsConcat(pre, [s]);
    AllItemsConcat(pre + [s], post);
    AllItemsOne(blocks[i]);
    AllItemsOne(s);
    Swap(AllItems(pre), SlotItems(blocks[i]), SlotItems(s), AllItems(post));
  }

  lemma InSome(blocks: seq<Slot>, i: nat, it: Item)
    requires i < |blocks| && it in SlotItems(blocks[i])
    ensures it in AllItems(blocks)
  {
    hide AllItems, SlotItems;
    var pre, post := blocks[..i], blocks[i + 1..];
    assert blocks == pre + [blocks[i]] + post;
    AllItemsConcat(pre, [blocks[i]]);
    AllItemsConcat(pre + [blocks[i]], post);
    AllItemsOne(blocks[i]);
  }

  lemma {:induction false} AbsentAll(blocks: seq<Slot>, name: seq<byte>)
    requires forall i :: 0 <= i < |blocks| ==> Absent(SlotItems(blocks[i]), name)
    ensures Absent(AllItems(blocks), name)
  {
    hide SlotItems;
    if blocks != [] { AbsentAll(blocks[1..], name); }
  }

  // ---- entries as a map --------------------------------------------------------------------

  /** No two entries share a name. */
  ghost predicate NamesOnce(items: multiset<Item>) {
    && (forall x <- items, y <- items :: x.name == y.name ==> x == y)
    && (forall x :: items[x] <= 1)
  }

  ghost function AsMap(items: multiset<Item>): map<seq<byte>, Item>
    requires NamesOnce(items)
  {
    map x | x in items :: x.name := x
  }

  ghost predicate Represents(items: multiset<Item>, m: map<seq<byte>, Item>) {
    && (forall x <- items :: x.name in m && m[x.name] == x)
    && (forall n <- m :: m[n] in items && m[n].name == n)
  }

  lemma AsMapIs(items: multiset<Item>, m: map<seq<byte>, Item>)
    requires NamesOnce(items) && Represents(items, m)
    ensures AsMap(items) == m
  {
    var m' := AsMap(items);
    assert forall n <- m :: m[n] in items && n in m' && m'[n] == m[n];
    assert forall n <- m' :: m'[n] in items && n in m;
    assert m.Keys == m'.Keys;
  }

  lemma AsMapRepresents(items: multiset<Item>)
    requires NamesOnce(items)
    ensures Represents(items, AsMap(items))
  {
  }

  /** `m` is `items` with one more `it`. */
  ghost predicate OneMore(items: multiset<Item>, it: Item, m: multiset<Item>) {
    forall x :: m[x] == if x == it then items[x] + 1 else items[x]
  }

  lemma OnceInsert(items: multiset<Item>, it: Item, m: multiset<Item>)
    requires OneMore(items, it, m) && NamesOnce(items) && Absent(items, it.name)
    ensures NamesOnce(m)
  {
    assert it !in items;
    forall x, y | x in m && y in m && x.name == y.name ensures x == y {
      assert x != it ==> x in items;
      assert y != it ==> y in items;
    }
  }

  lemma RepresentsInsert(items: multiset<Item>, it: Item, m: multiset<Item>, f: map<seq<byte>, Item>)
    requires OneMore(items, it, m) && Represents(items, f) && Absent(items, it.name)
    ensures Represents(m, f[it.name := it])
  {
    var g := f[it.name := it];
    forall x | x in m ensures x.name in g && g[x.name] == x { assert x != it ==> x in items; }
    forall n | n in g ensures g[n] in m && g[n].name == n { assert n != it.name ==> f[n] in items; }
  }

  lemma OnceDelete(items: multiset<Item>, it: Item, m: multiset<Item>)
    requires OneMore(items, it, m) && NamesOnce(m)
    ensures NamesOnce(items) && Absent(items, it.name)
  {
    assert it in m && m[it] <= 1;
    forall x ensures items[x] <= 1 && (x in items ==> x in m && x != it) { assert m[x] <= 1; }
  }

  lemma RepresentsDelete(items: multiset<Item>, it: Item, m: multiset<Item>, f: map<seq<byte>, Item>)
    requires OneMore(items, it, m) && Represents(m, f) && Absent(items, it.name)
    ensures it.name in f && Represents(items, f - {it.name})
  {
    var g := f - {it.name};
    assert it in m;
    forall x | x in items ensures x.name in g && g[x.name] == x { assert x in m; }
    forall n | n in g ensures g[n] in items && g[n].name == n { assert f[n] in m && f[n] != it; }
  }

  lemma MapInsert(items: multiset<Item>, it: Item)
    requires NamesOnce(items) && Absent(items, it.name)
    ensures NamesOnce(items + multiset{it}) && AsMap(items + multiset{it}) == AsMap(items)[it.name := it]
  {
    hide AsMap, NamesOnce, Absent, Represents;
    var m := items + multiset{it};
    assert OneMore(items, it, m);
    hide OneMore;
    AsMapRepresents(items);
    OnceInsert(items, it, m);
    RepresentsInsert(items, it, m, AsMap(items));
    AsMapIs(m, AsMap(items)[it.name := it]);
  }

  lemma MapDelete(items: multiset<Item>, it: Item)
    requires NamesOnce(items + multiset{it})
    ensures NamesOnce(items) && it.name in AsMap(items + multiset{it})
    ensures AsMap(items) == AsMap(items + multiset{it}) - {it.name} && Absent(items, it.name)
  {
    hide AsMap, NamesOnce, Absent, Represents;
    var m := items + multiset{it};
    assert OneMore(items, it, m);
    hide OneMore;
    AsMapRepresents(m);
    OnceDelete(items, it, m);
    RepresentsDelete(items, it, m, AsMap(m));
    AsMapIs(items, AsMap(m) - {it.name});
  }

  lemma MapLookup(items: multiset<Item>, name: seq<byte>, it: Item)
    requires NamesOnce(items)
    ensures it in items && it.name == name ==> name in AsMap(items) && AsMap(items)[name] == it
    ensures Absent(items, name) ==> name !in AsMap(items)
  {
  }

  // ---- the directory -------------------------------------------------------------------------

  ghost predicate SlotOk(bs: nat, s: Slot) {
    s.Some? ==> |s.value| == bs && Tiled(s.value)
  }

  predicate SizeOk(bs: nat) {
    bs == 1024 || bs == 2048 || bs == 4096
  }

  /** Every block has its full length, whatever it holds. */
  ghost predicate Sized(bs: nat, blocks: seq<Slot>) {
    SizeOk(bs) && forall i :: 0 <= i < |blocks| && blocks[i].Some? ==> |blocks[i].value| == bs
  }

  ghost predicate RoomIn(blocks: seq<Slot>, name: seq<byte>) {
    exists i :: 0 <= i < |blocks| && RoomAt(blocks[i], name)
  }

  ghost predicate RoomAt(s: Slot, name: seq<byte>) {
    s.Some? && Tiled(s.value) && HasRoom(Records(s.value), name)
  }

  /** The directory's first block starts with the dot records. */
  ghost predicate StartsWithDots(blocks: seq<Slot>) {
    blocks != [] && blocks[0].Some? && Tiled(blocks[0].value) && Dotted(Records(blocks[0].value))
  }

  lemma DotsStay(blocks: seq<Slot>, i: nat, b: seq<byte>)
    requires i < |blocks| && blocks[i].Some? && Tiled(b) && DotsKept(blocks[i].value, b)
    ensures StartsWithDots(blocks) ==> StartsWithDots(blocks[i := Some(b)])
  {
  }

  /** Block and inode of the first entry called `name`, from block `lb` on, in any bytes. */
  function FindFrom(blocks: seq<Slot>, lb: nat, name: seq<byte>): Result<Option<(nat, nat)>>
    decreases |blocks| - lb
  {
    if lb >= |blocks| then Ok(None)
    else if blocks[lb].None? then FindFrom(blocks, lb + 1, name)
    else
      var f := Scan(blocks[lb].value, 0, name);
      if f.Err? then Err(f.error)
      else if f.value.Some? then Ok(Some((lb, f.value.value)))
      else FindFrom(blocks, lb + 1, name)
  }

  /** The first block from `lb` on in which a record has `need` bytes to spare; the number of
      blocks if there is none. */
  function LandFrom(blocks: seq<Slot>, lb: nat, need: nat): Result<nat>
    decreases |blocks| - lb
  {
    if lb >= |blocks| then Ok(|blocks|)
    else if blocks[lb].None? then LandFrom(blocks, lb + 1, need)
    else
      var g := Gap(blocks[lb].value, 0, need);
      if g.Err? then Err(g.error)
      else if g.value then Ok(lb)
      else LandFrom(blocks, lb + 1, need)
  }

  function Finding(blocks: seq<Slot>, name: seq<byte>): Result<Option<(nat, nat)>> { FindFrom(blocks, 0, name) }

  function Landing(blocks: seq<Slot>, name: seq<byte>): Result<nat> { LandFrom(blocks, 0, Need(name)) }

  /** What a search finds stands in the block it names. */
  lemma {:induction false} FoundThere(blocks: seq<Slot>, lb: nat, name: seq<byte>)
    ensures var f := FindFrom(blocks, lb, name);
            f.Ok? && f.value.Some? ==>
              var (k, i) := f.value.value;
              lb <= k < |blocks| && blocks[k].Some? && Scan(blocks[k].value, 0, name) == Ok(Some(i))
    decreases |blocks| - lb
  {
    hide Scan;
    if lb < |blocks| { FoundThere(blocks, lb + 1, name); }
  }

  lemma {:induction false} LandsThere(blocks: seq<Slot>, lb: nat, need: nat)
    requires lb <= |blocks|
    ensures var g := LandFrom(blocks, lb, need);
            g.Ok? ==> lb <= g.value <= |blocks| && (g.value < |blocks| ==> blocks[g.value].Some? && Gap(blocks[g.value].value, 0, need) == Ok(true))
    decreases |blocks| - lb
  {
    hide Gap;
    if lb < |blocks| { LandsThere(blocks, lb + 1, need); }
  }

  /** In tiled blocks the search finds exactly the names that are there. */
  lemma {:induction false} FindTiled(bs: nat, blocks: seq<Slot>, lb: nat, name: seq<byte>)
    requires forall i :: 0 <= i < |blocks| ==> SlotOk(bs, blocks[i])
    requires lb <= |blocks| && forall i :: 0 <= i < lb ==> Absent(SlotItems(blocks[i]), name)
    ensures var f := FindFrom(blocks, lb, name);
            && f.Ok?
            && (f.value.None? ==> Absent(AllItems(blocks), name))
            && (f.value.Some? ==> exists ft :: Item(name, f.value.value.1, ft) in AllItems(blocks))
    decreases |blocks| - lb
  {
    hide BlockItems, Tiled, AllItems, Scan;
    if lb < |blocks| {
      assert SlotOk(bs, blocks[lb]);
      if blocks[lb].Some? {
        ScanTiled(blocks[lb].value, name);
        var f := Scan(blocks[lb].value, 0, name);
        if f.value.Some? {
          var ft :| Item(name, f.value.value, ft) in BlockItems(blocks[lb].value);
          InSome(blocks, lb, Item(name, f.value.value, ft));
          return;
        }
      }
      FindTiled(bs, blocks, lb + 1, name);
    } else {
      AbsentAll(blocks, name);
    }
  }

  lemma FindsMap(bs: nat, blocks: seq<Slot>, name: seq<byte>)
    requires (forall i :: 0 <= i < |blocks| ==> SlotOk(bs, blocks[i])) && NamesOnce(AllItems(blocks))
    ensures var f, m := Finding(blocks, name), AsMap(AllItems(blocks));
            && f.Ok? && (f.value.Some? <==> name in m) && (f.value.Some? ==> m[name].ino == f.value.value.1)
  {
    hide AllItems, NamesOnce, AsMap, SlotOk;
    FindTiled(bs, blocks, 0, name);
    var f := Finding(blocks, name);
    if f.value.Some? {
      var ft :| Item(name, f.value.value.1, ft) in AllItems(blocks);
      MapLookup(AllItems(blocks), name, Item(name, f.value.value.1, ft));
    } else {
      MapLookup(AllItems(blocks), name, Item(name, 0, 0));
    }
  }

  /** In tiled blocks a name lands in an old block exactly if one has room. */
  lemma {:induction false} LandTiled(bs: nat, blocks: seq<Slot>, lb: nat, name: seq<byte>)
    requires forall i :: 0 <= i < |blocks| ==> SlotOk(bs, blocks[i])
    requires lb <= |blocks| && forall i :: 0 <= i < lb ==> !RoomAt(blocks[i], name)
    ensures var g := LandFrom(blocks, lb, Need(name));
            g.Ok? && (g.value < |blocks| <==> RoomIn(blocks, name))
    decreases |blocks| - lb
  {
    hide Tiled, Gap, HasRoom, Need;
    if lb < |blocks| {
      assert SlotOk(bs, blocks[lb]);
      if blocks[lb].Some? { GapTiled(blocks[lb].value, name); }
      if RoomAt(blocks[lb], name) { return; }
      LandTiled(bs, blocks, lb + 1, name);
    }
  }

  /** What an insertion does to the one block it changes. */
  ghost predicate BlockGains(b: seq<byte>, b': seq<byte>, it: Item) {
    |b'| == |b| && (Tiled(b) ==> Tiled(b') && BlockItems(b') == BlockItems(b) + multiset{it} && DotsKept(b, b'))
  }

  /** What a deletion does; afterwards the block has room for the name. */
  ghost predicate BlockLoses(b: seq<byte>, b': seq<byte>, name: seq<byte>, ino: nat) {
    |b'| == |b| &&
    (Tiled(b) ==>
      && Tiled(b') && HasRoom(Records(b'), name) && (name != DOT && name != DOTDOT ==> DotsKept(b, b'))
      && exists ft :: BlockItems(b') + multiset{Item(name, ino, ft)} == BlockItems(b))
  }

  /** Exactly block `k` differs. */
  ghost predicate OneBlock(blocks: seq<Slot>, blocks': seq<Slot>, k: nat) {
    k < |blocks| == |blocks'| && blocks[k].Some? && blocks'[k].Some? && blocks' == blocks[k := blocks'[k]]
  }

  class Dir {
    const bs: nat
    var blocks: seq<Slot>

    constructor (bs: nat, blocks: seq<Slot>)
      ensures this.bs == bs && this.blocks == blocks
    {
      this.bs := bs;
      this.blocks := blocks;
    }

    /** The directory `mkdir` makes. */
    constructor Fresh(bs: nat, self: nat, parent: nat, ft: byte)
      requires SizeOk(bs)
      requires 0 < self < 0x1_0000_0000 && 0 < parent < 0x1_0000_0000
      ensures this.bs == bs && Valid() && StartsWithDots(blocks) && NamesOnce(Items()) && |blocks| == 1 && blocks[0].Some?
      ensures AsMap(Items()) == map[DOT := Item(DOT, self, ft), DOTDOT := Item(DOTDOT, parent, ft)]
      ensures forall name :: |name| <= MAX_NAME ==> RoomIn(blocks, name)
    {
      hide HasRoom, Tiled, AllItems, BlockItems, NamesOnce, AsMap, Dotted;
      var b := FreshDirBlock(bs, self, parent, ft);
      AllItemsOne(Some(b));
      DotsOnly(self, parent, ft);
      this.bs := bs;
      blocks := [Some(b)];
      new;
      assert forall name :: |name| <= MAX_NAME ==> RoomAt(blocks[0], name);
    }

    /** Every block of the directory is exactly tiled by valid records. */
    ghost predicate Valid()
      reads this
    {
      SizeOk(bs) && forall i :: 0 <= i < |blocks| ==> SlotOk(bs, blocks[i])
    }

    ghost function Items(): multiset<Item>
      reads this
    {
      AllItems(blocks)
    }

    /** Lookup; a block that is not tiled may be reported as corrupt. */
    method Find(name: seq<byte>) returns (r: Result<Option<nat>>)
      requires Sized(bs, blocks)
      ensures r == var f := Finding(blocks, name); if f.Err? then Err(f.error) else Ok(if f.value.Some? then Some(f.value.value.1) else None)
      ensures Valid() && NamesOnce(Items()) ==>
                r.Ok? && (r.value.Some? <==> name in AsMap(Items())) && (r.value.Some? ==> AsMap(Items())[name].ino == r.value.value)
    {
      hide BlockItems, Tiled, AllItems, AsMap, NamesOnce, Scan;
      if Valid() && NamesOnce(Items()) { FindsMap(bs, blocks, name); }
      for lb := 0 to |blocks|
        invariant FindFrom(blocks, lb, name) == Finding(blocks, name)
      {
        if blocks[lb].Some? {
          var found := FindInBlock(blocks[lb].value, name);
          if found.Err? { return Err(found.error); }
          if found.value.Some? { return Ok(Some(found.value.value.ino)); }
        }
      }
      r := Ok(None);
    }

    /** Insertion: into the first record with room or, if there is none, into the new block that
        the file layer grants, or refuses with an error. */
    method Add(name: seq<byte>, child: nat, ft: byte, grow: Result<nat>) returns (r: Result<nat>)
      requires Sized(bs, blocks) && 0 < child < 0x1_0000_0000
      modifies this
      ensures Sized(bs, blocks) && (r.Err? ==> blocks == old(blocks))
      ensures r == if ValidateName(name).Some? then Err(ValidateName(name).value)
                   else
                     var g := Landing(old(blocks), name);
                     if g.Ok? && g.value == |old(blocks)| && grow.Err? then Err(grow.error) else g
      ensures r.Ok? && r.value < |old(blocks)| ==>
                OneBlock(old(blocks), blocks, r.value) && BlockGains(old(blocks)[r.value].value, blocks[r.value].value, Item(name, child, ft))
      ensures r.Ok? && r.value == |old(blocks)| ==>
                exists b :: blocks == old(blocks) + [Some(b)] && |b| == bs && Tiled(b) && BlockItems(b) == multiset{Item(name, child, ft)}
      ensures Sound(bs, old(blocks)) && ValidateName(name).None? ==>
                (r.Err? <==> grow.Err? && !RoomIn(old(blocks), name)) && (r.Err? ==> r == Err(grow.error))
      ensures Sound(bs, old(blocks)) && r.Ok? && name !in AsMap(AllItems(old(blocks))) ==>
                && Sound(bs, blocks) && AsMap(Items()) == AsMap(old(Items()))[name := Item(name, child, ft)]
                && (StartsWithDots(old(blocks)) ==> StartsWithDots(blocks))
    {
      hide BlockItems, Tiled, HasRoom, Dotted, DotsKept, Gap, Need, NamesOnce, AsMap, AllItems, SlotOk, RoomIn;
      var bad := ValidateName(name);
      if bad.Some? { return Err(bad.value); }
      if Sound(bs, blocks) { LandTiled(bs, blocks, 0, name); }
      for lb := 0 to |blocks|
        invariant blocks == old(blocks) && LandFrom(blocks, lb, Need(name)) == Landing(blocks, name)
      {
        if blocks[lb].Some? {
          var done := AddInBlock(blocks[lb].value, name, child, ft);
          if done.Err? { return Err(done.error); }
          if done.value.Some? {
            if Sound(bs, blocks) { Gained(bs, blocks, lb, done.value.value, Item(name, child, ft)); }
            blocks := blocks[lb := done.value];
            return Ok(lb);
          }
        }
      }
      if grow.Err? { return Err(grow.error); }
      var page := NewBlock(bs, name, child, ft);
      if Sound(bs, blocks) { GainedBlock(bs, blocks, page, Item(name, child, ft)); }
      blocks := blocks + [Some(page)];
      return Ok(|blocks| - 1);
    }

    /** Deletion of the entry the search finds. */
    method Remove(name: seq<byte>) returns (r: Result<(nat, nat)>)
      requires Sized(bs, blocks)
      modifies this
      ensures Sized(bs, blocks) && (r.Err? ==> blocks == old(blocks))
      ensures r == var f := Finding(old(blocks), name);
                   if f.Err? then Err(f.error) else if f.value.None? then Err(NotFound) else Ok(f.value.value)
      ensures r.Ok? ==> OneBlock(old(blocks), blocks, r.value.0) && BlockLoses(old(blocks)[r.value.0].value, blocks[r.value.0].value, name, r.value.1)
      ensures Sound(bs, old(blocks)) ==> (r.Ok? <==> name in AsMap(old(Items()))) && (r.Err? ==> r == Err(NotFound))
      ensures Sound(bs, old(blocks)) && r.Ok? ==>
                && Sound(bs, blocks) && AsMap(Items()) == AsMap(old(Items())) - {name} && AsMap(old(Items()))[name].ino == r.value.1
                && RoomIn(blocks, name) && (name != DOT && name != DOTDOT && StartsWithDots(old(blocks)) ==> StartsWithDots(blocks))
    {
      hide BlockItems, Tiled, HasRoom, DotsKept, Scan, NamesOnce, AsMap, AllItems, SlotOk, RoomIn, StartsWithDots;
      if Sound(bs, blocks) { FindsMap(bs, blocks, name); }
      for lb := 0 to |blocks|
        invariant blocks == old(blocks) && FindFrom(blocks, lb, name) == Finding(blocks, name)
      {
        if blocks[lb].Some? {
          var done := RemoveInBlock(blocks[lb].value, name);
          if done.Err? { return Err(done.error); }
          if done.value.Some? {
            if Sound(bs, blocks) { Lost(bs, blocks, lb, done.value.value.0, name, done.value.value.1); }
            blocks := blocks[lb := Some(done.value.value.0)];
            return Ok((lb, done.value.value.1));
          }
        }
      }
      return Err(NotFound);
    }

    /** The overwriting path of `rename`: the name is removed and added again for another inode.
        The second step never needs a new block, so the pair cannot fail half way. */
    method Replace(name: seq<byte>, child: nat, ft: byte) returns (r: Result<()>)
      requires Sound(bs, blocks) && 0 < child < 0x1_0000_0000 && ValidateName(name).None?
      modifies this
      ensures Sound(bs, blocks)
      ensures r.Ok? <==> name in AsMap(old(Items()))
      ensures r.Ok? ==> AsMap(Items()) == AsMap(old(Items()))[name := Item(name, child, ft)]
      ensures r.Err? ==> r == Err(NotFound) && blocks == old(blocks)
      ensures StartsWithDots(old(blocks)) && name != DOT && name != DOTDOT ==> StartsWithDots(blocks)
    {
      hide AllItems, NamesOnce, RoomIn, StartsWithDots, Tiled, AsMap, BlockGains, BlockLoses;
      var gone := Remove(name);
      if gone.Err? { return Err(NotFound); }
      var done := Add(name, child, ft, Err(NoSpace));
      r := Ok(());
    }

    /** Whether the directory holds nothing but "." and "..". */
    method IsEmpty() returns (r: Result<bool>)
      requires Sized(bs, blocks)
      ensures Valid() ==> r == Ok(OnlyDots(Items()))
      ensures Valid() && NamesOnce(Items()) ==> r == Ok(forall n <- AsMap(Items()) :: n == DOT || n == DOTDOT)
    {
      hide BlockItems, Tiled, AllItems, AsMap, NamesOnce, OnlyDots;
      if NamesOnce(Items()) { DotsMap(Items()); }
      for lb := 0 to |blocks|
        invariant Valid() ==> forall i :: 0 <= i < lb ==> OnlyDots(SlotItems(blocks[i]))
      {
        assert Valid() ==> SlotOk(bs, blocks[lb]);
        if blocks[lb].Some? {
          var empty := BlockIsEmpty(blocks[lb].value);
          if empty.Err? { return Err(empty.error); }
          if !empty.value {
            if Valid() { NotOnlyDots(blocks, lb); }
            return Ok(false);
          }
        } else {
          NoItemsOnlyDots();
        }
      }
      if Valid() { OnlyDotsAll(blocks); }
      return Ok(true);
    }

    /** Points ".." at another directory and changes no other entry. */
    method SetParent(parent: nat) returns (r: Result<()>)
      requires Sized(bs, blocks) && 0 < parent < 0x1_0000_0000
      modifies this
      ensures Sized(bs, blocks) && (r.Err? ==> r == Err(Corrupt) && blocks == old(blocks)) && (r.Ok? ==> OneBlock(old(blocks), blocks, 0))
      ensures old(Valid()) && StartsWithDots(old(blocks)) && NamesOnce(old(Items())) ==>
                r.Ok? && Valid() && StartsWithDots(blocks) && ParentSet(old(Items()), Items(), parent)
    {
      hide BlockItems, AllItems, AsMap, NamesOnce, Dotted, Tiled;
      if blocks == [] || blocks[0].None? { return Err(Corrupt); }
      var b := SetParentInBlock(blocks[0].value, parent);
      if b.Err? { return Err(Corrupt); }
      ghost var items := Items();
      if Valid() && StartsWithDots(blocks) && NamesOnce(items) {
        assert SlotOk(bs, blocks[0]);
        ghost var up, ft :| ParentMoved(BlockItems(blocks[0].value), BlockItems(b.value), up, parent, ft);
        InSome(blocks, 0, Item(DOTDOT, up, ft));
        AllItemsUpdate(blocks, 0, Some(b.value));
        ghost var items' := AllItems(blocks[0 := Some(b.value)]);
        Exchange(items', items, BlockItems(blocks[0].value), BlockItems(b.value), multiset{Item(DOTDOT, up, ft)}, multiset{Item(DOTDOT, parent, ft)});
        MapExchange(items, items', DOTDOT, up, parent, ft);
      }
      blocks := blocks[0 := Some(b.value)];
      return Ok(());
    }
  }

  // ---- one block changed, seen from the whole directory ---------------------------------------

  /** A directory whose blocks are tiled and whose names are unique. */
  ghost predicate Sound(bs: nat, blocks: seq<Slot>) {
    SizeOk(bs) && (forall i :: 0 <= i < |blocks| ==> SlotOk(bs, blocks[i])) && NamesOnce(AllItems(blocks))
  }

  /** A block that gains an entry: insertion into the map if the name is new; otherwise two
      entries share it. */
  lemma Gained(bs: nat, blocks: seq<Slot>, k: nat, b: seq<byte>, it: Item)
    requires Sound(bs, blocks) && k < |blocks| && blocks[k].Some? && BlockGains(blocks[k].value, b, it)
    ensures var blocks' := blocks[k := Some(b)];
            if it.name in AsMap(AllItems(blocks)) then !Sound(bs, blocks')
            else
              && Sound(bs, blocks') && AsMap(AllItems(blocks')) == AsMap(AllItems(blocks))[it.name := it]
              && (StartsWithDots(blocks) ==> StartsWithDots(blocks'))
  {
    hide BlockItems, Tiled, AllItems, AsMap, NamesOnce, DotsKept, Dotted;
    assert SlotOk(bs, blocks[k]);
    var items := AllItems(blocks);
    AllItemsUpdate(blocks, k, Some(b));
    Gain(AllItems(blocks[k := Some(b)]), items, SlotItems(blocks[k]), multiset{it});
    DotsStay(blocks, k, b);
    NotInMap(items, it.name);
    if it.name in AsMap(items) { TwoAlike(items, it); } else { MapInsert(items, it); }
  }

  lemma TwoAlike(items: multiset<Item>, it: Item)
    requires !Absent(items, it.name)
    ensures !NamesOnce(items + multiset{it})
  {
    var x :| x in items && x.name == it.name;
    var m := items + multiset{it};
    assert x in m && it in m;
    if x == it { assert m[it] >= 2; }
  }

  /** A new block with one entry, likewise. */
  lemma GainedBlock(bs: nat, blocks: seq<Slot>, b: seq<byte>, it: Item)
    requires Sound(bs, blocks) && |b| == bs && Tiled(b) && BlockItems(b) == multiset{it}
    ensures var blocks' := blocks + [Some(b)];
            if it.name in AsMap(AllItems(blocks)) then !Sound(bs, blocks')
            else
              && Sound(bs, blocks') && AsMap(AllItems(blocks')) == AsMap(AllItems(blocks))[it.name := it]
              && (StartsWithDots(blocks) ==> StartsWithDots(blocks'))
  {
    hide BlockItems, Tiled, AllItems, AsMap, NamesOnce, Dotted;
    AllItemsConcat(blocks, [Some(b)]);
    AllItemsOne(Some(b));
    var items := AllItems(blocks);
    NotInMap(items, it.name);
    if it.name in AsMap(items) { TwoAlike(items, it); } else { MapInsert(items, it); }
  }

  /** A block that loses an entry: deletion from the map, and room for the name. */
  lemma Lost(bs: nat, blocks: seq<Slot>, k: nat, b: seq<byte>, name: seq<byte>, ino: nat)
    requires Sound(bs, blocks) && k < |blocks| && blocks[k].Some? && BlockLoses(blocks[k].value, b, name, ino)
    ensures var blocks', m := blocks[k := Some(b)], AsMap(AllItems(blocks));
            && Sound(bs, blocks') && name in m && m[name].ino == ino && AsMap(AllItems(blocks')) == m - {name} && RoomIn(blocks', name)
            && (name != DOT && name != DOTDOT && StartsWithDots(blocks) ==> StartsWithDots(blocks'))
  {
    hide BlockItems, Tiled, AllItems, AsMap, NamesOnce, HasRoom, DotsKept, Dotted;
    assert SlotOk(bs, blocks[k]);
    var items, blocks' := AllItems(blocks), blocks[k := Some(b)];
    var ft :| BlockItems(b) + multiset{Item(name, ino, ft)} == BlockItems(blocks[k].value);
    var it := Item(name, ino, ft);
    AllItemsUpdate(blocks, k, Some(b));
    Loss(AllItems(blocks'), items, SlotItems(Some(b)), multiset{it});
    MapDelete(AllItems(blocks'), it);
    assert it in items;
    MapLookup(items, name, it);
    if name != DOT && name != DOTDOT { DotsStay(blocks, k, b); }
    assert RoomAt(blocks'[k], name);
  }

  /** As a map, only the inode of ".." differs. */
  ghost predicate ParentSet(items: multiset<Item>, items': multiset<Item>, parent: nat) {
    && NamesOnce(items) && NamesOnce(items') && DOTDOT in AsMap(items)
    && AsMap(items') == AsMap(items)[DOTDOT := AsMap(items)[DOTDOT].(ino := parent)]
  }

  lemma Exchange(a': multiset<Item>, a: multiset<Item>, s: multiset<Item>, s': multiset<Item>, x: multiset<Item>, y: multiset<Item>)
    requires a' + s == a + s' && s' + x == s + y
    ensures a' + x == a + y
  {
    forall i ensures (a' + x)[i] == (a + y)[i] {
      assert (a' + s)[i] == (a + s')[i];
      assert (s' + x)[i] == (s + y)[i];
    }
  }

  /** Exchanging an entry for one with another inode updates the map at that name. */
  lemma MapExchange(items: multiset<Item>, items': multiset<Item>, name: seq<byte>, up: nat, to: nat, ft: byte)
    requires NamesOnce(items) && Item(name, up, ft) in items
    requires items' + multiset{Item(name, up, ft)} == items + multiset{Item(name, to, ft)}
    ensures NamesOnce(items') && name in AsMap(items)
    ensures AsMap(items') == AsMap(items)[name := AsMap(items)[name].(ino := to)]
  {
    hide NamesOnce, AsMap, Absent;
    var x, y := Item(name, up, ft), Item(name, to, ft);
    MapLookup(items, name, x);
    var f := AsMap(items);
    var rest := TakeOut(items, items', x, y);
    MapDelete(rest, x);
    MapInsert(rest, y);
    assert (f - {name})[name := y] == f[name := y];
  }

  lemma TakeOut(items: multiset<Item>, items': multiset<Item>, x: Item, y: Item) returns (rest: multiset<Item>)
    requires x in items && items' + multiset{x} == items + multiset{y}
    ensures items == rest + multiset{x} && items' == rest + multiset{y}
  {
    rest := items - multiset{x};
    forall i ensures items'[i] == (rest + multiset{y})[i] {
      assert (items' + multiset{x})[i] == (items + multiset{y})[i];
    }
  }

  lemma DotsOnly(self: nat, parent: nat, ft: byte)
    ensures var items := multiset{Item(DOT, self, ft), Item(DOTDOT, parent, ft)};
            NamesOnce(items) && AsMap(items) == map[DOT := Item(DOT, self, ft), DOTDOT := Item(DOTDOT, parent, ft)]
  {
    var items := multiset{Item(DOT, self, ft), Item(DOTDOT, parent, ft)};
    assert NamesOnce(items);
    AsMapIs(items, map[DOT := Item(DOT, self, ft), DOTDOT := Item(DOTDOT, parent, ft)]);
  }

  lemma NoItemsOnlyDots()
    ensures OnlyDots(SlotItems(None))
  {
  }

  lemma NotOnlyDots(blocks: seq<Slot>, i: nat)
    requires i < |blocks| && !OnlyDots(SlotItems(blocks[i]))
    ensures !OnlyDots(AllItems(blocks))
  {
    var it :| it in SlotItems(blocks[i]) && it.name != DOT && it.name != DOTDOT;
    InSome(blocks, i, it);
  }

  lemma {:induction false} OnlyDotsAll(blocks: seq<Slot>)
    requires forall i :: 0 <= i < |blocks| ==> OnlyDots(SlotItems(blocks[i]))
    ensures OnlyDots(AllItems(blocks))
  {
    hide SlotItems;
    if blocks != [] { OnlyDotsAll(blocks[1..]); }
  }

  lemma DotsMap(items: multiset<Item>)
    requires NamesOnce(items)
    ensures OnlyDots(items) <==> forall n <- AsMap(items) :: n == DOT || n == DOTDOT
  {
    hide AsMap, NamesOnce;
    AsMapRepresents(items);
    forall it | it in items ensures it.name in AsMap(items) {}
  }

  lemma NotInMap(items: multiset<Item>, name: seq<byte>)
    requires NamesOnce(items)
    ensures Absent(items, name) <==> name !in AsMap(items)
  {
  }

  lemma Gain(a': multiset<Item>, a: multiset<Item>, s: multiset<Item>, n: multiset<Item>)
    requires a' + s == a + (s + n)
    ensures a' == a + n
  {
    Cancel(a', a, s, n);
  }

  lemma Loss(a': multiset<Item>, a: multiset<Item>, s: multiset<Item>, n: multiset<Item>)
    requires a' + (s + n) == a + s
    ensures a' + n == a
  {
    forall x ensures (a' + n)[x] == a[x] { assert (a' + (s + n))[x] == (a + s)[x]; }
  }

  /** A fresh block holds one record that spans it. */
  method NewBlock(bs: nat, name: seq<byte>, child: nat, ft: byte) returns (b: seq<byte>)
    requires SizeOk(bs)
    requires |name| <= MAX_NAME && 0 < child < 0x1_0000_0000
    ensures |b| == bs && Tiled(b) && BlockItems(b) == multiset{Item(name, child, ft)}
  {
    hide RecAt, PutDirent;
    var r := Rec(child, bs, name, ft);
    assert Encodable(r);
    PutRec(Zeroes(bs), 0, r);
    b := PutDirent(Zeroes(bs), 0, r);
    SameLength(Zeroes(bs), b, 0, bs);
    TilesOne(b, 0, r);
    RecordsAre(b, [r]);
    ItemsOne(r);
  }
}
