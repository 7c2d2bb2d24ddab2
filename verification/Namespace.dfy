/** The namespace operations over inode records and a store of blocks, in which directories lie as
    record blocks. A failed creation gives an inode up with its record written; such a leftover
    still points at a block that is free and may go to anyone. */
module Namespace {
  import opened Common
  import opened Bits
  import opened FsErrors
  import opened DirRecords
  import opened DirBlock
  import D = Directory
  import opened NameTree
  import opened NameMoves
  import opened NameDirs
  import opened NameRename
  import opened NameSpec
  import opened NameFacts
  import opened InodeDirs
  import opened DirStore
  import opened NameStale

  /** The inode records of an empty filesystem whose root has its block at `home`. */
  function FormattedRecords(home: nat, count: nat): Records {
    map i | i in FreeInodes(1, count) :: if i == ROOT then DirRecord([home], 2) else OtherRecord(0)
  }

  function BlankStore(bs: nat, blocks: set<nat>): Store {
    map p | p in blocks :: Zeroes(bs)
  }

  lemma SeeFormatted(store: Store, home: nat, count: nat)
    requires ViewOf(Load(store, DirRecord([home], 2))) == Dir(map[DOT := ROOT, DOTDOT := ROOT], 2)
    ensures See(FormattedRecords(home, count), store, {}) == Formatted(count)
  {
    hide FreeInodes, NamesOf, Slots;
    var t, t' := See(FormattedRecords(home, count), store, {}), Formatted(count);
    assert t.Keys == t'.Keys;
    assert forall i <- t :: t[i] == t'[i];
  }

  lemma FormattedSound(bs: nat, store: Store, freeBlocks: set<nat>, home: nat, count: nat)
    requires Good(bs, Load(store, DirRecord([home], 2))) && home !in freeBlocks
    ensures var rs := FormattedRecords(home, count); Sane(bs, rs, store, {}) && Apart(rs, store, freeBlocks, {})
  {
    hide FreeInodes, RecordOk, DotsInFront;
    OtherOk(bs, 0);
  }

  class Namespace {
    const bs: nat
    const first: nat
    var records: Records
    var store: Store
    var freeBlocks: set<nat>
    var free: set<nat>
    /** Free inodes whose records a failed creation has left behind. */
    ghost var stale: set<nat>

    ghost predicate Formed()
      reads this
    {
      && D.SizeOk(bs) && stale <= free <= records.Keys && freeBlocks <= store.Keys
      && (forall i <- records :: 0 < i < 0x1_0000_0000) && (forall p <- store :: |store[p]| == bs)
    }

    /** Every directory that counts is sound, and its blocks are its own. */
    ghost predicate Valid()
      reads this
    {
      Formed() && Sane(bs, records, store, stale) && Apart(records, store, freeBlocks, stale)
    }

    ghost function View(): Table
      reads this
    {
      See(records, store, stale)
    }

    /** The namespace is a tree with exact link counts. */
    ghost predicate TreeOk()
      reads this
    {
      Inv(View(), free, first)
    }

    /** The inode with its blocks read in. */
    function At(i: nat): Inode
      requires i in records
      reads this
    {
      Load(store, records[i])
    }

    /** Nothing has changed. */
    twostate predicate Unchanged()
      reads this
    {
      records == old(records) && store == old(store) && freeBlocks == old(freeBlocks) && free == old(free) && stale == old(stale)
    }

    /** An empty filesystem: the root, and free inodes from `first` on. */
    constructor (bs: nat, first: nat, count: nat, blocks: set<nat>, home: nat, ft: byte)
      requires D.SizeOk(bs) && ROOT < first <= count < 0x1_0000_0000 && home !in blocks
      ensures Valid() && TreeOk() && View() == Formatted(count) && free == FreeInodes(first, count) && stale == {}
      ensures this.bs == bs && this.first == first && freeBlocks == blocks && records == FormattedRecords(home, count)
      ensures FreshAt(bs, records, store, ROOT, ROOT)
    {
      hide FreeInodes, ViewOf, RecordOk, DotsInFront, Inv, See, Sane, Apart, Formatted, D.RoomIn;
      var b := FreshIn(bs, ROOT, ROOT, ft);
      var s := BlankStore(bs, blocks)[home := b];
      assert Slots(s, [home]) == [Some(b)];
      FormattedInv(count, first);
      SeeFormatted(s, home, count);
      FormattedSound(bs, s, blocks, home, count);
      this.bs := bs;
      this.first := first;
      records := FormattedRecords(home, count);
      store := s;
      freeBlocks := blocks;
      free := FreeInodes(first, count);
      stale := {};
      new;
      forall i: nat ensures (i in FreeInodes(1, count) <==> 1 <= i <= count) && (i in FreeInodes(first, count) <==> first <= i <= count)
        && (i in records <==> i in FreeInodes(1, count))
      {
        InFreeInodes(1, count, i);
        InFreeInodes(first, count, i);
        FormattedKeys(home, count, i);
      }
      assert ROOT in records && records[ROOT] == DirRecord([home], 2);
    }

    // ---- reading ---------------------------------------------------------------------------------

    lemma Facts(i: nat)
      requires Formed()
      ensures (i in View() <==> i in records) && (i in free ==> i in records) && (i in stale ==> i in free) && D.SizeOk(bs)
      ensures i in records ==> (IsDir(View(), i) <==> records[i].DirRecord?) && (At(i).DirInode? <==> records[i].DirRecord?) && 0 < i < 0x1_0000_0000
      ensures i in records && records[i].DirRecord? ==> D.Sized(bs, At(i).blocks) && |At(i).blocks| == |records[i].ptrs| && At(i).links == records[i].links
      ensures i in records && i in stale ==> View()[i] == Hollow(records[i])
      ensures i in records && i !in stale ==>
                View()[i] == ViewOf(At(i)) && Links(View(), i) == records[i].links && (Valid() ==> RecordOk(bs, At(i)) && DotsInFront(At(i)))
    {
      hide See, RecordOk, DotsInFront, Apart;
      SeeAt(records, store, stale, i);
      if i in records { Kind(At(i)); }
    }

    /** What the search for a name in a directory that counts finds. */
    lemma Finds(d: nat, n: Name)
      requires Valid() && d in records && d !in stale && records[d].DirRecord?
      ensures var f := D.Finding(At(d).blocks, n);
              && f.Ok? && (f.value.Some? <==> n in EntriesAt(View(), d)) && (f.value.Some? ==> EntriesAt(View(), d)[n] == f.value.value.1)
      ensures EntriesAt(View(), d) == Entries(ViewOf(At(d)))
    {
      hide See, RecordOk, DotsInFront, Sane, Apart, D.Finding, ViewOf;
      Facts(d);
      FindsView(bs, At(d), n);
    }

    lemma FindsThere(d: nat, n: Name)
      requires Valid() && d in records && d !in stale && records[d].DirRecord?
      ensures Found(records, store, d, n) == Ok(Lookup(View(), d, n))
      ensures D.Finding(At(d).blocks, n).Ok? && (D.Finding(At(d).blocks, n).value.Some? <==> Lookup(View(), d, n).Some?)
    {
      hide Formed, See, Sane, Apart, D.Finding, Slots;
      Finds(d, n);
    }

    lemma InStore(p: nat)
      requires Formed() && p in freeBlocks
      ensures p in store
    {
    }

    // ---- single steps ------------------------------------------------------------------------------

    /** Whatever the users of other blocks write there, take or give back, the names stay. */
    method OthersWrite(store': Store, freeBlocks': set<nat>)
      requires Valid() && store'.Keys == store.Keys && freeBlocks' <= store'.Keys && (forall p <- store' :: |store'[p]| == bs)
      requires forall p <- store :: Owned(records, stale, p) ==> store'[p] == store[p] && p !in freeBlocks'
      modifies this`store, this`freeBlocks
      ensures Valid() && View() == old(View()) && store == store' && freeBlocks == freeBlocks'
    {
      hide Sane, Apart, See, Owned;
      OthersHarmNothing(bs, records, store, store', freeBlocks, freeBlocks', stale);
      store, freeBlocks := store', freeBlocks';
    }

    /** `adj_links`. */
    method Adjust(i: nat, delta: int)
      requires Formed() && i in records
      modifies this`records
      ensures Formed()
      ensures records == BumpedAt(old(records), i, delta)
      ensures i in stale ==> View() == old(View())
      ensures i in stale || records[i].OtherRecord? || (old(records)[i].links > 0 && records[i].links > 0) ==> (Valid() <==> old(Valid()))
      ensures old(Valid()) && i !in stale && (records[i].DirRecord? ==> old(records)[i].links > 0) ==>
                Valid() && i in old(View()) && View() == AdjLinks(old(View()), i, delta)
    {
      hide Sane, Apart, See, ViewOf, Good;
      var k, r := Clamp(records[i].links + delta), Bumped(records[i], delta);
      Facts(i);
      if i in stale {
        StaleWritten(bs, records, store, freeBlocks, stale, i, r);
      } else {
        ApartLinks(records, store, freeBlocks, stale, i, r);
        RecordSet(bs, records, store, stale, i, r);
        assert stale - {i} == stale;
        LinksOnly(bs, At(i), Load(store, r), k);
        SaneAt(bs, records, store, stale, i);
        SaneAt(bs, records[i := r], store, stale, i);
      }
      records := records[i := r];
    }

    /** `alloc_inode` and the record of a new file. */
    method ClaimFile(i: nat)
      requires Formed() && i in free
      modifies this`records, this`free, this`stale
      ensures Formed() && records == old(records)[i := OtherRecord(1)] && free == old(free) - {i} && stale == old(stale) - {i}
      ensures old(Valid()) ==> Valid() && View() == old(View())[i := Leaf(1)]
    {
      hide Sane, Apart, See, ViewOf, RecordOk, DotsInFront;
      OtherOk(bs, 1);
      RecordSet(bs, records, store, stale, i, OtherRecord(1));
      if Valid() { ApartEmpty(records, store, freeBlocks, stale, i, OtherRecord(1)); }
      records := records[i := OtherRecord(1)];
      free := free - {i};
      stale := stale - {i};
    }

    /** `alloc_inode`, `alloc_zeroed_block`, and block and record of a new directory. */
    method ClaimDir(i: nat, blk: nat, b: seq<byte>)
      requires Formed() && i in free && blk in freeBlocks && |b| == bs
      modifies this
      ensures Formed() && records == old(records)[i := DirRecord([blk], 2)] && store == old(store)[blk := b]
      ensures freeBlocks == old(freeBlocks) - {blk} && free == old(free) - {i} && stale == old(stale) - {i}
      ensures At(i) == DirInode([Some(b)], 2)
      ensures old(Valid()) && Good(bs, DirInode([Some(b)], 2)) ==> Valid() && View() == old(View())[i := ViewOf(DirInode([Some(b)], 2))]
    {
      hide Sane, Apart, See, ViewOf, Good;
      var r, store' := DirRecord([blk], 2), store[blk := b];
      assert Slots(store', [blk]) == [Some(b)];
      if Valid() {
        FreeNotOwned(records, store, freeBlocks, stale, blk);
        ForeignWrite(bs, records, store, stale, blk, b);
        ApartWrite(records, store, freeBlocks, stale, blk, b);
        ApartTake(records, store', freeBlocks, stale, i, r, blk);
      }
      RecordSet(bs, records, store', stale, i, r);
      records, store := records[i := r], store';
      freeBlocks := freeBlocks - {blk};
      free := free - {i};
      stale := stale - {i};
    }

    /** `free_inode`, and `free_block`, after a failed creation: the record stays as written. */
    method Disclaim(i: nat)
      requires Formed() && i in records && i !in stale && Blocks(records[i]) <= store.Keys
      modifies this`free, this`stale, this`freeBlocks
      ensures Formed() && free == old(free) + {i} && stale == old(stale) + {i} && freeBlocks == old(freeBlocks) + Blocks(records[i])
      ensures old(Valid()) ==> Valid() && View() == old(View())[i := Hollow(records[i])]
    {
      hide Sane, See, Apart, Blocks;
      GivenUp(bs, records, store, stale, i);
      if Valid() {
        OwnsLess(records, stale, i);
        ApartGive(records, records, store, freeBlocks, stale, stale + {i}, i);
      }
      free := free + {i};
      stale := stale + {i};
      freeBlocks := freeBlocks + Blocks(records[i]);
    }

    /** `truncate_blocks` to nothing: every block of the record is given back, each once. */
    method FreePtrs(ptrs: seq<nat>) returns (r: Result<()>)
      requires Formed()
      modifies this`freeBlocks
      ensures Formed() && (r.Err? ==> r == Err(Corrupt)) && old(freeBlocks) <= freeBlocks
      ensures r.Ok? ==> freeBlocks == old(freeBlocks) + set k | 0 <= k < |ptrs| && ptrs[k] in store :: ptrs[k]
      ensures (&& (forall k, m :: 0 <= k < m < |ptrs| && ptrs[k] in store ==> ptrs[k] != ptrs[m])
               && (forall k :: 0 <= k < |ptrs| && ptrs[k] in store ==> ptrs[k] !in old(freeBlocks))) ==> r.Ok?
    {
      for n := 0 to |ptrs|
        invariant Formed() && freeBlocks == old(freeBlocks) + set k | 0 <= k < n && ptrs[k] in store :: ptrs[k]
      {
        if ptrs[n] in store {
          if ptrs[n] in freeBlocks { return Err(Corrupt); }
          freeBlocks := freeBlocks + {ptrs[n]};
        }
      }
      r := Ok(());
    }

    /** The record is emptied, its blocks having been given back. */
    method Empty(i: nat, ghost was: set<nat>)
      requires Formed() && i in records && was <= freeBlocks && (records[i].OtherRecord? ==> freeBlocks == was)
      requires i !in stale ==> freeBlocks <= was + Blocks(records[i])
      modifies this`records, this`stale
      ensures Formed() && stale == old(stale) - {i}
      ensures records == old(records)[i := if old(records)[i].DirRecord? then DirRecord([], 0) else OtherRecord(0)]
      ensures i in old(stale) ==> View() == old(View()) && (old(Valid()) ==> Valid())
      ensures i !in old(stale) && old(Sane(bs, records, store, stale)) && old(Apart(records, store, was, stale)) ==>
                Valid() && i in old(View()) && View() == Destroy(old(View()), i)
    {
      hide Sane, Apart, See, ViewOf, RecordOk, DotsInFront;
      Facts(i);
      var v := if records[i].DirRecord? then DirRecord([], 0) else OtherRecord(0);
      DeadRecord(bs, store, v);
      RecordSet(bs, records, store, stale, i, v);
      if i in stale {
        GoneStale(bs, records, store, stale, i, v);
        if Valid() { ApartEmpty(records, store, freeBlocks, stale, i, v); }
      } else if Apart(records, store, was, stale) {
        EmptiedApart(records, store, was, freeBlocks, stale, i, v);
      }
      records := records[i := v];
      stale := stale - {i};
    }

    /** `destroy_inode`. The kind stays; contents and links go. A number that is reserved or free
        cannot be freed, nor can a block that is free already. */
    method DestroyInode(i: nat) returns (r: Result<()>)
      requires Formed() && i in records
      modifies this`records, this`free, this`stale, this`freeBlocks
      ensures Formed() && i in records && records == old(records)[i := records[i]] && (r.Ok? ==> i !in old(free)) && old(freeBlocks) <= freeBlocks
      ensures records[i].DirRecord? <==> old(records)[i].DirRecord?
      ensures old(stale) - {i} <= stale <= old(stale)
      ensures free == if r.Ok? then old(free) + {i} else old(free)
      ensures i in old(stale) ==> View() == old(View()) && (old(Valid()) && records[i].OtherRecord? ==> Valid())
      ensures records[i].OtherRecord? ==> freeBlocks == old(freeBlocks)
      ensures old(Valid()) && i !in old(stale) ==>
                && Valid() && stale == old(stale) && i in old(View()) && View() == Destroy(old(View()), i)
                && r == if i < first then Err(Invalid) else if i in old(free) then Err(Corrupt) else Ok(())
      ensures old(Valid()) && i !in old(stale) ==> freeBlocks == old(freeBlocks) + (Blocks(old(records)[i]) * store.Keys)
    {
      hide Sane, Apart, See, Destroy;
      if records[i].DirRecord? {
        if Valid() && i !in stale { OwnPtrs(records, store, freeBlocks, stale, i); }
        var cut := FreePtrs(records[i].ptrs);
        if cut.Err? { return cut; }
      }
      assert i !in stale && old(Valid()) ==> freeBlocks == old(freeBlocks) + (Blocks(records[i]) * store.Keys);
      Empty(i, old(freeBlocks));
      assert i !in old(stale) ==> stale == old(stale);
      if i < first { return Err(Invalid); }
      if i in free { return Err(Corrupt); }
      free := free + {i};
      r := Ok(());
    }

    // ---- entries -----------------------------------------------------------------------------------

    ghost predicate Granted(grow: Result<nat>)
      reads this
    {
      grow.Ok? ==> grow.value in freeBlocks
    }

    /** A block of a directory is written, or a granted one appended. */
    method Apply(dir: nat, e: Edit, grow: Result<nat>)
      requires Formed() && dir in records && records[dir].DirRecord? && |e.bytes| == bs && e.slot <= |records[dir].ptrs|
      requires if e.slot < |records[dir].ptrs| then records[dir].ptrs[e.slot] in store else grow.Ok? && Granted(grow)
      modifies this`records, this`store, this`freeBlocks
      ensures Formed()
      ensures e.slot < |old(records)[dir].ptrs| ==>
                records == old(records) && freeBlocks == old(freeBlocks) && store == old(store)[records[dir].ptrs[e.slot] := e.bytes]
      ensures e.slot == |old(records)[dir].ptrs| ==>
                && records == old(records)[dir := DirRecord(old(records)[dir].ptrs + [grow.value], old(records)[dir].links)]
                && freeBlocks == old(freeBlocks) - {grow.value} && store == old(store)[grow.value := e.bytes]
      ensures old(Valid()) ==>
                var o := Behind(old(records), stale, dir, e.slot);
                if o.None? then Valid() && View() == old(View())
                else
                  var (d, k) := o.value;
                  && d in old(records) && d !in stale && old(records)[d].DirRecord? && k <= |old(records)[d].ptrs|
                  && (e.slot < |old(records)[dir].ptrs| ==> k < |old(records)[d].ptrs| && old(At(d)).blocks[k] == old(At(dir)).blocks[e.slot])
                  && (e.slot == |old(records)[dir].ptrs| ==> d == dir && k == e.slot)
                  && View() == old(View())[d := ViewOf(Applied(old(At(d)), Edit(k, e.bytes)))]
                  && (Valid() <==> Good(bs, Applied(old(At(d)), Edit(k, e.bytes))))
    {
      hide Sane, Apart, See, ViewOf, Good;
      if e.slot < |records[dir].ptrs| {
        var p := records[dir].ptrs[e.slot];
        if Valid() {
          ApartWrite(records, store, freeBlocks, stale, p, e.bytes);
          ghost var o := Behind(records, stale, dir, e.slot);
          if o.Some? {
            OwnedWrite(bs, records, store, freeBlocks, stale, o.value.0, o.value.1, p, e.bytes);
          } else {
            ForeignWrite(bs, records, store, stale, p, e.bytes);
          }
        }
        store := store[p := e.bytes];
      } else {
        var r := DirRecord(records[dir].ptrs + [grow.value], records[dir].links);
        if Valid() { Appended(bs, records, store, freeBlocks, stale, dir, grow.value, e.bytes); }
        store := store[grow.value := e.bytes];
        records := records[dir := r];
        freeBlocks := freeBlocks - {grow.value};
      }
    }

    /** `dir_add` on what is a plain file by now: the entry goes into a block of its own. */
    method AddToFile(name: Name, child: nat, ft: byte, grow: Result<nat>) returns (r: Result<()>)
      requires Formed() && 0 < child < 0x1_0000_0000 && D.ValidateName(name).None? && Granted(grow)
      modifies this`store, this`freeBlocks
      ensures Formed() && r == (if grow.Err? then Err(grow.error) else Ok(())) && (old(Valid()) ==> Valid() && View() == old(View()))
      ensures freeBlocks == old(freeBlocks) - (if grow.Ok? then {grow.value} else {}) && Touched(old(store), store, if grow.Ok? then {grow.value} else {})
    {
      hide Sane, Apart, See, D.ValidateName, Owned;
      if grow.Err? { return Err(grow.error); }
      ShortName(name);
      var page := D.NewBlock(bs, name, child, ft);
      if Valid() {
        FreeNotOwned(records, store, freeBlocks, stale, grow.value);
        ForeignWrite(bs, records, store, stale, grow.value, page);
        ApartWrite(records, store, freeBlocks, stale, grow.value, page);
        ApartSame(records, records, store[grow.value := page], freeBlocks, freeBlocks - {grow.value}, stale, stale);
      }
      store := store[grow.value := page];
      freeBlocks := freeBlocks - {grow.value};
      return Ok(());
    }

    /** `dir_add`: the name goes into whatever directory is behind the block it lands in. */
    method AddTo(dir: nat, name: Name, child: nat, ft: byte, grow: Result<nat>) returns (r: Result<()>)
      requires Formed() && dir in records && 0 < child < 0x1_0000_0000 && D.ValidateName(name).None? && Granted(grow)
      modifies this`records, this`store, this`freeBlocks
      ensures Formed() && r == AddAnswer(old(records), old(store), dir, name, grow)
      ensures r.Err? ==> records == old(records) && store == old(store) && freeBlocks == old(freeBlocks)
      ensures Stays(old(records), old(store), dir, name, grow) ==>
                records == old(records) && freeBlocks == old(freeBlocks) && Touched(old(store), store, BlocksAt(old(records), dir))
      ensures dir in records && records == old(records)[dir := records[dir]] && records[dir].links == old(records)[dir].links
      ensures records[dir].DirRecord? <==> old(records)[dir].DirRecord?
      ensures freeBlocks <= old(freeBlocks) && Touched(old(store), store, Reach(old(records), dir, grow))
      ensures freeBlocks >= old(freeBlocks) - (if grow.Ok? then {grow.value} else {})
      ensures old(Valid()) && r.Ok? ==>
                var w := Receiver(old(records), old(store), stale, dir, name);
                if w.None? then Valid() && View() == old(View())
                else
                  && IsDir(old(View()), w.value) && w.value !in stale
                  && if name in EntriesAt(old(View()), w.value) then !Valid() else Valid() && View() == AddEntry(old(View()), w.value, name, child)
    {
      hide Sane, Apart, See, ViewOf, RecordOk, DotsInFront, Behind, Adds, D.ValidateName, D.Landing, Owned;
      Facts(dir);
      if records[dir].OtherRecord? {
        r := AddToFile(name, child, ft, grow);
        return;
      }
      var v := At(dir);
      LandsInside(v.blocks, name);
      var e := AddIn(bs, v, name, child, ft, grow);
      if e.Err? { return Err(e.error); }
      AddsShape(bs, v, e.value, Item(name, child, ft));
      ghost var o := Behind(records, stale, dir, e.value.slot);
      ghost var was := if o.Some? && o.value.0 in records then At(o.value.0) else v;
      if o.Some? && o.value.0 in records { Facts(o.value.0); }
      Apply(dir, e.value, grow);
      if old(Valid()) && o.Some? { AddsBehind(bs, v, e.value, was, o.value.1, Item(name, child, ft)); }
      r := Ok(());
    }

    /** `dir_remove`: the name goes from whatever directory is behind the block it is found in. */
    method RemoveFrom(dir: nat, name: Name) returns (r: Result<()>)
      requires Formed() && dir in records && records[dir].DirRecord?
      modifies this`records, this`store, this`freeBlocks
      ensures Formed() && (r.Err? ==> store == old(store)) && Touched(old(store), store, BlocksAt(records, dir)) && records == old(records) && freeBlocks == old(freeBlocks)
      ensures r == var f := D.Finding(old(At(dir)).blocks, name);
                   if f.Err? then Err(f.error) else if f.value.None? then Err(NotFound) else Ok(())
      ensures old(Valid()) && r.Ok? ==>
                var h := Holder(records, old(store), stale, dir, name);
                if h.None? then Valid() && View() == old(View())
                else
                  && IsDir(old(View()), h.value) && h.value !in stale && (!Dots(name) ==> Valid())
                  && Lookup(old(View()), h.value, name) == Some(D.Finding(old(At(dir)).blocks, name).value.value.1)
                  && View() == DelEntry(old(View()), h.value, name)
      ensures old(Valid()) && r.Ok? && dir !in stale ==> D.RoomIn(At(dir).blocks, name)
    {
      hide Sane, Apart, See, ViewOf, RecordOk, DotsInFront, Behind, Removes, D.Finding, D.RoomIn;
      Facts(dir);
      var v := At(dir);
      FindsInside(v.blocks, name);
      var e := RemoveIn(bs, v, name);
      if e.Err? { return Err(e.error); }
      ghost var ino := D.Finding(v.blocks, name).value.value.1;
      RemovesShape(bs, v, e.value, name, ino);
      ghost var o := Behind(records, stale, dir, e.value.slot);
      ghost var was := if o.Some? && o.value.0 in records then At(o.value.0) else v;
      if o.Some? && o.value.0 in records { Facts(o.value.0); }
      Apply(dir, e.value, Err(NoSpace));
      if old(Valid()) && o.Some? { RemovesBehind(bs, v, e.value, was, o.value.1, name, ino); }
      if old(Valid()) && dir !in stale {
        BehindSelf(records, stale, dir, e.value.slot);
        RoomAtSlot(bs, v, e.value, name, ino, At(dir).blocks);
      }
      r := Ok(());
    }

    // ---- create and mkdir ------------------------------------------------------------------------

    /** For a directory that counts they are those of the tree. */
    lemma RefusalIs(dir: nat, name: Name, isDir: bool)
      requires Valid() && dir !in stale
      ensures CreateRefusal(records, store, dir, name, isDir) == CreateRefused(View(), dir, name, isDir)
    {
      hide Sane, Apart, See, D.Finding, D.ValidateName;
      Facts(dir);
      if dir in records && records[dir].DirRecord? { Finds(dir, name); }
    }

    /** So is the answer of `dir_add`. */
    lemma AnswerIs(dir: nat, name: Name, grow: Result<nat>)
      requires Valid() && dir in records && dir !in stale && records[dir].DirRecord?
      ensures AddAnswer(records, store, dir, name, grow) == if grow.Err? && !Fits(records, store, dir, name) then Err(grow.error) else Ok(())
      ensures Receiver(records, store, stale, dir, name) == Some(dir)
      ensures Stays(records, store, dir, name, grow) <==> grow.Err? || Fits(records, store, dir, name)
    {
      hide Sane, Apart, See, D.Landing, D.RoomIn, RecordOk, DotsInFront;
      Facts(dir);
      LandsView(bs, At(dir), name);
    }

    /** The inode a failed creation had taken is free again, but its record stays written. */
    twostate predicate LeftBehind(i: nat, v: Record)
      reads this
    {
      && i in old(free) && free == old(free) && stale == old(stale) + {i} && freeBlocks == old(freeBlocks)
      && records == old(records)[i := v]
    }

    /** The checks before a creation. */
    method MayCreate(dir: nat, name: Name, isDir: bool) returns (e: Option<FsError>)
      requires Formed()
      ensures e == CreateRefusal(records, store, dir, name, isDir)
    {
      hide See, D.ValidateName, D.Finding;
      var bad := D.ValidateName(name);
      if bad.Some? { return bad; }
      if dir !in records { return Some(Invalid); }
      var d := records[dir];
      Facts(dir);
      if d.OtherRecord? { return Some(NotDirectory); }
      if d.links == 0 { return Some(NotFound); }
      if isDir && d.links >= MAX_LINKS { return Some(TooManyLinks); }
      var found := FindIn(bs, At(dir), name);
      if found.Err? { return Some(found.error); }
      if found.value.Some? { return Some(Exists); }
      e := None;
    }

    /** `create`; `pick` is the inode that is next in the bitmap, and `grow` the block the file layer
        would append to the directory, or its error. An accepted call keeps the tree exactly if the
        name goes into a directory in use that lacks it: always, unless the directory is a leftover.
        A refused one changes no name; the record of the inode stays behind exactly if the directory
        cannot take the name. A leftover that is itself picked is a plain file when the name is added. */
    method Create(dir: nat, name: Name, ft: byte, grow: Result<nat>, pick: nat) returns (r: Result<nat>)
      requires Valid() && TreeOk() && (free == {} || pick in free) && Granted(grow)
      modifies this
      ensures Formed()
      ensures var e := CreateRefusal(old(records), old(store), dir, name, false);
              if e.Some? then r == Err(e.value)
              else if old(free) == {} then r == Err(NoSpace)
              else
                var a := if dir == pick then (if grow.Err? then Err(grow.error) else Ok(())) else AddAnswer(old(records), old(store), dir, name, grow);
                r == if a.Err? then Err(a.error) else Ok(pick)
      ensures r.Ok? ==> (Valid() && TreeOk() <==> dir != pick && Welcome(old(records), old(store), old(stale), dir, name))
      ensures dir !in old(stale) && r.Ok? ==> Valid() && TreeOk()
      ensures dir !in old(stale) && r.Ok? ==> IsCreated(old(View()), View(), dir, name, pick, false)
      ensures dir !in old(stale) ==> CreateRefusal(old(records), old(store), dir, name, false) == CreateRefused(old(View()), dir, name, false)
      ensures dir !in old(stale) && CreateRefusal(old(records), old(store), dir, name, false).None? && old(free) != {} ==>
                (r.Err? <==> grow.Err? && !Fits(old(records), old(store), dir, name))
      ensures r.Err? ==> Valid() && TreeOk() && forall x, m :: Lookup(View(), x, m) == Lookup(old(View()), x, m)
      ensures if CreateRefusal(old(records), old(store), dir, name, false).None? && old(free) != {} && r.Err?
              then LeftBehind(pick, OtherRecord(1)) && store == old(store) else r.Err? ==> Unchanged()
      ensures r.Ok? ==> free == old(free) - {pick} && stale == old(stale) - {pick}
      ensures r.Ok? && dir != pick && Stays(old(records), old(store), dir, name, grow) ==>
                records == old(records)[pick := OtherRecord(1)] && freeBlocks == old(freeBlocks) && Touched(old(store), store, BlocksAt(old(records), dir))
    {
      hide Formed, Sane, Apart, See, Inv, D.ValidateName, D.RoomIn, D.Finding, D.Landing, Receiver, Slots, D.Sized, Touched, RecordOk, DotsInFront, ViewOf,
        Fits, Found;
      ghost var t, f := View(), free;
      if dir !in stale { RefusalIs(dir, name, false); }
      var e := MayCreate(dir, name, false);
      if e.Some? { return Err(e.value); }
      if free == {} { return Err(NoSpace); }
      Facts(dir);
      if dir !in stale {
        AnswerIs(dir, name, grow);
        Finds(dir, name);
      }
      ghost var w := Receiver(records, store, stale, dir, name);
      if dir != pick { ReceiverClaim(records, store, freeBlocks, stale, pick, dir, name); }
      FreeFacts(t, free, first, pick);
      Facts(pick);
      ClaimFile(pick);
      ghost var w' := Receiver(records, store, stale, dir, name);
      if dir == pick { NoReceiver(records, store, stale, dir, name); }
      var added := AddTo(dir, name, pick, ft, grow);
      if added.Err? {
        NoBlocksOf(records[pick]);
        Disclaim(pick);
        EmptyInv(t, f, first, pick, Leaf(0));
        SetTwice(t, pick, Leaf(1), Leaf(0));
        PutBack(f, pick);
        PutBack2(old(stale), pick);
        return Err(added.error);
      }
      Created1(t, f, first, pick, name, w', View(), Valid());
      r := Ok(pick);
    }

    /** The second half of `mkdir`: the new directory `pick` is written, and its name is to be added. */
    method EnterDir(dir: nat, name: Name, pick: nat, blk: nat, ft: byte, grow: Result<nat>, ghost t: Table, ghost f: set<nat>)
      returns (r: Result<nat>)
      requires Valid() && dir in records && records[dir].DirRecord? && D.ValidateName(name).None? && Granted(grow)
      requires pick in records && records[pick] == DirRecord([blk], 2) && blk in store && pick !in stale && free == f - {pick} && pick in f
      requires Inv(t, f, first) && View() == t[pick := FreshNode(pick, dir)]
      requires dir !in stale && dir != pick ==> CreateRefused(t, dir, name, true).None?
      modifies this
      ensures Formed() && r == (var a := AddAnswer(old(records), old(store), dir, name, grow); if a.Err? then Err(a.error) else Ok(pick))
      ensures r.Err? ==> Valid() && TreeOk() && View() == t[pick := Dir(map[], 0)] && forall x, m :: Lookup(View(), x, m) == Lookup(t, x, m)
      ensures r.Err? ==> records == old(records) && store == old(store) && free == f && stale == old(stale) + {pick} && freeBlocks == old(freeBlocks) + {blk}
      ensures r.Ok? ==> (Valid() && TreeOk() <==> dir !in stale && dir != pick)
      ensures r.Ok? && dir !in stale && dir != pick ==> IsCreated(t, View(), dir, name, pick, true)
      ensures r.Ok? ==> free == old(free) && stale == old(stale)
      ensures r.Ok? && Stays(old(records), old(store), dir, name, grow) ==>
                records == BumpedAt(old(records), dir, 1) && freeBlocks == old(freeBlocks) && Touched(old(store), store, BlocksAt(old(records), dir))
    {
      hide Formed, Sane, Apart, See, Inv, D.ValidateName, D.RoomIn, D.Finding, D.Landing, Receiver, Lookup, EntriesAt, LiveDir, IsDir, IsCreated,
        CreateRefused, Blocks, AddEntry, AdjLinks, FreshNode, Load, Slots, D.Sized, Touched, AddAnswer, RecordOk, DotsInFront, ViewOf, Fits;
      Facts(dir);
      Facts(pick);
      ghost var t1, w := View(), Receiver(records, store, stale, dir, name);
      if dir !in stale { AnswerIs(dir, name, grow); }
      LiveLinks(t, pick, dir, name, records[dir].links);
      OneBlockOf(records[pick], blk);
      var added := AddTo(dir, name, pick, ft, grow);
      if added.Err? {
        Disclaim(pick);
        EmptyInv(t, f, first, pick, Dir(map[], 0));
        SetTwice(t, pick, FreshNode(pick, dir), Dir(map[], 0));
        PutBack(f, pick);
        return Err(added.error);
      }
      ghost var t2, valid := View(), Valid();
      Facts(dir);
      StaleIsDead(View(), records, stale, dir);
      Adjust(dir, 1);
      ghost var valid' := Valid();
      Entered(t, f, first, pick, dir, name, dir in stale, w, t2, valid, View(), valid');
      assert free == f - {pick};
      assert TreeOk() <==> Inv(View(), f - {pick}, first);
      assert valid' && TreeOk() <==> dir !in stale && dir != pick;
      r := Ok(pick);
    }

    /** `mkdir`; `blk` is the block that is next in the bitmap. An accepted call keeps the tree exactly
        if the directory is no leftover, whatever a leftover points at. A refused one changes no name. */
    method Mkdir(dir: nat, name: Name, ft: byte, grow: Result<nat>, blk: nat, pick: nat) returns (r: Result<nat>)
      requires Valid() && TreeOk() && (free == {} || pick in free) && (freeBlocks == {} || blk in freeBlocks)
      requires Granted(grow) && grow != Ok(blk)
      modifies this
      ensures Formed()
      ensures var e := CreateRefusal(old(records), old(store), dir, name, true);
              if e.Some? then r == Err(e.value)
              else if old(free) == {} || old(freeBlocks) == {} then r == Err(NoSpace)
              else
                && (r.Ok? ==> r.value == pick)
                && (dir !in old(stale) ==> r == if grow.Err? && !Fits(old(records), old(store), dir, name) then Err(grow.error) else Ok(pick))
      ensures r.Ok? ==> (Valid() && TreeOk() <==> dir !in old(stale))
      ensures dir !in old(stale) && r.Ok? ==> IsCreated(old(View()), View(), dir, name, pick, true)
      ensures dir !in old(stale) ==> CreateRefusal(old(records), old(store), dir, name, true) == CreateRefused(old(View()), dir, name, true)
      ensures r.Err? ==> Valid() && TreeOk() && forall x, m :: Lookup(View(), x, m) == Lookup(old(View()), x, m)
      ensures r.Err? ==> View() == old(View()) || View() == old(View())[pick := Dir(map[], 0)]
      ensures r.Ok? ==> free == old(free) - {pick} && stale == old(stale) - {pick}
      ensures r.Ok? && dir !in old(stale) && Stays(old(records), old(store), dir, name, grow) ==>
                && records == BumpedAt(old(records)[pick := DirRecord([blk], 2)], dir, 1)
                && freeBlocks == old(freeBlocks) - {blk} && Touched(old(store), store, BlocksAt(old(records), dir) + {blk})
      ensures var left := CreateRefusal(old(records), old(store), dir, name, true).None? && old(free) != {} && old(freeBlocks) != {} && r.Err?;
              && (left ==> LeftBehind(pick, DirRecord([blk], 2)) && Touched(old(store), store, {blk})) && (r.Err? && !left ==> Unchanged())
              && (left || (r.Ok? && dir !in old(stale) && Stays(old(records), old(store), dir, name, grow)) ==> FreshAt(bs, records, store, pick, dir))
    {
      hide Formed, Sane, Apart, See, Inv, D.ValidateName, D.RoomIn, D.Finding, D.Landing, Receiver, FreshRecord, FreshAt, Made, MadeDir, Lookup, EntriesAt,
        LiveDir, IsDir, IsCreated, CreateRefused, Blocks, FreshNode, Slots, D.Sized, Touched, RecordOk, DotsInFront, ViewOf, Fits, Good, Found;
      ghost var t, f := View(), free;
      if dir !in stale { RefusalIs(dir, name, true); }
      var e := MayCreate(dir, name, true);
      if e.Some? { return Err(e.value); }
      if free == {} || freeBlocks == {} { return Err(NoSpace); }
      Facts(dir);
      Facts(pick);
      if dir !in stale {
        AnswerIs(dir, name, grow);
        Finds(dir, name);
      }
      FreeFacts(t, free, first, pick);
      InStore(blk);
      var b := FreshIn(bs, pick, dir, ft);
      FreshGood(bs, DirInode([Some(b)], 2), pick, dir);
      ClaimDir(pick, blk, b);
      if dir !in old(stale) {
        Aside(old(records), old(store), old(freeBlocks), old(stale), dir, blk, b);
      }
      ghost var store1 := store;
      PutBack2(old(stale), pick);
      PutBack(old(freeBlocks), blk);
      r := EnterDir(dir, name, pick, blk, ft, grow, t, f);
      TouchWrite(old(store), blk, b, store, BlocksAt(old(records), dir));
      if r.Err? || (dir !in old(stale) && Stays(old(records), old(store), dir, name, grow)) { FreshStays(bs, records, store1, store, pick, blk, b, dir, BlocksAt(old(records), dir)); }
    }

    // ---- link ----------------------------------------------------------------------------------

    lemma LinkRefusalIs(dir: nat, name: Name, target: nat)
      requires Valid() && dir !in stale && target !in stale
      ensures LinkRefusal(records, store, dir, name, target) == LinkRefused(View(), dir, name, target)
    {
      hide Sane, Apart, See, D.Finding, D.ValidateName, Slots, D.Sized, RecordOk, DotsInFront;
      Facts(dir);
      Facts(target);
      if dir in records && records[dir].DirRecord? { Finds(dir, name); }
    }

    /** Hard link. An accepted call keeps the tree exactly if the name goes into a directory in use
        that lacks it and the target is in use, or a leftover target gets a name nobody sees. */
    method Link(dir: nat, name: Name, target: nat, ft: byte, grow: Result<nat>) returns (r: Result<()>)
      requires Valid() && TreeOk() && Granted(grow)
      modifies this`records, this`store, this`freeBlocks
      ensures Formed() && (r.Err? ==> Unchanged())
      ensures r == var e := LinkRefusal(old(records), old(store), dir, name, target);
                   if e.Some? then Err(e.value) else AddAnswer(old(records), old(store), dir, name, grow)
      ensures r.Ok? ==>
                (Valid() && TreeOk() <==>
                 if target in stale then Receiver(old(records), old(store), stale, dir, name).None?
                 else Welcome(old(records), old(store), stale, dir, name) && Links(old(View()), target) > 0)
      ensures dir !in stale && target !in stale ==> LinkRefusal(old(records), old(store), dir, name, target) == LinkRefused(old(View()), dir, name, target)
      ensures dir !in stale && target !in stale && r.Ok? ==>
                && Valid() && IsLinked(old(View()), View(), dir, name, target)
                && (TreeOk() <==> LiveDir(old(View()), dir) && Links(old(View()), target) > 0)
      ensures r.Ok? && Stays(old(records), old(store), dir, name, grow) ==>
                records == BumpedAt(old(records), target, 1) && freeBlocks == old(freeBlocks) && Touched(old(store), store, BlocksAt(old(records), dir))
    {
      hide Formed, Sane, Apart, See, Inv, D.ValidateName, D.RoomIn, D.Finding, D.Landing, Receiver, Slots, D.Sized, Touched, RecordOk, DotsInFront, ViewOf,
        Fits, Blocks, AddAnswer, Lookup, AddEntry, AdjLinks, IsLinked;
      ghost var t, w := View(), Receiver(records, store, stale, dir, name);
      if dir !in stale && target !in stale { LinkRefusalIs(dir, name, target); }
      Facts(dir);
      Facts(target);
      var bad := D.ValidateName(name);
      if bad.Some? { return Err(bad.value); }
      if target !in records { return Err(Invalid); }
      var v := records[target];
      if v.DirRecord? { return Err(IsDirectory); }
      if v.links >= MAX_LINKS { return Err(TooManyLinks); }
      if dir !in records { return Err(Invalid); }
      if records[dir].OtherRecord? { return Err(NotDirectory); }
      var found := FindIn(bs, At(dir), name);
      if found.Err? { return Err(found.error); }
      if found.value.Some? { return Err(Exists); }
      if dir !in stale {
        AnswerIs(dir, name, grow);
        Finds(dir, name);
      }
      r := AddTo(dir, name, target, ft, grow);
      if r.Err? { return; }
      ghost var t2, valid := View(), Valid();
      Adjust(target, 1);
      ghost var valid' := Valid();
      Linked1(t, free, first, w, name, target, target in stale, t2, valid, View(), valid');
    }

    // ---- unlink and rmdir ------------------------------------------------------------------------

    /** What an entry of the tree leads to is in use. */
    lemma Target(d: nat, n: Name, i: nat)
      requires Formed() && TreeOk() && Lookup(View(), d, n) == Some(i)
      ensures i in records && i in View() && i !in stale && i !in free && Links(View(), i) > 0 && LiveDir(View(), d) && d !in stale && d in records
      ensures (i >= first || i == ROOT) && Links(View(), i) <= LINKS_CAP && Links(View(), i) == records[i].links
    {
      hide Shape, Formed, See, Sane, Apart;
      Facts(i);
      Facts(d);
      EntryFacts(View(), d, n);
      assert i !in free;
    }

    lemma UnlinkRefusalIs(dir: nat, name: Name)
      requires Valid() && TreeOk() && dir !in stale
      ensures UnlinkRefusal(records, store, dir, name) == UnlinkRefused(View(), dir, name)
    {
      hide Formed, Sane, Apart, See, Inv, D.Finding, D.ValidateName, Slots, D.Sized, RecordOk, DotsInFront, ViewOf;
      Facts(dir);
      if dir in records && records[dir].DirRecord? {
        Finds(dir, name);
        if name in EntriesAt(View(), dir) {
          Target(dir, name, EntriesAt(View(), dir)[name]);
          Facts(EntriesAt(View(), dir)[name]);
        }
      }
    }

    /** A file has one name less; with its last name it goes. */
    method DropLink(i: nat) returns (r: Result<()>)
      requires Formed() && i in records && records[i].OtherRecord?
      modifies this`records, this`free, this`stale, this`freeBlocks
      ensures Formed() && freeBlocks == old(freeBlocks) && i in records && records == old(records)[i := records[i]] && records[i].OtherRecord?
      ensures old(Valid()) ==> Valid() && LinkGone(old(View()), old(free), View(), free, i, i in old(stale), first)
      ensures old(stale) - {i} <= stale <= old(stale)
      ensures old(Valid()) && i !in old(stale) ==> stale == old(stale) && (i >= first && i !in old(free) ==> r.Ok?)
    {
      hide Formed, Sane, Apart, See, Blocks, Destroy, AdjLinks, Clamp;
      Facts(i);
      NoBlocksOf(records[i]);
      if records[i].links <= 1 {
        r := DestroyInode(i);
      } else {
        Adjust(i, -1);
        r := Ok(());
      }
    }

    /** `unlink`. An accepted call keeps the tree exactly if the name goes from a directory that
        counts, or the file was not in use anyway. */
    method Unlink(dir: nat, name: Name) returns (r: Result<()>)
      requires Valid() && TreeOk()
      modifies this
      ensures Formed()
      ensures var e := UnlinkRefusal(old(records), old(store), dir, name);
              && (e.Some? ==> r == Err(e.value) && Unchanged())
              && (e.None? && dir !in old(stale) ==> r.Ok? && Valid() && TreeOk() && stale == old(stale))
      ensures var e := UnlinkRefusal(old(records), old(store), dir, name);
              e.None? ==>
                (Valid() && TreeOk() <==>
                 || Holder(old(records), old(store), old(stale), dir, name).Some?
                 || Links(old(View()), FoundIno(old(records), old(store), dir, name)) == 0)
      ensures dir !in old(stale) ==> UnlinkRefusal(old(records), old(store), dir, name) == UnlinkRefused(old(View()), dir, name)
      ensures dir !in old(stale) && r.Ok? ==> IsDropped(old(View()), old(free), View(), free, dir, name)
      ensures dir !in old(stale) && r.Ok? ==> Fits(records, store, dir, name)
      ensures dir !in old(stale) && r.Ok? ==>
                freeBlocks == old(freeBlocks) && Touched(old(store), store, BlocksAt(old(records), dir))
                && records.Keys == old(records).Keys
                && forall x <- records :: x != FoundIno(old(records), old(store), dir, name) ==> x in old(records) && records[x] == old(records)[x]
    {
      hide Formed, Sane, Apart, See, Inv, D.ValidateName, D.RoomIn, D.Finding, Slots, D.Sized, Touched, RecordOk, DotsInFront, ViewOf, Behind, Blocks, Clamp,
        DelEntry, AdjLinks, IsDropped, Destroy;
      ghost var t, f, h := View(), free, Holder(records, store, stale, dir, name);
      if dir !in stale { UnlinkRefusalIs(dir, name); }
      Facts(dir);
      var bad := D.ValidateName(name);
      if bad.Some? { return Err(bad.value); }
      if dir !in records { return Err(Invalid); }
      if records[dir].OtherRecord? { return Err(NotDirectory); }
      var found := FindIn(bs, At(dir), name);
      if found.Err? { return Err(found.error); }
      if found.value.None? { return Err(NotFound); }
      var i := found.value.value;
      Facts(i);
      if i !in records { return Err(Invalid); }
      var v := records[i];
      if v.DirRecord? { return Err(IsDirectory); }
      if dir !in stale { BehindAlways(records, store, stale, dir, name); }
      r := RemoveFrom(dir, name);
      NoDotsTo(t, f, first, h, name, i);
      ghost var t2 := View();
      UsedFacts(t, f, first, h, name, i);
      r := DropLink(i);
      Unlinked1(t, f, first, h, name, i, i in old(stale), t2, View(), free);
    }

    /** An empty directory goes, and the directory that held it has one link less. */
    method DropDir(dir: nat, i: nat) returns (r: Result<()>)
      requires Formed() && i in records && dir in records
      modifies this`records, this`free, this`stale, this`freeBlocks
      ensures Formed() && old(freeBlocks) <= freeBlocks && records.Keys == old(records).Keys
      ensures old(Valid()) ==> DirGone(old(View()), old(free), View(), free, dir, i, dir in old(stale), i in old(stale), first, r.Ok?)
      ensures old(Valid()) && i !in old(stale) && dir !in old(stale) && dir != i && old(records)[dir].links > 0 ==> Valid() && stale == old(stale)
      ensures dir != i && records[dir].DirRecord? ==> old(records)[dir].DirRecord? && records[dir].ptrs == old(records)[dir].ptrs
      ensures forall x <- records :: (records[x].DirRecord? <==> old(records)[x].DirRecord?) && (x != i && x != dir ==> records[x] == old(records)[x])
      ensures old(Valid()) && i !in old(stale) ==> freeBlocks == old(freeBlocks) + (Blocks(old(records)[i]) * store.Keys)
    {
      hide Formed, Sane, Apart, See, Blocks, Destroy, BumpedAt, AdjLinks, DirGone, Load, Slots, D.Sized, RecordOk, DotsInFront, ViewOf, Links, IsDir;
      ghost var t, f := View(), free;
      Facts(i);
      Facts(dir);
      StaleIsDead(t, records, stale, i);
      r := DestroyInode(i);
      ghost var t1, rs := View(), records;
      DirGoneIs(t, f, t1, t1, free, dir, i, dir in old(stale), i in old(stale), first, r.Ok?);
      if r.Err? { return; }
      Facts(dir);
      forall x ensures x in BumpedAt(rs, dir, -1) <==> x in rs { Bump(rs, dir, -1, x); }
      forall x | x in rs ensures (BumpedAt(rs, dir, -1)[x].DirRecord? <==> rs[x].DirRecord?) && (x != dir ==> BumpedAt(rs, dir, -1)[x] == rs[x]) {
        Bump(rs, dir, -1, x);
      }
      Bump(rs, dir, -1, dir);
      Adjust(dir, -1);
      DirGoneIs(t, f, t1, View(), free, dir, i, dir in old(stale), i in old(stale), first, true);
    }

    /** The second half of `rmdir`. */
    method RemoveEmpty(dir: nat, name: Name, i: nat) returns (r: Result<()>)
      requires Valid() && TreeOk() && Found(records, store, dir, name) == Ok(Some(i)) && i in records && records[i].DirRecord? && i != ROOT && !Dots(name)
      requires LiveDir(View(), i) ==> EmptyDir(View(), i)
      requires dir !in stale ==> Lookup(View(), dir, name) == Some(i)
      modifies this
      ensures Formed() && (r.Err? ==> TreeOk())
      ensures r.Ok? ==> (TreeOk() <==> dir !in old(stale))
      ensures dir !in old(stale) ==> Valid() && stale == old(stale) && r == Ok(()) && IsRemoved(old(View()), View(), dir, name)
      ensures LiveDir(old(View()), i) ==> r.Ok?
      ensures dir !in old(stale) ==> GoneFrom(old(records), old(store), old(freeBlocks), records, store, freeBlocks, dir, name, i) && free == old(free) + {i}
    {
      hide Formed, Sane, Apart, See, Inv, D.RoomIn, D.Finding, Slots, D.Sized, Touched, RecordOk, DotsInFront, ViewOf, Behind, Blocks, Clamp,
        EmptyDir, DelEntry, Destroy, IsRemoved, DirGone, Lookup, EntriesAt, LiveDir, IsDir;
      ghost var t, f, h := View(), free, Holder(records, store, stale, dir, name);
      Facts(dir);
      Facts(i);
      StaleIsDead(t, records, stale, i);
      if dir !in stale {
        SubdirIf(t, f, first, dir, name, i);
        BehindAlways(records, store, stale, dir, name);
      }
      var cut := RemoveFrom(dir, name);
      ghost var t2 := View();
      var gone := DropDir(dir, i);
      Removed1(t, f, first, dir, h, name, i, dir in old(stale), i in old(stale), t2, View(), free, gone.Ok?);
      if gone.Err? { return gone; }
      r := Ok(());
    }

    lemma RmdirRefusalIs(dir: nat, name: Name)
      requires Valid() && TreeOk() && dir !in stale
      ensures RmdirRefusal(records, store, View(), dir, name) == RmdirRefused(View(), dir, name)
    {
      hide Formed, Sane, Apart, See, Inv, D.Finding, D.ValidateName, Slots, D.Sized, RecordOk, DotsInFront, ViewOf, EmptyDir;
      Facts(dir);
      if dir in records && records[dir].DirRecord? {
        Finds(dir, name);
        if name in EntriesAt(View(), dir) {
          Target(dir, name, EntriesAt(View(), dir)[name]);
          Facts(EntriesAt(View(), dir)[name]);
        }
      }
    }

    /** `rmdir`. A call that succeeds keeps the tree exactly if the directory is no leftover. */
    method Rmdir(dir: nat, name: Name) returns (r: Result<()>)
      requires Valid() && TreeOk()
      modifies this
      ensures Formed() && (r.Err? ==> TreeOk())
      ensures r.Ok? ==> (TreeOk() <==> dir !in old(stale))
      ensures dir !in old(stale) ==>
                && Valid() && stale == old(stale) && (r.Err? ==> Unchanged())
                && r == (var e := RmdirRefused(old(View()), dir, name); if e.Some? then Err(e.value) else Ok(()))
      ensures dir !in old(stale) && r.Ok? ==> IsRemoved(old(View()), View(), dir, name)
      ensures dir !in old(stale) && r.Ok? ==>
                var i := FoundIno(old(records), old(store), dir, name);
                GoneFrom(old(records), old(store), old(freeBlocks), records, store, freeBlocks, dir, name, i) && free == old(free) + {i}
      ensures dir in old(stale) && Removable(old(records), old(store), old(View()), dir, name) ==> r.Ok?
    {
      hide Formed, Sane, Apart, See, Inv, D.ValidateName, D.RoomIn, D.Finding, Slots, D.Sized, Touched, RecordOk, DotsInFront, ViewOf, Behind, Blocks, Clamp,
        EmptyDir, DelEntry, Destroy, IsRemoved, DirGone, RmdirRefused, GoneFrom;
      ghost var t, f := View(), free;
      Facts(dir);
      if dir !in stale { RmdirRefusalIs(dir, name); }
      var bad := D.ValidateName(name);
      if bad.Some? { return Err(bad.value); }
      if name == DOT || name == DOTDOT { return Err(Invalid); }
      if dir !in records { return Err(Invalid); }
      if records[dir].OtherRecord? { return Err(NotDirectory); }
      if dir !in stale {
        Finds(dir, name);
      }
      var found := FindIn(bs, At(dir), name);
      if found.Err? { return Err(found.error); }
      if found.value.None? { return Err(NotFound); }
      var i := found.value.value;
      if dir !in stale {
        Target(dir, name, i);
        SubdirIf(t, f, first, dir, name, i);
      }
      Facts(i);
      EmptyIs(t, i);
      if i !in records { return Err(Invalid); }
      if records[i].OtherRecord? { return Err(NotDirectory); }
      var empty := EmptyIn(bs, At(i));
      if empty.Err? { return Err(empty.error); }
      if i == ROOT || !empty.value { return Err(NotEmpty); }
      r := RemoveEmpty(dir, name, i);
    }

    // ---- rename ------------------------------------------------------------------------------

    /** The parent walk. From a leftover directory it may go round for ever. */
    method WalkUp(nd: nat, s: nat) returns (e: Option<FsError>)
      requires Formed() && WalkEnds(records, store, nd, s)
      ensures e == ParentWalk(records, store, nd, s)
    {
      hide See, D.Finding, Slots, D.Sized;
      var cur := nd;
      ghost var k: nat :| Stops(records, store, nd, s, k);
      WalkIs(records, store, nd, s, k);
      while true
        invariant Stops(records, store, cur, s, k) && Outcome(records, store, cur, s, k) == ParentWalk(records, store, nd, s)
        decreases k
      {
        if cur == s { return Some(Invalid); }
        if cur == ROOT { return None; }
        Facts(cur);
        if cur !in records { return Some(Invalid); }
        if records[cur].OtherRecord? { return Some(NotDirectory); }
        var p := FindIn(bs, At(cur), DOTDOT);
        if p.Err? { return Some(p.error); }
        if p.value.None? { return Some(NotFound); }
        if p.value.value == cur { return None; }
        cur := p.value.value;
        k := k - 1;
      }
    }

    /** The existing target of a rename is removed; its directory then has room for the name. */
    method Overwrite(nd: nat, nn: Name, e: nat) returns (r: Result<()>)
      requires Formed() && nd in records && records[nd].DirRecord? && e in records
      modifies this
      ensures Formed() && old(freeBlocks) <= freeBlocks && records.Keys == old(records).Keys
      ensures forall x <- records :: records[x].DirRecord? <==> old(records)[x].DirRecord?
      ensures old(Valid()) && old(TreeOk()) && nd !in old(stale) && Replaceable(old(View()), nd, nn, e) ==>
                r.Ok? && Valid() && stale == old(stale) && IsOverwritten(old(View()), old(free), View(), free, nd, nn, e) && Fits(records, store, nd, nn)
    {
      hide Formed, Sane, Apart, See, Inv, D.RoomIn, D.Finding, Slots, D.Sized, Touched, RecordOk, DotsInFront, ViewOf, Behind, Blocks, Clamp,
        EmptyDir, DelEntry, Destroy, DirGone, LinkGone, Lookup, EntriesAt, LiveDir, IsDir, Replaceable, IsOverwritten;
      ghost var t, f, ok := View(), free, Valid() && TreeOk() && nd !in stale && Replaceable(View(), nd, nn, e);
      Facts(nd);
      Facts(e);
      if ok {
        ReplaceFacts(t, f, first, nd, nn, e);
        Target(nd, nn, e);
        FindsThere(nd, nn);
        BehindAlways(records, store, stale, nd, nn);
      }
      var isDir := records[e].DirRecord?;
      r := RemoveFrom(nd, nn);
      if r.Err? { return; }
      ghost var t2, ptrs := View(), records[nd].ptrs;
      if isDir { r := DropDir(nd, e); } else { r := DropLink(e); }
      if ok { Overwritten1(t, f, first, nd, nn, e, t2, View(), free, r.Ok?); }
    }

    /** A moved directory gets its new parent. */
    method Reparent(s: nat, nd: nat) returns (r: Result<()>)
      requires Formed() && s in records && records[s].DirRecord? && 0 < nd < 0x1_0000_0000
      modifies this`records, this`store, this`freeBlocks
      ensures Formed() && records == old(records) && freeBlocks == old(freeBlocks)
      ensures old(Valid()) && s !in stale && records[s].links > 0 ==>
                r.Ok? && Valid() && IsDir(old(View()), s) && View() == AddEntry(old(View()), s, DOTDOT, nd)
    {
      hide Sane, Apart, See, ViewOf, RecordOk, DotsInFront, Behind;
      Facts(s);
      var e := SetParentIn(bs, At(s), nd);
      if e.Err? { return Err(e.error); }
      if s !in stale { BehindSelf(records, stale, s, 0); }
      Kind(At(s));
      Apply(s, e.value, Err(NoSpace));
      r := Ok(());
    }

    /** Its ".." and the link counts of both parents are set. */
    method Rehang(od: nat, nd: nat, s: nat) returns (r: Result<()>)
      requires Formed() && od in records && nd in records && s in records && records[s].DirRecord?
      modifies this`records, this`store, this`freeBlocks
      ensures Formed() && freeBlocks == old(freeBlocks) && records.Keys == old(records).Keys
      ensures old(Valid()) && s !in stale && od !in stale && CanRehang(old(View()), od, nd, s, nd in stale) ==>
                r == Ok(()) && Valid() && Rehung(old(View()), View(), od, nd, s, nd in stale)
    {
      hide Formed, Sane, Apart, See, AddEntry, AdjLinks, CanRehang, LiveDir;
      ghost var t, ok := View(), Valid() && s !in stale && od !in stale && CanRehang(View(), od, nd, s, nd in stale);
      Facts(s);
      Facts(nd);
      if ok { RehangSteps(t, od, nd, s, nd in stale); CanFacts(t, od, nd, s, nd in stale); }
      var up := Reparent(s, nd);
      if up.Err? { return up; }
      Facts(od);
      Adjust(od, -1);
      Facts(nd);
      Adjust(nd, 1);
      r := Ok(());
    }

    /** The new name is added and the old one dropped. */
    method SwapNames(od: nat, on: Name, nd: nat, nn: Name, s: nat, ft: byte, grow: Result<nat>) returns (r: Result<()>)
      requires Formed() && od in records && records[od].DirRecord? && nd in records && records[nd].DirRecord? && s in records
      requires D.ValidateName(nn).None? && Granted(grow)
      modifies this`records, this`store, this`freeBlocks
      ensures Formed() && records.Keys == old(records).Keys && (records[s].DirRecord? <==> old(records)[s].DirRecord?)
      ensures AddAnswer(old(records), old(store), nd, nn, grow).Err? ==>
                r == AddAnswer(old(records), old(store), nd, nn, grow) && records == old(records) && store == old(store) && freeBlocks == old(freeBlocks)
      ensures var w := Receiver(old(records), old(store), stale, nd, nn);
              old(Valid()) && od !in stale && MovesOn(old(View()), od, on, nd, s, nd !in stale) && AddAnswer(old(records), old(store), nd, nn, grow).Ok?
              && Takes(old(View()), w, nn) ==>
                r == Ok(()) && Valid() && Swapped(old(View()), View(), od, on, w, nn, s)
    {
      hide Formed, Sane, Apart, See, D.RoomIn, D.Finding, D.Landing, Slots, D.Sized, Touched, RecordOk, DotsInFront, ViewOf, Blocks, D.ValidateName,
        Receiver, Holder, AddAnswer, Fits, AddEntry, DelEntry, Lookup, EntriesAt, LiveDir, IsDir, Links, Found, Load, MovesOn, Swapped;
      ghost var t, w := View(), Receiver(records, store, stale, nd, nn);
      ghost var ok := Valid() && od !in stale && MovesOn(t, od, on, nd, s, nd !in stale) && Takes(t, w, nn);
      Facts(od);
      Facts(nd);
      Facts(s);
      if ok { MoverFacts(t, od, on, nd, s, nd !in stale); }
      r := AddTo(nd, nn, s, ft, grow);
      if r.Err? { return; }
      ghost var t1 := View();
      if ok {
        StillThere(t, od, on, w, nn, s, t1);
        FindsThere(od, on);
        BehindAlways(records, store, stale, od, on);
      }
      var cut := RemoveFrom(od, on);
      if cut.Err? { return cut; }
      if ok { SwappedIs(t, t1, View(), od, on, w, nn, s); }
      r := Ok(());
    }

    /** The second half of `rename`: add the new name, drop the old, adjust "..". For directories
        that count it can only fail at the first step. A name that no directory receives is lost. */
    method MoveEntry(od: nat, on: Name, nd: nat, nn: Name, s: nat, ft: byte, grow: Result<nat>) returns (r: Result<()>)
      requires Formed() && od in records && records[od].DirRecord? && nd in records && records[nd].DirRecord? && s in records
      requires D.ValidateName(nn).None? && Granted(grow)
      modifies this`records, this`store, this`freeBlocks
      ensures Formed()
      ensures AddAnswer(old(records), old(store), nd, nn, grow).Err? ==>
                r == AddAnswer(old(records), old(store), nd, nn, grow) && records == old(records) && store == old(store) && freeBlocks == old(freeBlocks)
      ensures var w := Receiver(old(records), old(store), stale, nd, nn);
              old(Valid()) && od !in stale && s !in stale && MovesOn(old(View()), od, on, nd, s, nd !in stale) && AddAnswer(old(records), old(store), nd, nn, grow).Ok?
              && Takes(old(View()), w, nn) ==>
                r == Ok(()) && Valid() && MoveDone(old(View()), View(), od, on, nd, nn, s, w, nd in stale)
    {
      hide Formed, Sane, Apart, See, Slots, D.Sized, RecordOk, DotsInFront, ViewOf, D.ValidateName, Receiver, AddAnswer, Lookup, EntriesAt, LiveDir, Links, Load,
        MovesOn, Swapped, Rehung, CanRehang, MoveDone, Takes, D.Landing, Fits;
      ghost var t, w := View(), Receiver(records, store, stale, nd, nn);
      ghost var ok := Valid() && od !in stale && s !in stale && MovesOn(t, od, on, nd, s, nd !in stale) && AddAnswer(records, store, nd, nn, grow).Ok? && Takes(t, w, nn);
      Facts(s);
      Facts(nd);
      StaleIsDead(t, records, stale, nd);
      if nd !in stale && Valid() { AnswerIs(nd, nn, grow); }
      var isDir := records[s].DirRecord?;
      r := SwapNames(od, on, nd, nn, s, ft, grow);
      if r.Err? { return; }
      ghost var t2 := View();
      if isDir && od != nd {
        if ok { MovedFar(t, od, on, nd, nn, s, w, t2, t2, nd in stale); }
        var up := Rehang(od, nd, s);
        if up.Err? { return up; }
        if ok { MovedFar(t, od, on, nd, nn, s, w, t2, View(), nd in stale); }
      } else if ok {
        MovedNear(t, od, on, nd, nn, s, w, t2, nd in stale);
      }
      r := Ok(());
    }

    /** Both names lead to one file: the old name goes. */
    method DropOld(od: nat, on: Name, s: nat) returns (r: Result<()>)
      requires Formed() && od in records && records[od].DirRecord? && s in records
      modifies this`records, this`store, this`freeBlocks
      ensures Formed()
      ensures old(Valid()) && old(TreeOk()) && od !in stale && s !in stale && Spare(old(View()), od, on, s) ==>
                r == Ok(()) && Valid() && IsDropped(old(View()), free, View(), free, od, on)
    {
      hide Formed, Sane, Apart, See, D.RoomIn, D.Finding, Slots, D.Sized, Touched, RecordOk, DotsInFront, ViewOf, Blocks, Behind, Holder, Lookup, EntriesAt,
        LiveDir, IsDir, Links, Found, Load, Inv, Clamp, Spare, IsDropped, AdjLinks, DelEntry;
      ghost var t, ok := View(), Valid() && TreeOk() && od !in stale && s !in stale && Spare(View(), od, on, s);
      Facts(od);
      Facts(s);
      if ok {
        SpareFacts(t, free, od, on, s);
        FindsThere(od, on);
        BehindAlways(records, store, stale, od, on);
      }
      var cut := RemoveFrom(od, on);
      if cut.Err? { return cut; }
      Adjust(s, -1);
      r := Ok(());
    }

    /** `rename` over an existing entry. Once accepted it needs no new block and cannot fail. */
    method RenameOver(od: nat, on: Name, nd: nat, nn: Name, s: nat, e: nat, ft: byte, grow: Result<nat>) returns (r: Result<()>)
      requires Valid() && TreeOk() && Granted(grow) && D.ValidateName(nn).None? && !Dots(on) && !Dots(nn) && !(od == nd && on == nn)
      requires od in records && records[od].DirRecord? && nd in records && records[nd].DirRecord? && s in records
      requires od !in stale && nd !in stale ==>
                 Lookup(View(), nd, nn) == Some(e) && s !in stale && MovesOn(View(), od, on, nd, s, true) && (IsDir(View(), s) ==> !Inside(View(), nd, s))
      modifies this
      ensures Formed()
      ensures od !in old(stale) && nd !in old(stale) ==>
                && Valid() && stale == old(stale) && (r.Err? ==> Unchanged())
                && r == (var x := OverwriteRefused(old(View()), s, e); if x.Some? then Err(x.value) else Ok(()))
      ensures od !in old(stale) && nd !in old(stale) && r.Ok? ==> RenameDone(old(View()), old(free), View(), free, od, on, nd, nn)
    {
      hide Formed, Sane, Apart, See, Inv, D.ValidateName, D.RoomIn, D.Finding, D.Landing, Slots, D.Sized, RecordOk, DotsInFront, ViewOf, Blocks, Behind, Receiver,
        Lookup, EntriesAt, LiveDir, IsDir, Links, Load, Inside, EmptyDir, RenameDone, MovesOn, IsMoved, Fits, AddAnswer, IsOverwritten, Replaceable,
        Spare, IsDropped;
      ghost var t, f, both := View(), free, od !in stale && nd !in stale;
      Facts(s);
      Facts(e);
      if both { Target(nd, nn, e); }
      if e == s {
        if both { SpareIs(t, f, first, od, on, nd, nn, s); }
        r := DropOld(od, on, s);
        if both { SpareDone(t, f, View(), od, on, nd, nn, s); }
        return;
      }
      if e !in records { return Err(Invalid); }
      EmptyIs(t, e);
      if records[e].DirRecord? {
        if records[s].OtherRecord? { return Err(IsDirectory); }
        var empty := EmptyIn(bs, At(e));
        if both { LiveTarget(t, f, first, nd, nn, e); }
        if empty.Err? { return Err(empty.error); }
        if !empty.value { return Err(NotEmpty); }
      } else if records[s].DirRecord? {
        return Err(NotDirectory);
      }
      if both { ReplaceableIs(t, nd, nn, s, e); }
      var over := Overwrite(nd, nn, e);
      if over.Err? { return over; }
      ghost var t1, f1 := View(), free;
      if both {
        OverFacts(t, f, first, od, on, nd, nn, s, e, t1, f1);
        AnswerIs(nd, nn, grow);
      }
      r := MoveEntry(od, on, nd, nn, s, ft, grow);
      if both { OverDone(t, f, t1, f1, View(), od, on, nd, nn, s, e); }
    }

    /** `rename` once the source is found. */
    method RenameFound(od: nat, on: Name, nd: nat, nn: Name, s: nat, ft: byte, grow: Result<nat>) returns (r: Result<()>)
      requires Valid() && TreeOk() && Granted(grow) && D.ValidateName(nn).None? && !Dots(on) && !Dots(nn) && !(od == nd && on == nn)
      requires Found(records, store, od, on) == Ok(Some(s)) && nd in records && records[nd].DirRecord?
      requires nd in stale ==> WalkEnds(records, store, nd, s)
      modifies this
      ensures Formed()
      ensures od !in old(stale) && nd !in old(stale) ==>
                && Valid() && stale == old(stale) && (r.Err? ==> Unchanged())
                && r == (var e := MoveRefused(old(View()), s, nd, nn, TreeWalk(old(View()), nd, s));
                         if e.Some? then Err(e.value)
                         else if nn !in EntriesAt(old(View()), nd) && grow.Err? && !Fits(old(records), old(store), nd, nn) then Err(grow.error)
                         else Ok(()))
      ensures od !in old(stale) && nd !in old(stale) && r.Ok? ==> RenameDone(old(View()), old(free), View(), free, od, on, nd, nn)
      ensures od !in old(stale) && nd in old(stale) && r.Ok? && LeftFree(old(records), old(store), old(stale), nd, nn) ==>
                (Valid() && TreeOk() <==>
                 ReceivesFile(old(View()), Receiver(old(records), old(store), old(stale), nd, nn), FoundIno(old(records), old(store), od, on)))
    {
      hide Formed, Sane, Apart, See, Inv, D.ValidateName, D.RoomIn, D.Finding, D.Landing, Slots, D.Sized, RecordOk, DotsInFront, ViewOf, Blocks, Behind, Receiver,
        Lookup, EntriesAt, LiveDir, IsDir, Links, Load, Up, WalkEnds, ParentWalk, TreeWalk, Inside, EmptyDir, MoveRefused, RenameDone, MovesOn, MoveDone,
        Fits, AddAnswer, Shape, ReceivesFile;
      ghost var t, f, both := View(), free, od !in stale && nd !in stale;
      ghost var w := Receiver(records, store, stale, nd, nn);
      Facts(od);
      Facts(nd);
      Facts(s);
      FoundDir(records, store, od, on);
      FoundIs(records, store, nd, nn);
      if od !in stale {
        FindsThere(od, on);
        Target(od, on, s);
      }
      if nd !in stale {
        FindsThere(nd, nn);
        WalkInTree(bs, records, store, stale, free, first, nd, s);
        AnswerIs(nd, nn, grow);
      }
      if s !in records { return Err(Invalid); }
      if od !in stale {
        StaleIsDead(t, records, stale, nd);
        MoveStart(t, f, first, od, on, nd, s, nd in stale);
      }
      MoveRefusedIs(t, s, nd, nn, TreeWalk(t, nd, s));
      var isDir := records[s].DirRecord?;
      if isDir {
        var e := WalkUp(nd, s);
        if e.Some? { return Err(e.value); }
      }
      var existing := FindIn(bs, At(nd), nn);
      if existing.Err? { return Err(existing.error); }
      if existing.value.None? {
        r := MoveEntry(od, on, nd, nn, s, ft, grow);
        MoveEnds(t, f, first, View(), od, on, nd, nn, s, w, nd in stale);
        return;
      }
      r := RenameOver(od, on, nd, nn, s, existing.value.value, ft, grow);
    }

    /** `rename`. Between directories that count it is all or nothing on names, refused only before
        anything has changed; only a rename to a new name can run out of space, and the tree is kept
        exactly if the rename is sound. The parent walk from such a directory always ends. Into a
        leftover a name that no directory receives is lost. */
    method Rename(od: nat, on: Name, nd: nat, nn: Name, ft: byte, grow: Result<nat>) returns (r: Result<()>)
      requires Valid() && TreeOk() && Granted(grow)
      requires nd in stale ==> WalkEnds(records, store, nd, FoundIno(records, store, od, on))
      modifies this
      ensures Formed()
      ensures od !in old(stale) && nd !in old(stale) ==>
                && Valid() && stale == old(stale) && (r.Err? ==> Unchanged() && TreeOk())
                && r == (var e := RenameRefused(old(View()), od, on, nd, nn);
                         if e.Some? then Err(e.value)
                         else if !(od == nd && on == nn) && nn !in EntriesAt(old(View()), nd) && grow.Err? && !Fits(old(records), old(store), nd, nn) then Err(grow.error)
                         else Ok(()))
      ensures od !in old(stale) && nd !in old(stale) && r.Ok? ==>
                RenameDone(old(View()), old(free), View(), free, od, on, nd, nn) && (TreeOk() <==> RenameSound(old(View()), od, on, nd, nn))
      ensures od !in old(stale) && nd in old(stale) && r.Ok? && LeftFree(old(records), old(store), old(stale), nd, nn) ==>
                (Valid() && TreeOk() <==>
                 ReceivesFile(old(View()), Receiver(old(records), old(store), old(stale), nd, nn), FoundIno(old(records), old(store), od, on)))
    {
      hide Formed, Sane, Apart, See, Inv, D.ValidateName, D.RoomIn, D.Finding, D.Landing, Slots, D.Sized, RecordOk, DotsInFront, ViewOf, Blocks, Behind, Receiver,
        Lookup, EntriesAt, LiveDir, IsDir, Links, Load, Up, WalkEnds, TreeWalk, MoveRefused, RenameDone, RenameSound, Fits, RenameRefused;
      ghost var t, f, both := View(), free, od !in stale && nd !in stale;
      Facts(od);
      Facts(nd);
      if both { RefusedSteps(t, od, on, nd, nn); }
      SameName(t, f, od, on, nd, nn);
      var bad := D.ValidateName(on);
      if bad.Some? { return Err(bad.value); }
      bad := D.ValidateName(nn);
      if bad.Some? { return Err(bad.value); }
      if on == DOT || on == DOTDOT || nn == DOT || nn == DOTDOT { return Err(Invalid); }
      if od == nd && on == nn { return Ok(()); }
      if od !in records { return Err(Invalid); }
      if records[od].OtherRecord? { return Err(NotDirectory); }
      if nd !in records { return Err(Invalid); }
      if records[nd].OtherRecord? { return Err(NotDirectory); }
      if od !in stale { FindsThere(od, on); }
      var source := FindIn(bs, At(od), on);
      if source.Err? { return Err(source.error); }
      if source.value.None? { return Err(NotFound); }
      FoundIs(records, store, od, on);
      r := RenameFound(od, on, nd, nn, source.value.value, ft, grow);
      if both && r.Ok? { RenameExact(t, f, first, View(), free, od, on, nd, nn); }
    }
  }

  // ---- facts for the steps above -----------------------------------------------------------------

  lemma FormattedKeys(home: nat, count: nat, i: nat)
    ensures i in FormattedRecords(home, count) <==> i in FreeInodes(1, count)
  {
  }

  lemma OwnsLess(records: Records, stale: set<nat>, i: nat)
    ensures forall j: nat, k: nat, p: nat :: Owns(records, stale + {i}, j, k, p) ==> j != i && Owns(records, stale, j, k, p)
  {
  }

  lemma OwnPtrs(records: Records, store: Store, freeBlocks: set<nat>, stale: set<nat>, i: nat)
    requires Apart(records, store, freeBlocks, stale) && i in records && i !in stale && records[i].DirRecord?
    ensures var ptrs := records[i].ptrs;
            && (forall k, m :: 0 <= k < m < |ptrs| && ptrs[k] in store ==> ptrs[k] != ptrs[m])
            && (forall k :: 0 <= k < |ptrs| && ptrs[k] in store ==> ptrs[k] !in freeBlocks)
  {
    var ptrs := records[i].ptrs;
    assert forall k: nat :: k < |ptrs| ==> Owns(records, stale, i, k, ptrs[k]);
  }

  lemma DeadRecord(bs: nat, store: Store, v: Record)
    requires D.SizeOk(bs) && (v == DirRecord([], 0) || v == OtherRecord(0))
    ensures Good(bs, Load(store, v)) && ViewOf(Load(store, v)) == Hollow(v)
  {
    hide RecordOk, DotsInFront, ViewOf;
    DeadOk(bs, Load(store, v));
  }

  lemma EmptiedApart(records: Records, store: Store, freeBlocks: set<nat>, freeBlocks': set<nat>, stale: set<nat>, i: nat, v: Record)
    requires Apart(records, store, freeBlocks, stale) && i in records && i !in stale && (v.DirRecord? ==> v.ptrs == [])
    requires freeBlocks' <= freeBlocks + Blocks(records[i])
    ensures Apart(records[i := v], store, freeBlocks', stale - {i})
  {
    hide Blocks;
    var records', stale' := records[i := v], stale - {i};
    forall j: nat, k: nat, p: nat | Owns(records', stale', j, k, p) ensures j != i && Owns(records, stale, j, k, p) {}
    ApartGive(records, records', store, freeBlocks, stale, stale', i);
    ApartSame(records', records', store, freeBlocks + Blocks(records[i]), freeBlocks', stale', stale');
  }

  lemma GoneStale(bs: nat, records: Records, store: Store, stale: set<nat>, i: nat, v: Record)
    requires i in records && i in stale && ViewOf(Load(store, v)) == Hollow(records[i])
    ensures See(records[i := v], store, stale - {i}) == See(records, store, stale)
  {
    hide ViewOf, Load, Good, See;
    RecordSet(bs, records, store, stale, i, v);
    SeeAt(records, store, stale, i);
  }

  /** A granted block is appended. */
  lemma Appended(bs: nat, records: Records, store: Store, freeBlocks: set<nat>, stale: set<nat>, dir: nat, q: nat, b: seq<byte>)
    requires Sane(bs, records, store, stale) && Apart(records, store, freeBlocks, stale) && q in freeBlocks && q in store
    requires dir in records && records[dir].DirRecord?
    ensures var r, store' := DirRecord(records[dir].ptrs + [q], records[dir].links), store[q := b];
            var v := Applied(Load(store, records[dir]), Edit(|records[dir].ptrs|, b));
            && Apart(records[dir := r], store', freeBlocks - {q}, stale)
            && (dir in stale ==> Sane(bs, records[dir := r], store', stale) && See(records[dir := r], store', stale) == See(records, store, stale))
            && (dir !in stale ==>
                  && (Sane(bs, records[dir := r], store', stale) <==> Good(bs, v))
                  && See(records[dir := r], store', stale) == See(records, store, stale)[dir := ViewOf(v)])
  {
    hide Sane, Apart, See, ViewOf, Good, Owned;
    var r, store' := DirRecord(records[dir].ptrs + [q], records[dir].links), store[q := b];
    FreeNotOwned(records, store, freeBlocks, stale, q);
    ForeignWrite(bs, records, store, stale, q, b);
    ApartWrite(records, store, freeBlocks, stale, q, b);
    if dir in stale {
      StaleWritten(bs, records, store', freeBlocks, stale, dir, r);
      ApartSame(records[dir := r], records[dir := r], store', freeBlocks, freeBlocks - {q}, stale, stale);
    } else {
      ApartTake(records, store', freeBlocks, stale, dir, r, q);
      assert stale - {dir} == stale;
      RecordSet(bs, records, store', stale, dir, r);
      LoadAppended(records, store, stale, dir, q, b);
      SaneAt(bs, records[dir := r], store', stale, dir);
    }
  }

  lemma SaneAt(bs: nat, records: Records, store: Store, stale: set<nat>, i: nat)
    requires i in records && i !in stale
    ensures Sane(bs, records, store, stale) ==> Good(bs, Load(store, records[i]))
  {
    hide Good;
  }

  lemma LoadAppended(records: Records, store: Store, stale: set<nat>, dir: nat, q: nat, b: seq<byte>)
    requires dir in records && dir !in stale && records[dir].DirRecord? && q in store && !Owned(records, stale, q)
    ensures Load(store[q := b], DirRecord(records[dir].ptrs + [q], records[dir].links)) ==
            Applied(Load(store, records[dir]), Edit(|records[dir].ptrs|, b))
  {
    var ptrs, store' := records[dir].ptrs, store[q := b];
    forall k: nat | k < |ptrs| ensures SlotAt(store', ptrs[k]) == SlotAt(store, ptrs[k]) { assert Owns(records, stale, dir, k, ptrs[k]); }
    assert Slots(store', ptrs + [q]) == Slots(store, ptrs) + [Some(b)];
  }

  lemma LinksOnly(bs: nat, v: Inode, v': Inode, k: nat)
    requires v' == if v.DirInode? then DirInode(v.blocks, k) else OtherInode(k)
    ensures ViewOf(v') == if v.DirInode? then Dir(Entries(ViewOf(v)), k) else Leaf(k)
    ensures v.OtherInode? || (v.links > 0 && k > 0) ==> (Good(bs, v) <==> Good(bs, v'))
    ensures v.OtherInode? || v.links > 0 ==> (Good(bs, v) ==> Good(bs, v'))
    ensures ViewOf(v).Dir? <==> v.DirInode?
  {
    hide D.StartsWithDots, D.Sound;
  }

  lemma ShortName(name: Name)
    requires D.ValidateName(name).None?
    ensures |name| <= MAX_NAME
  {
  }

  lemma LandsInside(blocks: seq<D.Slot>, name: Name)
    ensures var g := D.Landing(blocks, name); g.Ok? ==> g.value <= |blocks| && (g.value < |blocks| ==> blocks[g.value].Some?)
  {
    D.LandsThere(blocks, 0, Need(name));
  }

  lemma FindsInside(blocks: seq<D.Slot>, name: Name)
    ensures var f := D.Finding(blocks, name); f.Ok? && f.value.Some? ==> f.value.value.0 < |blocks| && blocks[f.value.value.0].Some?
  {
    D.FoundThere(blocks, 0, name);
  }

  lemma AddsShape(bs: nat, v: Inode, e: Edit, it: Item)
    requires Adds(bs, v, e, it)
    ensures v.DirInode? && e.slot <= |v.blocks| && |e.bytes| == bs && (e.slot < |v.blocks| ==> v.blocks[e.slot].Some?)
  {
  }

  /** Block `k` of `w` holds the same bytes as the block of `v` that gains an entry. */
  lemma AddsBehind(bs: nat, v: Inode, e: Edit, w: Inode, k: nat, it: Item)
    requires Adds(bs, v, e, it) && w.DirInode? && Good(bs, w)
    requires if e.slot < |v.blocks| then k < |w.blocks| && w.blocks[k] == v.blocks[e.slot] else w == v && k == e.slot
    ensures k <= |w.blocks|
    ensures var w' := Applied(w, Edit(k, e.bytes));
            if it.name in Entries(ViewOf(w)) then !Good(bs, w')
            else Good(bs, w') && ViewOf(w') == Dir(Entries(ViewOf(w))[it.name := it.ino], w.links)
  {
    hide RecordOk, DotsInFront, ViewOf, D.BlockGains;
    AddsView(bs, w, Edit(k, e.bytes), it);
  }

  lemma RemovesBehind(bs: nat, v: Inode, e: Edit, w: Inode, k: nat, name: Name, ino: nat)
    requires Removes(bs, v, e, name, ino) && w.DirInode? && Good(bs, w) && k < |w.blocks| && w.blocks[k] == v.blocks[e.slot]
    ensures var w' := Applied(w, Edit(k, e.bytes));
            && name in Entries(ViewOf(w)) && Entries(ViewOf(w))[name] == ino && D.RoomIn(w'.blocks, name)
            && (!Dots(name) ==> Good(bs, w')) && ViewOf(w') == Dir(Entries(ViewOf(w)) - {name}, w.links)
  {
    hide RecordOk, DotsInFront, ViewOf, D.BlockLoses, D.RoomIn;
    RemovesView(bs, w, Edit(k, e.bytes), name, ino);
  }

  lemma RemovesShape(bs: nat, v: Inode, e: Edit, name: Name, ino: nat)
    requires Removes(bs, v, e, name, ino)
    ensures v.DirInode? && e.slot < |v.blocks| && |e.bytes| == bs && v.blocks[e.slot].Some?
  {
  }

  lemma RoomAtSlot(bs: nat, v: Inode, e: Edit, name: Name, ino: nat, blocks: seq<D.Slot>)
    requires Good(bs, v) && Removes(bs, v, e, name, ino) && e.slot < |blocks| && blocks[e.slot] == Some(e.bytes)
    ensures D.RoomIn(blocks, name)
  {
    hide Tiled, HasRoom, D.NamesOnce, D.AllItems;
    assert D.SlotOk(bs, v.blocks[e.slot]);
    assert D.RoomAt(blocks[e.slot], name);
  }

  lemma BehindSelf(records: Records, stale: set<nat>, dir: nat, slot: nat)
    requires dir in records && records[dir].DirRecord? && dir !in stale
    ensures Behind(records, stale, dir, slot) == Some((dir, slot))
  {
  }

  lemma NoReceiver(records: Records, store: Store, stale: set<nat>, dir: nat, name: Name)
    requires dir in records && records[dir].OtherRecord?
    ensures Receiver(records, store, stale, dir, name).None?
  {
  }

  lemma NoBlocksOf(r: Record)
    requires r.OtherRecord?
    ensures Blocks(r) == {}
  {
  }

  lemma OneBlockOf(r: Record, p: nat)
    requires r.DirRecord? && r.ptrs == [p]
    ensures Blocks(r) == {p}
  {
    assert r.ptrs[0] == p;
  }

  lemma FreshGood(bs: nat, v: Inode, self: nat, parent: nat)
    requires FreshRecord(bs, v, self, parent)
    ensures Good(bs, v) && ViewOf(v) == FreshNode(self, parent)
  {
  }

  /** A block that was free is none of a directory's. */
  lemma Aside(records: Records, store: Store, freeBlocks: set<nat>, stale: set<nat>, dir: nat, p: nat, b: seq<byte>)
    requires Apart(records, store, freeBlocks, stale) && dir in records && dir !in stale && p in store && p in freeBlocks
    ensures Load(store[p := b], records[dir]) == Load(store, records[dir]) && p !in BlocksAt(records, dir)
  {
    hide Owned;
    FreeNotOwned(records, store, freeBlocks, stale, p);
    NotMine(records, stale, dir, p);
    LoadSame(records, store, store[p := b], stale, dir);
  }

  lemma NotMine(records: Records, stale: set<nat>, i: nat, p: nat)
    requires !Owned(records, stale, p)
    ensures forall k: nat, q: nat :: Owns(records, stale, i, k, q) ==> q != p
    ensures i in records && i !in stale ==> p !in BlocksAt(records, i)
  {
    if i in records && i !in stale && records[i].DirRecord? {
      forall k: nat | k < |records[i].ptrs| ensures records[i].ptrs[k] != p { assert Owns(records, stale, i, k, records[i].ptrs[k]); }
    }
  }

  lemma TouchWrite(store: Store, p: nat, b: seq<byte>, store': Store, blocks: set<nat>)
    requires p in store
    ensures Touched(store[p := b], store', blocks) ==> Touched(store, store', blocks + {p})
    ensures Touched(store, store[p := b], {p})
  {
  }

  lemma FreshStays(bs: nat, records: Records, store: Store, store': Store, i: nat, p: nat, b: seq<byte>, parent: nat, blocks: set<nat>)
    requires FreshRecord(bs, DirInode([Some(b)], 2), i, parent) && i in records && records[i] == DirRecord([p], 2) && p in store && store[p] == b
    requires store' == store || (Touched(store, store', blocks) && p !in blocks)
    ensures FreshAt(bs, records, store', i, parent)
  {
    hide FreshRecord;
    assert Slots(store', [p]) == [Some(b)];
  }

  /** What becomes of a new file whose name has gone to `w`. */
  lemma Created1(t: Table, f: set<nat>, first: nat, i: nat, n: Name, w: Option<nat>, t': Table, valid: bool)
    requires Inv(t, f, first) && i in f && D.ValidateName(n).None?
    requires w.None? ==> valid && t' == t[i := Leaf(1)]
    requires w.Some? ==> IsDir(t[i := Leaf(1)], w.value)
    requires w.Some? ==> if n in EntriesAt(t[i := Leaf(1)], w.value) then !valid else valid && t' == AddEntry(t[i := Leaf(1)], w.value, n, i)
    ensures valid && Inv(t', f - {i}, first) <==> w.Some? && LiveDir(t, w.value) && n !in EntriesAt(t, w.value)
    ensures valid && Inv(t', f - {i}, first) ==> IsDir(t, w.value) && w.value != i && t' == Made(t, w.value, n, i)
  {
    hide Inv, D.ValidateName;
    FreeFacts(t, f, first, i);
    if w.None? {
      LostFile(t, f, first, i);
    } else if n !in EntriesAt(t, w.value) {
      if LiveDir(t, w.value) {
        CreateKeepsTree(t, f, first, w.value, n, i, false);
      } else {
        DeadHolds(t', f - {i}, first, w.value, n);
      }
    }
  }

  /** What becomes of a new directory whose name has gone to `w`; `t2` is the table before the link
      count of `d` is raised, `t'` the one after. */
  lemma Entered(t: Table, f: set<nat>, first: nat, i: nat, d: nat, n: Name, left: bool, w: Option<nat>, t2: Table, v2: bool, t': Table, v': bool)
    requires Inv(t, f, first) && i in f && D.ValidateName(n).None?
    requires w.None? ==> v2 && t2 == t[i := FreshNode(i, d)]
    requires w.Some? ==> IsDir(t[i := FreshNode(i, d)], w.value)
    requires w.Some? ==> if n in EntriesAt(t[i := FreshNode(i, d)], w.value) then !v2 else v2 && t2 == AddEntry(t[i := FreshNode(i, d)], w.value, n, i)
    requires (v' <==> v2) && if left then t' == t2 && d != i && !LiveDir(t', d) else w == Some(d) && (v2 ==> d in t2 && t' == AdjLinks(t2, d, 1))
    requires !left && d != i ==> CreateRefused(t, d, n, true).None?
    ensures v' && Inv(t', f - {i}, first) <==> !left && d != i
    ensures !left && d != i ==> IsCreated(t, t', d, n, i, true)
  {
    hide Inv, D.ValidateName;
    FreeFacts(t, f, first, i);
    FreeNotRoot(t, f, first, i);
    if !left && d != i {
      CreateKeepsTree(t, f, first, d, n, i, true);
    } else if v' {
      Unparented(t, f - {i}, first, i, d, n, w, t2, t');
    }
  }

  lemma SetTwice(t: Table, i: nat, v: Node, w: Node)
    ensures t[i := v][i := w] == t[i := w]
  {
  }

  lemma PutBack(s: set<nat>, i: nat)
    requires i in s
    ensures s - {i} + {i} == s
  {
  }

  lemma PutBack2(s: set<nat>, i: nat)
    ensures s - {i} + {i} == s + {i}
  {
  }

  lemma LiveLinks(t: Table, i: nat, d: nat, n: Name, links: nat)
    ensures d != i && CreateRefused(t, d, n, true).None? && Links(t[i := FreshNode(i, d)], d) == links ==> links > 0
    ensures Links(t[i := FreshNode(i, d)], i) == 2
  {
  }

  lemma StaleIsDead(t: Table, records: Records, stale: set<nat>, i: nat)
    requires i in records && i in t && (i in stale ==> t[i] == Hollow(records[i]))
    ensures i in stale ==> Links(t, i) == 0 && !LiveDir(t, i)
  {
  }

  /** A new directory whose ".." leads to a leftover, or to itself. */
  lemma Unparented(t: Table, f: set<nat>, first: nat, i: nat, d: nat, n: Name, w: Option<nat>, t2: Table, t': Table)
    requires w.None? ==> t2 == t[i := FreshNode(i, d)]
    requires w.Some? ==> IsDir(t[i := FreshNode(i, d)], w.value) && n !in EntriesAt(t[i := FreshNode(i, d)], w.value)
    requires w.Some? ==> t2 == AddEntry(t[i := FreshNode(i, d)], w.value, n, i)
    requires if d == i then t' == AdjLinks(t2, i, 1) else t' == t2 && !LiveDir(t', d)
    requires i != ROOT
    ensures !Inv(t', f, first)
  {
    hide Inv;
    Letters();
    assert LiveDir(t', i) && EntriesAt(t', i)[DOTDOT] == d;
    if d == i { OwnParent(t', f, first, i, t'[i]); assert t'[i := t'[i]] == t'; } else { DeadParent(t', f, first, i); }
  }

  /** What becomes of a hard link whose name has gone to `w`. */
  lemma Linked1(t: Table, f: set<nat>, first: nat, w: Option<nat>, n: Name, i: nat, left: bool, t2: Table, v2: bool, t': Table, v': bool)
    requires Inv(t, f, first) && i in t && !IsDir(t, i) && Links(t, i) < MAX_LINKS
    requires w.None? ==> v2 && t2 == t
    requires w.Some? ==> IsDir(t, w.value) && if n in EntriesAt(t, w.value) then !v2 else v2 && t2 == AddEntry(t, w.value, n, i)
    requires (v' <==> v2) && if left then t' == t2 && Links(t, i) == 0 else v2 ==> i in t2 && t' == AdjLinks(t2, i, 1)
    ensures v' && Inv(t', f, first) <==> if left then w.None? else w.Some? && LiveDir(t, w.value) && n !in EntriesAt(t, w.value) && Links(t, i) > 0
    ensures v' && !left && w.Some? ==> IsLinked(t, t', w.value, n, i)
  {
    hide Inv;
    if v' {
      if w.None? {
        if !left { WrongCount(t, f, f, first, i, Links(t, i) + 1); }
      } else if left {
        UncountedName(t, f, first, w.value, n, i);
      } else {
        LinkExact(t, f, first, w.value, n, i);
      }
    }
  }

  lemma BehindAlways(records: Records, store: Store, stale: set<nat>, dir: nat, name: Name)
    requires dir in records && records[dir].DirRecord? && dir !in stale
    ensures Found(records, store, dir, name).Ok? && Found(records, store, dir, name).value.Some? ==> Holder(records, store, stale, dir, name) == Some(dir)
  {
    hide D.Finding, Slots;
  }

  /** The dots lead to directories. */
  lemma NoDotsTo(t: Table, f: set<nat>, first: nat, h: Option<nat>, n: Name, i: nat)
    requires Inv(t, f, first) && !IsDir(t, i)
    ensures h.Some? && Lookup(t, h.value, n) == Some(i) ==> !Dots(n)
  {
    hide Balanced, FreeOk, Named, EntryOk, Rooted;
    if h.Some? && Lookup(t, h.value, n) == Some(i) {
      EntryFacts(t, h.value, n);
      DirOkIs(t, h.value);
    }
  }

  lemma Target2(t: Table, f: set<nat>, first: nat, d: nat, n: Name, i: nat)
    requires Inv(t, f, first)
    ensures Lookup(t, d, n) == Some(i) ==> Links(t, i) > 0 && i !in f && i in t && LiveDir(t, d)
  {
    hide Shape;
    if Lookup(t, d, n) == Some(i) { EntryFacts(t, d, n); }
  }

  /** `t'` is `t` with one link less for file `i`; if it is a leftover, nothing changes that counts. */
  ghost predicate LinkGone(t: Table, f: set<nat>, t': Table, f': set<nat>, i: nat, left: bool, first: nat) {
    if left then t' == t && f' == f && Links(t, i) == 0
    else if Links(t, i) <= 1 then i in t && t' == Destroy(t, i) && f' == (if i < first || i in f then f else f + {i})
    else i in t && t' == AdjLinks(t, i, -1) && f' == f
  }

  lemma UsedFacts(t: Table, f: set<nat>, first: nat, h: Option<nat>, n: Name, i: nat)
    requires Inv(t, f, first) && !IsDir(t, i)
    ensures h.Some? && Lookup(t, h.value, n) == Some(i) ==> Links(t, i) > 0 && i !in f && i >= first
  {
    hide Inv;
    if h.Some? && Lookup(t, h.value, n) == Some(i) {
      Target2(t, f, first, h.value, n, i);
      InUse(t, f, first, i);
      NotTheRoot(t, f, first, i);
    }
  }

  /** What becomes of the removal of a name that has gone from `h`. */
  lemma Unlinked1(t: Table, f: set<nat>, first: nat, h: Option<nat>, n: Name, i: nat, left: bool, t2: Table, t': Table, f': set<nat>)
    requires Inv(t, f, first) && i in t && !IsDir(t, i)
    requires h.None? ==> t2 == t
    requires h.Some? ==> IsDir(t, h.value) && Lookup(t, h.value, n) == Some(i) && t2 == DelEntry(t, h.value, n) && !Dots(n)
    requires LinkGone(t2, f, t', f', i, left, first)
    ensures Inv(t', f', first) <==> h.Some? || Links(t, i) == 0
    ensures h.Some? ==> !left && IsDropped(t, f, t', f', h.value, n)
  {
    hide Inv;
    if h.Some? {
      Target2(t, f, first, h.value, n, i);
      NotTheRoot(t, f, first, i);
      InUse(t, f, first, i);
      DroppedInv(t, f, first, h.value, n, i);
    } else if Links(t, i) > 0 {
      InUse(t, f, first, i);
      NotTheRoot(t, f, first, i);
      WrongCount(t, f, f', first, i, if Links(t, i) <= 1 then 0 else Links(t, i) - 1);
    } else {
      NotInUse(t, f, first, i);
      assert t' == t;
    }
  }

  lemma NotInUse(t: Table, free: set<nat>, first: nat, i: nat)
    requires Inv(t, free, first) && i in t && Links(t, i) == 0
    ensures i in free || i < first
  {
    hide Shape, Balanced;
  }

  lemma InUse(t: Table, free: set<nat>, first: nat, i: nat)
    requires Inv(t, free, first) && Links(t, i) > 0
    ensures i !in free && (i >= first || i == ROOT) && Links(t, i) <= LINKS_CAP
  {
    hide Shape;
  }

  lemma NotTheRoot(t: Table, free: set<nat>, first: nat, i: nat)
    requires Inv(t, free, first)
    ensures !IsDir(t, i) ==> i != ROOT
  {
    hide Shape, Balanced, FreeOk;
    InvParts(t, free, first);
    RootLive(t);
  }

  /** `t'` is `t` after directory `i` has been destroyed and, if that succeeded, the count of `d` lowered. */
  ghost predicate DirGone(t: Table, f: set<nat>, t': Table, f': set<nat>, d: nat, i: nat, left: bool, gone: bool, first: nat, ok: bool) {
    if gone then !ok && t' == t && f' == f && Links(t, i) == 0
    else
      && i in t && (ok <==> i >= first && i !in f) && f' == (if ok then f + {i} else f)
      && if left || !ok then t' == Destroy(t, i)
         else Links(Destroy(t, i), d) > 0 ==> d in t && t' == AdjLinks(Destroy(t, i), d, -1)
  }

  lemma DirGoneIs(t: Table, f: set<nat>, t1: Table, t': Table, f': set<nat>, d: nat, i: nat, left: bool, gone: bool, first: nat, ok: bool)
    ensures gone && !ok && t' == t && f' == f && Links(t, i) == 0 ==> DirGone(t, f, t', f', d, i, left, gone, first, ok)
    ensures !gone && i in t && (ok <==> i >= first && i !in f) && f' == (if ok then f + {i} else f) && t1 == Destroy(t, i)
            && (left || !ok ==> t' == t1) && (!left && ok && Links(t1, d) > 0 ==> d in t && d in t1 && t' == AdjLinks(t1, d, -1)) ==>
              DirGone(t, f, t', f', d, i, left, gone, first, ok)
  {
  }

  lemma SubdirOf(t: Table, f: set<nat>, first: nat, d: nat, n: Name, i: nat)
    requires Inv(t, f, first) && Lookup(t, d, n) == Some(i) && !Dots(n) && IsDir(t, i)
    ensures i != ROOT && d != i && LiveDir(t, i) && LiveDir(t, d) && 2 <= Links(t, d) <= LINKS_CAP
  {
    hide Shape, Balanced, FreeOk;
    NamedDirFacts(t, d, n, i);
    NotOwnParent(t, i);
    ParentLinks(t, d, i);
    CapOf(t);
  }

  /** What becomes of the removal of a directory whose name has gone from `h`. */
  lemma Removed1(t: Table, f: set<nat>, first: nat, d: nat, h: Option<nat>, n: Name, i: nat, left: bool, gone: bool, t2: Table, t': Table, f': set<nat>, ok: bool)
    requires Inv(t, f, first) && IsDir(t, i) && i != ROOT && !Dots(n) && (LiveDir(t, i) ==> EmptyDir(t, i))
    requires h.None? ==> t2 == t
    requires h.Some? ==> IsDir(t, h.value) && Lookup(t, h.value, n) == Some(i) && t2 == DelEntry(t, h.value, n)
    requires DirGone(t2, f, t', f', d, i, left, gone, first, ok) && (gone ==> Links(t, i) == 0)
    requires !left ==> h == Some(d)
    ensures ok ==> (Inv(t', f', first) <==> !left)
    ensures !ok ==> Inv(t', f', first)
    ensures !left ==> ok && IsRemoved(t, t', d, n) && f' == f + {i}
    ensures left && LiveDir(t, i) && !gone ==> ok
  {
    hide Inv, EmptyDir;
    if h.Some? { SubdirOf(t, f, first, h.value, n, i); }
    if LiveDir(t, i) { InUse(t, f, first, i); } else { DeadAsEver(t, f, first, i); }
    if !left {
      RemovedDirInv(t, f, first, d, n, i);
    } else if ok {
      if h.None? { NameStays(t, f, f', first, i); } else { CountStays(t, f, f', first, h.value, n, i); }
    }
  }

  lemma DeadAsEver(t: Table, f: set<nat>, first: nat, i: nat)
    requires Inv(t, f, first) && IsDir(t, i) && !LiveDir(t, i)
    ensures Destroy(t, i) == t && (i in f || i < first)
  {
    hide Shape, Balanced;
    DeadHasNothing(t, i);
  }

  lemma EmptyIs(t: Table, e: nat)
    ensures EmptyDir(t, e) <==> LiveDir(t, e) && forall n <- Entries(t[e]) :: Dots(n)
  {
  }

  /** The name is found in `dir` and leads to an empty directory. */
  ghost predicate Removable(records: Records, store: Store, t: Table, dir: nat, name: Name) {
    var f := Found(records, store, dir, name);
    D.ValidateName(name).None? && !Dots(name) && f.Ok? && f.value.Some? && EmptyDir(t, f.value.value) && f.value.value != ROOT
  }

  /** Directory `i` has gone from `dir`: its blocks are free, and the name fits again. */
  ghost predicate GoneFrom(records: Records, store: Store, freeBlocks: set<nat>, records': Records, store': Store, freeBlocks': set<nat>, dir: nat, name: Name, i: nat) {
    && Fits(records', store', dir, name) && Touched(store, store', BlocksAt(records, dir))
    && freeBlocks' == freeBlocks + (BlocksAt(records, i) * store'.Keys)
    && records'.Keys == records.Keys && (forall x <- records :: x != i && x != dir ==> records'[x] == records[x])
    && dir in records && records[dir].DirRecord? && records'[dir].DirRecord? && records'[dir].ptrs == records[dir].ptrs
  }

  ghost function RmdirRefusal(records: Records, store: Store, t: Table, dir: nat, name: Name): Option<FsError> {
    if D.ValidateName(name).Some? then D.ValidateName(name)
    else if Dots(name) then Some(Invalid)
    else
      var f := Found(records, store, dir, name);
      if f.Err? then Some(f.error)
      else if f.value.None? then Some(NotFound)
      else if f.value.value !in records then Some(Invalid)
      else if records[f.value.value].OtherRecord? then Some(NotDirectory)
      else if !EmptyDir(t, f.value.value) then Some(NotEmpty)
      else None
  }

  lemma SubdirIf(t: Table, f: set<nat>, first: nat, d: nat, n: Name, i: nat)
    requires Inv(t, f, first) && Lookup(t, d, n) == Some(i) && !Dots(n)
    ensures IsDir(t, i) ==> i != ROOT && d != i && LiveDir(t, i) && LiveDir(t, d) && 2 <= Links(t, d) <= LINKS_CAP
  {
    hide Inv;
    if IsDir(t, i) { SubdirOf(t, f, first, d, n, i); }
  }

  // ---- facts for rename ----------------------------------------------------------------------------

  /** The entry that a rename replaces: a file, or an empty directory. */
  ghost predicate Replaceable(t: Table, nd: nat, nn: Name, e: nat) {
    Lookup(t, nd, nn) == Some(e) && !Dots(nn) && (IsDir(t, e) ==> EmptyDir(t, e))
  }

  ghost predicate IsOverwritten(t: Table, f: set<nat>, t': Table, f': set<nat>, nd: nat, nn: Name, e: nat) {
    && IsDir(t, nd) && nn in t[nd].entries && t[nd].entries[nn] == e && e in t
    && t' == Overwritten(t, nd, nn) && f' == FreeAfterOverwrite(t, f, e)
  }

  lemma ReplaceFacts(t: Table, f: set<nat>, first: nat, nd: nat, nn: Name, e: nat)
    requires Inv(t, f, first) && Replaceable(t, nd, nn, e)
    ensures Lookup(t, nd, nn) == Some(e) && !Dots(nn) && e in t && e !in f && e >= first && e != ROOT && nn in EntriesAt(t, nd) && Links(t, nd) > 0
    ensures IsDir(t, e) ==> nd != e
  {
    hide Inv, EmptyDir;
    Target2(t, f, first, nd, nn, e);
    InUse(t, f, first, e);
    SubdirIf(t, f, first, nd, nn, e);
    NotTheRoot(t, f, first, e);
  }

  lemma Overwritten1(t: Table, f: set<nat>, first: nat, nd: nat, nn: Name, e: nat, t2: Table, t': Table, f': set<nat>, ok: bool)
    requires Inv(t, f, first) && Replaceable(t, nd, nn, e) && IsDir(t, nd) && t2 == DelEntry(t, nd, nn)
    requires if IsDir(t, e) then DirGone(t2, f, t', f', nd, e, false, false, first, ok) else LinkGone(t2, f, t', f', e, false, first)
    ensures IsOverwritten(t, f, t', f', nd, nn, e) && (IsDir(t, e) ==> ok)
  {
    hide Inv, EmptyDir;
    ReplaceFacts(t, f, first, nd, nn, e);
    if IsDir(t, e) { Removed1(t, f, first, nd, Some(nd), nn, e, false, false, t2, t', f', ok); } else { Unlinked1(t, f, first, Some(nd), nn, e, false, t2, t', f'); }
  }

  /** What the second half of a rename starts from. */
  ghost predicate MovesOn(t: Table, od: nat, on: Name, nd: nat, s: nat, live: bool) {
    && Lookup(t, od, on) == Some(s) && !Dots(on) && s in t && IsDir(t, nd)
    && (IsDir(t, s) ==> LiveDir(t, s) && (live ==> LiveDir(t, nd)) && s != od && s != nd && 0 < Links(t, od) <= LINKS_CAP)
  }

  ghost predicate IsMoved(t: Table, t': Table, od: nat, on: Name, nd: nat, nn: Name) {
    IsDir(t, od) && IsDir(t, nd) && on in t[od].entries && t[od].entries[on] in t && t' == Moved(t, od, on, nd, nn)
  }

  ghost predicate IsMovedAway(t: Table, t': Table, od: nat, on: Name, nd: nat) {
    IsDir(t, od) && on in t[od].entries && t[od].entries[on] in t && t' == MovedAway(t, od, on, nd)
  }

  /** Whoever receives the name does not have it. */
  ghost predicate Takes(t: Table, w: Option<nat>, nn: Name) {
    w.Some? ==> nn !in EntriesAt(t, w.value)
  }

  lemma StillThere(t: Table, od: nat, on: Name, w: Option<nat>, nn: Name, s: nat, t1: Table)
    requires Lookup(t, od, on) == Some(s) && Takes(t, w, nn)
    requires if w.None? then t1 == t else IsDir(t, w.value) && t1 == AddEntry(t, w.value, nn, s)
    ensures Lookup(t1, od, on) == Some(s) && (forall x :: IsDir(t1, x) <==> IsDir(t, x)) && (forall x :: Links(t1, x) == Links(t, x))
  {
  }

  /** The table with the new name and without the old; a name that strays is in nobody's. */
  ghost predicate Swapped(t: Table, t': Table, od: nat, on: Name, w: Option<nat>, nn: Name, s: nat) {
    && (w.Some? ==> IsDir(t, w.value)) && Takes(t, w, nn)
    && var t1 := if w.None? then t else AddEntry(t, w.value, nn, s); IsDir(t1, od) && t' == DelEntry(t1, od, on)
  }

  lemma SwappedIs(t: Table, t1: Table, t': Table, od: nat, on: Name, w: Option<nat>, nn: Name, s: nat)
    requires Takes(t, w, nn) && if w.None? then t1 == t else IsDir(t, w.value) && t1 == AddEntry(t, w.value, nn, s)
    requires IsDir(t1, od) && t' == DelEntry(t1, od, on)
    ensures Swapped(t, t', od, on, w, nn, s)
  {
  }

  /** What the second half of a rename has done: a move, to `nd` or to the directory that received
      the name; or the name is lost; or a directory hangs below a leftover. */
  ghost predicate MoveDone(t: Table, t': Table, od: nat, on: Name, nd: nat, nn: Name, s: nat, w: Option<nat>, left: bool) {
    if !left then w == Some(nd) && IsMoved(t, t', od, on, nd, nn)
    else if w.None? then IsMovedAway(t, t', od, on, nd)
    else if IsDir(t, s) then LiveDir(t', s) && Parent(t', s) == nd && !LiveDir(t', nd)
    else IsMoved(t, t', od, on, w.value, nn)
  }

  lemma MoverFacts(t: Table, od: nat, on: Name, nd: nat, s: nat, live: bool)
    requires MovesOn(t, od, on, nd, s, live)
    ensures Lookup(t, od, on) == Some(s) && !Dots(on) && IsDir(t, nd) && s in t
  {
  }

  lemma MovedNear(t: Table, od: nat, on: Name, nd: nat, nn: Name, s: nat, w: Option<nat>, t2: Table, left: bool)
    requires MovesOn(t, od, on, nd, s, !left) && (!IsDir(t, s) || od == nd) && (left ==> !IsDir(t, s)) && (!left ==> w == Some(nd))
    requires Swapped(t, t2, od, on, w, nn, s)
    ensures MoveDone(t, t2, od, on, nd, nn, s, w, left)
  {
  }

  /** The new parent of `s` and the link counts of both parents. */
  ghost predicate Rehung(t: Table, t': Table, od: nat, nd: nat, s: nat, left: bool) {
    && IsDir(t, s) && od in t && nd in t
    && var t1 := AdjLinks(AddEntry(t, s, DOTDOT, nd), od, -1); t' == if left then t1 else AdjLinks(t1, nd, 1)
  }

  ghost predicate CanRehang(t: Table, od: nat, nd: nat, s: nat, left: bool) {
    IsDir(t, od) && IsDir(t, nd) && LiveDir(t, s) && Links(t, od) > 0 && (!left ==> Links(t, nd) > 0) && s != od && s != nd && od != nd
  }

  lemma CanFacts(t: Table, od: nat, nd: nat, s: nat, left: bool)
    requires CanRehang(t, od, nd, s, left)
    ensures IsDir(t, s) && Links(t, s) > 0 && Links(t, od) > 0 && (!left ==> Links(t, nd) > 0) && s != od && s != nd && od != nd
  {
  }

  /** The counts along the way. */
  lemma RehangSteps(t: Table, od: nat, nd: nat, s: nat, left: bool)
    requires CanRehang(t, od, nd, s, left)
    ensures s in t && od in t && nd in t
    ensures var t1 := AddEntry(t, s, DOTDOT, nd); Links(t1, od) == Links(t, od) && od in t1 && nd in t1
    ensures var t2 := AdjLinks(AddEntry(t, s, DOTDOT, nd), od, -1); Links(t2, nd) == Links(t, nd) && nd in t2
  {
  }

  lemma MovedFar(t: Table, od: nat, on: Name, nd: nat, nn: Name, s: nat, w: Option<nat>, t2: Table, t': Table, left: bool)
    requires MovesOn(t, od, on, nd, s, !left) && IsDir(t, s) && od != nd && Swapped(t, t2, od, on, w, nn, s)
    requires if left then Links(t, nd) == 0 else w == Some(nd)
    ensures CanRehang(t2, od, nd, s, left)
    ensures Rehung(t2, t', od, nd, s, left) ==> MoveDone(t, t', od, on, nd, nn, s, w, left)
  {
    Letters();
  }

  /** The name is not found in `dir`, and whoever would receive it does not have it. */
  ghost predicate LeftFree(records: Records, store: Store, stale: set<nat>, dir: nat, name: Name) {
    Found(records, store, dir, name) == Ok(None) && Takes(See(records, store, stale), Receiver(records, store, stale, dir, name), name)
  }

  /** A directory in use receives the name of `s`, which is no directory. */
  ghost predicate ReceivesFile(t: Table, w: Option<nat>, s: nat) {
    w.Some? && LiveDir(t, w.value) && !IsDir(t, s)
  }

  lemma FoundDir(records: Records, store: Store, d: nat, n: Name)
    requires Found(records, store, d, n).Ok?
    ensures d in records && records[d].DirRecord?
  {
  }

  lemma FoundIs(records: Records, store: Store, d: nat, n: Name)
    requires d in records && records[d].DirRecord?
    ensures Found(records, store, d, n) ==
            var f := D.Finding(Load(store, records[d]).blocks, n);
            if f.Err? then Err(f.error) else Ok(if f.value.Some? then Some(f.value.value.1) else None)
    ensures var f := Found(records, store, d, n); f.Ok? && f.value.Some? ==> FoundIno(records, store, d, n) == f.value.value
  {
  }

  /** A file with a name to spare. */
  ghost predicate Spare(t: Table, od: nat, on: Name, s: nat) {
    Lookup(t, od, on) == Some(s) && !Dots(on) && s in t && !IsDir(t, s) && 2 <= Links(t, s) <= LINKS_CAP
  }

  lemma SpareFacts(t: Table, f: set<nat>, od: nat, on: Name, s: nat)
    requires Spare(t, od, on, s)
    ensures Lookup(t, od, on) == Some(s) && !Dots(on) && !IsDir(t, s) && IsDir(t, od) && Lookup(t, od, on).Some?
    ensures s in DelEntry(t, od, on) && IsDropped(t, f, AdjLinks(DelEntry(t, od, on), s, -1), f, od, on)
  {
  }

  /** Two different names for one inode: a file with a name to spare. */
  lemma SpareIs(t: Table, f: set<nat>, first: nat, od: nat, on: Name, nd: nat, nn: Name, s: nat)
    requires Inv(t, f, first) && MovesOn(t, od, on, nd, s, true) && Lookup(t, nd, nn) == Some(s) && !Dots(nn) && !(od == nd && on == nn)
    ensures Spare(t, od, on, s) && !IsDir(t, s)
  {
    hide Inv, Shape, Balanced;
    InvParts(t, f, first);
    TwoNames(t, od, on, nd, nn, s);
    if IsDir(t, s) { OneName(t, od, on, nd, nn, s); }
    CapOf(t);
  }

  lemma SpareDone(t: Table, f: set<nat>, t': Table, od: nat, on: Name, nd: nat, nn: Name, s: nat)
    requires IsDropped(t, f, t', f, od, on) && MovesOn(t, od, on, nd, s, true) && Lookup(t, nd, nn) == Some(s) && !(od == nd && on == nn)
    ensures RenameDone(t, f, t', f, od, on, nd, nn)
  {
  }

  lemma LiveTarget(t: Table, f: set<nat>, first: nat, nd: nat, nn: Name, e: nat)
    requires Inv(t, f, first) && Lookup(t, nd, nn) == Some(e)
    ensures IsDir(t, e) ==> LiveDir(t, e)
  {
    hide Inv;
    Target2(t, f, first, nd, nn, e);
  }

  lemma ReplaceableIs(t: Table, nd: nat, nn: Name, s: nat, e: nat)
    requires Lookup(t, nd, nn) == Some(e) && !Dots(nn) && e != s && (IsDir(t, e) ==> EmptyDir(t, e)) && (IsDir(t, e) <==> IsDir(t, s))
    ensures Replaceable(t, nd, nn, e) && OverwriteRefused(t, s, e).None?
  {
  }

  /** An entry that may be overwritten is not the directory that holds the source. */
  lemma NotTheParent(t: Table, od: nat, on: Name, s: nat, e: nat)
    requires IsDir(t, od) && on in t[od].entries && !Dots(on) && e != s && OverwriteRefused(t, s, e).None?
    ensures e != od
  {
  }

  /** Clearing the target leaves what the second half needs. */
  lemma OverFacts(t: Table, f: set<nat>, first: nat, od: nat, on: Name, nd: nat, nn: Name, s: nat, e: nat, t1: Table, f1: set<nat>)
    requires Inv(t, f, first) && MovesOn(t, od, on, nd, s, true) && !Dots(nn) && e != s && OverwriteRefused(t, s, e).None?
    requires IsOverwritten(t, f, t1, f1, nd, nn, e)
    ensures MovesOn(t1, od, on, nd, s, true) && nn !in EntriesAt(t1, nd) && Movable(t1, od, on, nd, nn, s)
  {
    hide Inv, Overwritten;
    OverwriteThenMove(t, f, first, od, on, nd, nn, s, e);
    NotTheParent(t, od, on, s, e);
    SubdirIf(t, f, first, od, on, s);
    AfterOverwrite(t, od, on, nd, nn, s, e);
  }

  lemma AfterOverwrite(t: Table, od: nat, on: Name, nd: nat, nn: Name, s: nat, e: nat)
    requires IsDir(t, nd) && nn in t[nd].entries && t[nd].entries[nn] == e && e in t && e != s && e != od && s in t
    requires (IsDir(t, s) ==> LiveDir(t, s) && s != nd && 0 < Links(t, od) <= LINKS_CAP && (od == nd ==> Links(t, od) >= 2))
    ensures var t1 := Overwritten(t, nd, nn);
            IsDir(t1, s) ==> LiveDir(t1, s) && 0 < Links(t1, od) <= LINKS_CAP
  {
  }

  lemma OverDone(t: Table, f: set<nat>, t1: Table, f1: set<nat>, t': Table, od: nat, on: Name, nd: nat, nn: Name, s: nat, e: nat)
    requires MovesOn(t, od, on, nd, s, true) && IsOverwritten(t, f, t1, f1, nd, nn, e) && e != s && Movable(t1, od, on, nd, nn, s)
    requires IsMoved(t1, t', od, on, nd, nn) && !(od == nd && on == nn)
    ensures RenameDone(t, f, t', f1, od, on, nd, nn)
  {
    hide Overwritten, Moved, FreeAfterOverwrite;
  }

  /** What the search for the source has found can be moved, once the parent walk allows it. */
  lemma MoveStart(t: Table, f: set<nat>, first: nat, od: nat, on: Name, nd: nat, s: nat, left: bool)
    requires Inv(t, f, first) && Lookup(t, od, on) == Some(s) && !Dots(on) && IsDir(t, nd) && (left ==> Links(t, nd) == 0)
    ensures IsDir(t, s) ==> LiveDir(t, s)
    ensures !IsDir(t, s) || left || TreeWalk(t, nd, s).None? ==> MovesOn(t, od, on, nd, s, !left) && (IsDir(t, s) && !left ==> !Inside(t, nd, s))
  {
    hide Inv, Inside;
    Target2(t, f, first, od, on, s);
    SubdirIf(t, f, first, od, on, s);
    InsideUp(t, nd, s);
  }

  lemma MoveRefusedIs(t: Table, s: nat, nd: nat, nn: Name, walk: Option<FsError>)
    ensures IsDir(t, s) && walk.Some? ==> MoveRefused(t, s, nd, nn, walk) == walk
    ensures !(IsDir(t, s) && walk.Some?) ==>
              MoveRefused(t, s, nd, nn, walk) == if Lookup(t, nd, nn).None? then None else OverwriteRefused(t, s, Lookup(t, nd, nn).value)
    ensures Lookup(t, nd, nn).None? <==> nn !in EntriesAt(t, nd)
  {
  }

  lemma MoveEnds(t: Table, f: set<nat>, first: nat, t': Table, od: nat, on: Name, nd: nat, nn: Name, s: nat, w: Option<nat>, left: bool)
    requires Inv(t, f, first)
    ensures !left && MoveDone(t, t', od, on, nd, nn, s, w, left) && nn !in EntriesAt(t, nd) && !(od == nd && on == nn) ==> RenameDone(t, f, t', f, od, on, nd, nn)
    ensures left && MoveDone(t, t', od, on, nd, nn, s, w, left) && Takes(t, w, nn) && Lookup(t, od, on) == Some(s) && s in t && !Dots(on) && !Dots(nn) && nd != s ==>
      (Inv(t', f, first) <==> ReceivesFile(t, w, s))
  {
    hide Inv, Moved, MovedAway;
    if left && MoveDone(t, t', od, on, nd, nn, s, w, left) && Takes(t, w, nn) && Lookup(t, od, on) == Some(s) && s in t && !Dots(on) && !Dots(nn) && nd != s {
      if w.None? {
        MovedAwayBreaks(t, f, first, od, on, nd, s);
      } else if IsDir(t, s) {
        DeadParent(t', f, first, s);
      } else {
        MoveExact(t, f, first, od, on, w.value, nn, s);
      }
    }
  }

  lemma RefusedSteps(t: Table, od: nat, on: Name, nd: nat, nn: Name)
    ensures RenameRefused(t, od, on, nd, nn) ==
      if D.ValidateName(on).Some? then D.ValidateName(on)
      else if D.ValidateName(nn).Some? then D.ValidateName(nn)
      else if Dots(on) || Dots(nn) then Some(Invalid)
      else if od == nd && on == nn then None
      else if od !in t then Some(Invalid)
      else if !IsDir(t, od) then Some(NotDirectory)
      else if nd !in t then Some(Invalid)
      else if !IsDir(t, nd) then Some(NotDirectory)
      else if Lookup(t, od, on).None? then Some(NotFound)
      else MoveRefused(t, Lookup(t, od, on).value, nd, nn, TreeWalk(t, nd, Lookup(t, od, on).value))
  {
    hide MoveRefused, TreeWalk, D.ValidateName;
  }

  lemma SameName(t: Table, f: set<nat>, od: nat, on: Name, nd: nat, nn: Name)
    ensures od == nd && on == nn ==> RenameDone(t, f, t, f, od, on, nd, nn) && RenameSound(t, od, on, nd, nn)
  {
  }
}
