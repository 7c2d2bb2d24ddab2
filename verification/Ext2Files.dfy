/** The ext2 driver's block and file operations over an in-memory device. */
module Ext2Files {
  import opened Common
  import opened Bits
  import opened BlockBitmap
  import opened BlockTree
  import opened PruneTree
  import opened InodeTree
  import opened FileSpace
  import opened FileGrow
  import opened FileNeed
  import opened LeanTree
  import opened FsErrors
  import Dyadic

  const MAX_FILE_SIZE: nat := 0x7FFF_FFFF
  const SECTOR_SIZE: nat := 512

  /** Every block of the device is a full block. */
  ghost predicate DeviceOk(d: Disk, g: Geometry) {
    4 * d.ppb == g.bs && |d.blocks| == g.blocksCount && forall b <- d.blocks :: |b| == g.bs
  }

  /** The inode's sector count is exact. */
  ghost predicate Shape(d: Disk, i: Inode, spb: nat) {
    && |i.ptrs| == SLOTS
    && (HasPointers(i) ==> i.sectors == Times(spb, |Owns(d, i)|))
  }

  /** An inode whose pointers are block pointers. */
  ghost predicate FileInode(i: Inode) {
    HasPointers(i) && |i.ptrs| == SLOTS
  }

  ghost predicate Shapes(d: Disk, tbl: Table, spb: nat) {
    forall i <- tbl :: Shape(d, tbl[i], spb)
  }

  /** A regular file reads as zero past its end, and is no larger than the cap. */
  ghost predicate TailZero(d: Disk, i: Inode) {
    i.kind.Regular? && |i.ptrs| == SLOTS ==>
      i.size <= MAX_FILE_SIZE && forall k: nat :: k >= i.size ==> ByteAt(d, i.ptrs, k) == 0
  }

  ghost predicate Tails(d: Disk, tbl: Table) {
    forall i <- tbl :: TailZero(d, tbl[i])
  }

  lemma ShapesKept(d: Disk, d': Disk, tbl: Table, ino: nat, i': Inode, spb: nat)
    requires Shapes(d, tbl, spb) && OthersKept(d, d', tbl, ino) && Shape(d', i', spb)
    ensures Shapes(d', tbl[ino := i'], spb)
  {
    hide SameFile, SameBytes, Pointers, Owns;
    forall j | j in tbl && j != ino ensures Shape(d', tbl[j], spb) {
      assert Shape(d, tbl[j], spb);
      OwnsTree(d, tbl[j]);
      OwnsTree(d', tbl[j]);
      SameFileTree(d, Pointers(tbl[j]), d', Pointers(tbl[j]));
    }
  }

  lemma TailsKept(d: Disk, d': Disk, tbl: Table, ino: nat, i': Inode)
    requires Tails(d, tbl) && OthersKept(d, d', tbl, ino) && TailZero(d', i')
    ensures Tails(d', tbl[ino := i'])
  {
    hide SameFile, ByteAt;
    forall j | j in tbl && j != ino ensures TailZero(d', tbl[j]) {
      assert TailZero(d, tbl[j]);
      if tbl[j].kind.Regular? && |tbl[j].ptrs| == SLOTS {
        assert Pointers(tbl[j]) == tbl[j].ptrs;
      }
    }
  }

  lemma PutDevice(d: Disk, g: Geometry, p: nat, c: seq<byte>)
    requires DeviceOk(d, g) && |c| == g.bs
    ensures DeviceOk(Put(d, p, c), g)
    ensures SameOutside(d, Put(d, p, c), {p})
    ensures p < |d.blocks| ==> Content(Put(d, p, c), p) == c
  {
  }

  /** The whole invariant, on plain values. */
  ghost predicate Consistent(g: Geometry, d: Disk, tbl: Table, bitmaps: seq<seq<byte>>, groupFree: seq<nat>, freeBlocks: nat,
                             meta: set<nat>, used: set<nat>) {
    && BitmapsOk(g, bitmaps, groupFree, freeBlocks, used) && DeviceOk(d, g) && (g.firstData > 0 || 0 in meta)
    && Conserved(d, tbl, meta, used) && Shapes(d, tbl, g.bs / SECTOR_SIZE) && Tails(d, tbl)
  }

  const BLANK: Inode := Inode(Special, 0, 0, 0, NO_POINTERS)

  /** The zeroed inode table. */
  function BlankTable(n: nat): Table {
    if n == 0 then map[] else BlankTable(n - 1)[n := BLANK]
  }

  lemma {:induction false} BlankAt(n: nat, i: nat)
    ensures i in BlankTable(n) <==> 1 <= i <= n
    ensures i in BlankTable(n) ==> BlankTable(n)[i] == BLANK
  {
    if n > 0 { BlankAt(n - 1, i); }
  }

  lemma {:induction false} BlankSlots(d: Disk, n: nat, part: Part)
    requires n <= SLOTS
    ensures Slots(d, NO_POINTERS, n, part) == multiset{}
  {
    if n > 0 {
      BlankSlots(d, n - 1, part);
      assert NO_POINTERS[n - 1] == 0;
      EmptyTree(d, Depth(n - 1), part);
    }
  }

  lemma BlankSound(d: Disk, n: nat, meta: set<nat>, spb: nat)
    ensures Conserved(d, BlankTable(n), meta, meta) && Shapes(d, BlankTable(n), spb) && Tails(d, BlankTable(n))
  {
    hide BlankTable, Slots;
    BlankSlots(d, SLOTS, Data);
    BlankSlots(d, SLOTS, Indirect);
    assert Owns(d, BLANK) == multiset{};
    forall i: nat ensures i in BlankTable(n) ==> BlankTable(n)[i] == BLANK { BlankAt(n, i); }
  }

  class Ext2 {
    const geo: Geometry
    ghost const meta: set<nat>

    var disk: Disk                   // data and indirect blocks
    var inodes: Table                // the inode table
    var bitmaps: seq<seq<byte>>      // the block bitmap of each group
    var groupFree: seq<nat>          // the free count in each group descriptor
    var freeBlocks: nat              // the free count of the superblock
    ghost var used: set<nat>

    /** A freshly formatted device: only metadata in use, all inodes blank. */
    constructor (geo: Geometry, disk: Disk, inodeCount: nat, bitmaps: seq<seq<byte>>, groupFree: seq<nat>, freeBlocks: nat, ghost meta: set<nat>)
      requires BitmapsOk(geo, bitmaps, groupFree, freeBlocks, meta) && DeviceOk(disk, geo) && (geo.firstData > 0 || 0 in meta)
      ensures Valid() && used == meta == this.meta && inodes == BlankTable(inodeCount) && this.geo == geo && this.disk == disk
    {
      hide BitmapsOk, DeviceOk, BlankTable, Conserved, Shapes, Tails;
      BlankSound(disk, inodeCount, meta, geo.bs / SECTOR_SIZE);
      this.geo, this.disk, this.meta, this.used := geo, disk, meta, meta;
      this.bitmaps, this.groupFree, this.freeBlocks := bitmaps, groupFree, freeBlocks;
      inodes := BlankTable(inodeCount);
    }

    /** A filesystem in any consistent state. */
    constructor Of(geo: Geometry, disk: Disk, inodes: Table, bitmaps: seq<seq<byte>>, groupFree: seq<nat>, freeBlocks: nat,
                   ghost meta: set<nat>, ghost used: set<nat>)
      requires Consistent(geo, disk, inodes, bitmaps, groupFree, freeBlocks, meta, used)
      ensures Valid() && this.geo == geo && this.disk == disk && this.inodes == inodes && this.freeBlocks == freeBlocks
    {
      hide BitmapsOk, DeviceOk, Conserved, Shapes, Tails;
      this.geo, this.disk, this.meta, this.used, this.inodes := geo, disk, meta, used, inodes;
      this.bitmaps, this.groupFree, this.freeBlocks := bitmaps, groupFree, freeBlocks;
    }

    /** The bitmaps and counters agree with the blocks in use. */
    ghost predicate Space()
      reads this
    {
      && BitmapsOk(geo, bitmaps, groupFree, freeBlocks, used)
      && DeviceOk(disk, geo)
      && (geo.firstData > 0 || 0 in meta)
    }

    /** Allocator, trees and sector counts agree, with the inode table taken to be `tbl`. */
    ghost predicate Sound(tbl: Table)
      reads this
    {
      Space() && Conserved(disk, tbl, meta, used) && Shapes(disk, tbl, SectorsPerBlock())
    }

    ghost predicate Valid()
      reads this
    {
      Sound(inodes) && Tails(disk, inodes)
    }

    function SectorsPerBlock(): nat {
      geo.bs / SECTOR_SIZE
    }

    /** The group in which blocks for inode `ino` are sought first. */
    function Goal(ino: nat): nat {
      if ino == 0 || geo.ipg == 0 then 0 else (ino - 1) / geo.ipg
    }

    /** That is the group of the inode itself. */
    lemma GoalIsGroup(group: nat, k: nat)
      requires k < geo.ipg
      ensures Goal(group * geo.ipg + k + 1) == group
    {
      assert group * geo.ipg >= 0;
      Dyadic.DivModUnique(group * geo.ipg + k, geo.ipg, group, k);
    }

    // ---- allocation --------------------------------------------------------------------

    /** Takes the first clear bit of the first group, from `goal` on, that has one. It fails
        only when every block is in use. */
    method AllocBlock(goal: nat) returns (r: Result<nat>)
      requires Space()
      modifies this`bitmaps, this`groupFree, this`freeBlocks, this`used
      ensures Space()
      ensures r.Ok? ==> r.value !in old(used) && used == old(used) + {r.value} && FirstFree(geo, old(used), goal, r.value)
      ensures r.Ok? ==> InRange(geo, r.value) && r.value < POINTER_LIMIT
      ensures r.Ok? ==> freeBlocks == old(freeBlocks) - 1
      ensures r.Err? ==> r.error == NoSpace && unchanged(this)
      ensures r.Err? ==> freeBlocks == 0 && forall x: nat :: InRange(geo, x) ==> x in used
    {
      hide Bit, SetBit, Zeros, Sum, BlockNo, BitsMean, Scan, FirstFree;
      for k := 0 to geo.ngroups
        invariant unchanged(this)
        invariant forall i: nat :: i < k ==> 0 <= Scan(goal, i, geo.ngroups) < geo.ngroups && groupFree[Scan(goal, i, geo.ngroups)] == 0
      {
        var g := Scan(goal, k, geo.ngroups);
        ScanBound(goal, k, geo.ngroups);
        if groupFree[g] != 0 {
          var bm := bitmaps[g];
          assert bm in bitmaps;
          var found := FindZero(bm, geo.bpg);
          ZerosNone(bm, geo.bpg);
          var bit := found.value;
          TakeBit(geo, bitmaps, groupFree, freeBlocks, used, g, bit);
          FirstFound(geo, bitmaps, groupFree, freeBlocks, used, goal, k, bit);
          var blk := BlockNo(geo, g, bit);
          bitmaps := bitmaps[g := SetBit(bm, bit)];
          groupFree := groupFree[g := groupFree[g] - 1];
          freeBlocks := freeBlocks - 1;
          used := used + {blk};
          return Ok(blk);
        }
      }
      forall g | 0 <= g < geo.ngroups ensures groupFree[g] == 0 {
        var i := ScanCovers(goal, geo.ngroups, g);
      }
      AllTaken(geo, bitmaps, groupFree, freeBlocks, used);
      return Err(NoSpace);
    }

    method AllocZeroedBlock(goal: nat) returns (r: Result<nat>)
      requires Space()
      modifies this`bitmaps, this`groupFree, this`freeBlocks, this`used, this`disk
      ensures Space()
      ensures r.Ok? ==> r.value !in old(used) && used == old(used) + {r.value} && FirstFree(geo, old(used), goal, r.value)
      ensures r.Ok? ==> InRange(geo, r.value) && r.value < POINTER_LIMIT
      ensures r.Ok? ==> disk == Put(old(disk), r.value, Zeroes(geo.bs)) && freeBlocks == old(freeBlocks) - 1
      ensures r.Err? ==> r.error == NoSpace && unchanged(this)
      ensures r.Err? ==> freeBlocks == 0 && forall x: nat :: InRange(geo, x) ==> x in used
    {
      hide BitmapsOk, FirstFree;
      r := AllocBlock(goal);
      if r.Ok? {
        PutDevice(disk, geo, r.value, Zeroes(geo.bs));
        disk := Put(disk, r.value, Zeroes(geo.bs));
      }
    }

    /** Gives a block back; freeing a free block is reported and changes nothing. */
    method FreeBlock(blk: nat) returns (r: Result<()>)
      requires Space()
      modifies this`bitmaps, this`groupFree, this`freeBlocks, this`used
      ensures Space()
      ensures r.Ok? <==> blk in old(used)
      ensures r.Ok? ==> used == old(used) - {blk} && freeBlocks == old(freeBlocks) + 1
      ensures r.Err? ==> r.error == Corrupt && unchanged(this)
    {
      hide Bit, ClearBit, Zeros, Sum, BlockNo, GroupOf, BitOfBlock;
      if blk < geo.firstData || blk >= geo.blocksCount {
        return Err(Corrupt);
      }
      BlockPlace(geo, blk);
      var g, bit := GroupOf(geo, blk), BitOfBlock(geo, blk);
      var bm := bitmaps[g];
      if !Bit(bm, bit) {
        return Err(Corrupt);
      }
      GiveBit(geo, bitmaps, groupFree, freeBlocks, used, g, bit);
      bitmaps := bitmaps[g := ClearBit(bm, bit)];
      groupFree := groupFree[g := groupFree[g] + 1];
      freeBlocks := freeBlocks + 1;
      used := used - {blk};
      return Ok(());
    }

    // ---- file block to device block ------------------------------------------------------

    /** Takes a zeroed block and makes it the empty slot of file block `l`. */
    method FillSlot(ghost ino: nat, i: Inode, goal: nat, l: nat, slot: nat) returns (i': Inode, r: Result<nat>)
      requires FileInode(i) && ino in inodes && Sound(inodes[ino := i])
      requires Locate(disk.ppb, l).At? && Locate(disk.ppb, l).slot == slot < SLOTS && i.ptrs[slot] == 0
      modifies this`bitmaps, this`groupFree, this`freeBlocks, this`used, this`disk
      ensures FileInode(i') && Sound(inodes[ino := i'])
      ensures i' == i.(ptrs := i'.ptrs, sectors := i'.sectors)
      ensures OthersKept(old(disk), disk, inodes, ino) && disk.ppb == old(disk.ppb)
      ensures SameBytes(old(disk), i.ptrs, disk, i'.ptrs)
      ensures r.Err? ==> r.error == NoSpace && i' == i && unchanged(this) && NoneFree() && freeBlocks == 0
      ensures r.Ok? ==> i'.sectors > i.sectors && freeBlocks == old(freeBlocks) - 1 && Blank(disk, r.value)
      ensures r.Ok? ==> r.value != 0 && Reaches(disk, i'.ptrs, l, r.value, Depth(slot), Locate(disk.ppb, l).rel)
      ensures r.Ok? ==> Added(old(disk), i.ptrs, disk, i'.ptrs, l, Depth(slot))
    {
      hide Added, Blank, Conserved, BitmapsOk, OthersKept, Owns, FileTree, Locate, Depth, Reaches, Span, ByteAt, Zeroes, SameBytes, SameFile;
      i' := i;
      ghost var d, tbl := disk, inodes[ino := i];
      ZeroNotFree(tbl);
      SectorsPositive();
      r := AllocZeroedBlock(goal);
      if r.Err? {
        KeptByNothing(d, inodes, ino, i.ptrs);
        return;
      }
      var n := r.value;
      i' := i.(ptrs := i.ptrs[slot := n], sectors := i.sectors + SectorsPerBlock());
      FreshContent(d, geo, n);
      ZeroedBlank(d, geo, n);
      RootFile(d, disk, tbl, ino, i', l, n, meta, old(used));
      FreeOutside(d, tbl, ino, meta, old(used), n);
      RootMissing(d, disk, i.ptrs, l, n);
      GrownShape(d, disk, i, i', n, SectorsPerBlock());
      ShapesKept(d, disk, tbl, ino, i', SectorsPerBlock());
      OthersKeptTable(d, disk, tbl, inodes, ino);
      assert tbl[ino := i'] == inodes[ino := i'];
    }

    /** Takes a zeroed block and hangs it below pointer `index` of the indirect block `cur`. */
    method HangBlock(ghost ino: nat, i: Inode, goal: nat, l: nat, cur: nat, ghost k: nat, ghost rel: nat, index: nat)
      returns (i': Inode, r: Result<nat>)
      requires FileInode(i) && ino in inodes && Sound(inodes[ino := i])
      requires Reaches(disk, i.ptrs, l, cur, k + 1, rel) && index == Digit(disk.ppb, k, rel) < disk.ppb
      requires cur != 0 && Word(Content(disk, cur), index) == 0
      modifies this`bitmaps, this`groupFree, this`freeBlocks, this`used, this`disk
      ensures FileInode(i') && Sound(inodes[ino := i'])
      ensures i' == i.(sectors := i'.sectors)
      ensures OthersKept(old(disk), disk, inodes, ino) && disk.ppb == old(disk.ppb)
      ensures SameBytes(old(disk), i.ptrs, disk, i'.ptrs)
      ensures r.Err? ==> r.error == NoSpace && i' == i && unchanged(this) && NoneFree() && freeBlocks == 0
      ensures r.Ok? ==> i'.sectors > i.sectors && freeBlocks == old(freeBlocks) - 1 && Blank(disk, r.value)
      ensures r.Ok? ==> r.value != 0 && Reaches(disk, i.ptrs, l, r.value, k, Rest(disk.ppb, k, rel))
      ensures r.Ok? ==> Added(old(disk), i.ptrs, disk, i.ptrs, l, k)
    {
      hide Added, Blank, Conserved, BitmapsOk, OthersKept, Owns, FileTree, Locate, Depth, Reaches, Span, ByteAt, Zeroes, SameBytes, SameFile, Digit, Rest, SetPtr;
      i' := i;
      ghost var d, tbl := disk, inodes[ino := i];
      ZeroNotFree(tbl);
      OnDevice(tbl, ino, l, cur, k, rel);
      SectorsPositive();
      r := AllocZeroedBlock(goal);
      if r.Err? {
        KeptByNothing(d, inodes, ino, i.ptrs);
        return;
      }
      var n := r.value;
      i' := i.(sectors := i.sectors + SectorsPerBlock());
      var buf := Content(disk, cur);
      LinkDevice(d, geo, cur, index, n);
      ZeroedBlank(d, geo, n);
      BlankKept(disk, cur, SetPtr(buf, index, n), n);
      disk := Put(disk, cur, SetPtr(buf, index, n));
      HangFile(d, disk, tbl, ino, i', l, cur, k, rel, n, meta, old(used));
      FreeOutside(d, tbl, ino, meta, old(used), n);
      HangMissing(d, disk, i.ptrs, l, cur, k, rel, n);
      GrownShape(d, disk, i, i', n, SectorsPerBlock());
      ShapesKept(d, disk, tbl, ino, i', SectorsPerBlock());
      OthersKeptTable(d, disk, tbl, inodes, ino);
      assert tbl[ino := i'] == inodes[ino := i'];
    }

    /** Maps file block `l` to a device block; with `create`, missing blocks are added on the way.
        Bytes never change, and a failed creation leaves a sound file. */
    method Bmap(ghost ino: nat, i: Inode, goal: nat, l: nat, create: bool) returns (i': Inode, r: Result<nat>)
      requires FileInode(i) && ino in inodes && Sound(inodes[ino := i])
      modifies this`bitmaps, this`groupFree, this`freeBlocks, this`used, this`disk
      ensures FileInode(i') && Sound(inodes[ino := i'])
      ensures i' == i.(ptrs := i'.ptrs, sectors := i'.sectors)
      ensures OthersKept(old(disk), disk, inodes, ino) && disk.ppb == old(disk.ppb)
      ensures SameBytes(old(disk), i.ptrs, disk, i'.ptrs)
      ensures !create ==> i' == i && unchanged(this)
      ensures (i'.sectors > i.sectors && freeBlocks < old(freeBlocks)) || (i' == i && unchanged(this))
      ensures r.Ok? ==> r.value == FileMap(disk, i'.ptrs, l) && (create ==> r.value != 0)
      ensures r.Err? ==> (r.error == TooBig && Locate(disk.ppb, l).Beyond?) || (r.error == NoSpace && create && NoneFree())
      ensures Locate(disk.ppb, l).Beyond? ==> r == Err(TooBig)
      ensures r == Err(TooBig) ==> i' == i && unchanged(this)
      ensures create ==> (r == Err(NoSpace) <==> old(freeBlocks) < FileMissing(old(disk), i.ptrs, l))
      ensures create && r.Ok? ==> freeBlocks == old(freeBlocks) - FileMissing(old(disk), i.ptrs, l)
      ensures r == Err(NoSpace) ==> freeBlocks == 0
      ensures create && r.Ok? ==> Filled(old(disk), i.ptrs, disk, i'.ptrs, l, 0)
    {
      hide Blank, Missing, Sound, OthersKept, SameBytes, SameFile, FileMap, Map, Reaches, Locate, Depth, Added, Filled;
      i' := i;
      KeptByNothing(disk, inodes, ino, i.ptrs);
      FilledStart(disk, i.ptrs, l);
      ghost var c := FileMissing(disk, i.ptrs, l);
      var place := Locate(disk.ppb, l);
      if place.Beyond? {
        return i, Err(TooBig);
      }
      LocateBase(disk.ppb, l);
      var cur := i.ptrs[place.slot];
      if cur == 0 {
        if !create {
          EmptySlot(disk, i.ptrs, l);
          return i, Ok(0);
        }
        MissingAll(disk, Depth(place.slot), place.rel);
        i', r := FillSlot(ino, i, goal, l, place.slot);
        if r.Err? { return; }
        cur := r.value;
        FilledStep(old(disk), i.ptrs, old(disk), i.ptrs, disk, i'.ptrs, l, Depth(place.slot));
        c := Depth(place.slot);
      } else {
        SlotReaches(disk, i.ptrs, l);
      }
      ghost var d1, p1 := disk, i'.ptrs;
      MissingBlank(disk, cur, Depth(place.slot), place.rel);
      if Depth(place.slot) == 0 {
        ReachedMap(disk, i'.ptrs, l, cur, 0, place.rel);
        r := Ok(cur);
      } else {
        i', r := Descend(ino, i', goal, l, cur, Depth(place.slot), place.rel, create);
        if create && r.Ok? { FilledTrans(old(disk), i.ptrs, d1, p1, disk, i'.ptrs, l, c); }
        OthersKeptTrans(old(disk), d1, disk, inodes, ino);
        SameBytesTrans(old(disk), i.ptrs, d1, p1, disk, i'.ptrs);
      }
    }

    /** The loop of `bmap`: from the indirect block `cur` down to the data block. */
    method Descend(ghost ino: nat, i: Inode, goal: nat, l: nat, top: nat, depth: nat, index: nat, create: bool)
      returns (i': Inode, r: Result<nat>)
      requires FileInode(i) && ino in inodes && Sound(inodes[ino := i])
      requires depth > 0 && top != 0 && Reaches(disk, i.ptrs, l, top, depth, index)
      modifies this`bitmaps, this`groupFree, this`freeBlocks, this`used, this`disk
      ensures FileInode(i') && Sound(inodes[ino := i'])
      ensures i' == i.(sectors := i'.sectors)
      ensures OthersKept(old(disk), disk, inodes, ino) && disk.ppb == old(disk.ppb)
      ensures SameBytes(old(disk), i.ptrs, disk, i.ptrs)
      ensures !create ==> i' == i && unchanged(this)
      ensures (i'.sectors > i.sectors && freeBlocks < old(freeBlocks)) || (i' == i && unchanged(this))
      ensures r.Ok? ==> r.value == FileMap(disk, i.ptrs, l) && (create ==> r.value != 0)
      ensures r.Err? ==> r.error == NoSpace && create && NoneFree()
      ensures create ==> (r.Err? <==> old(freeBlocks) < Missing(old(disk), top, depth, index))
      ensures create && r.Ok? ==> freeBlocks == old(freeBlocks) - Missing(old(disk), top, depth, index)
      ensures r.Err? ==> freeBlocks == 0
      ensures create && r.Ok? ==> Filled(old(disk), i.ptrs, disk, i.ptrs, l, 0)
    {
      hide Blank, Missing, Sound, OthersKept, SameBytes, SameFile, FileMap, Map, Reaches, Locate, Depth, Digit, Rest, Span, Content, Word, Added, Filled, FileMissing;
      i' := i;
      KeptByNothing(disk, inodes, ino, i.ptrs);
      FilledStart(disk, i.ptrs, l);
      ReachedMissing(disk, i.ptrs, l, top, depth, index);
      var cur: nat, d: nat, rel: nat := top, depth, index;
      while true
        invariant FileInode(i') && Sound(inodes[ino := i']) && i' == i.(sectors := i'.sectors)
        invariant d > 0 && cur != 0 && Reaches(disk, i.ptrs, l, cur, d, rel)
        invariant OthersKept(old(disk), disk, inodes, ino) && disk.ppb == old(disk.ppb)
        invariant SameBytes(old(disk), i.ptrs, disk, i.ptrs)
        invariant !create ==> i' == i && unchanged(this)
        invariant (i'.sectors > i.sectors && freeBlocks < old(freeBlocks)) || (i' == i && unchanged(this))
        invariant create ==> freeBlocks + Missing(old(disk), top, depth, index) == old(freeBlocks) + Missing(disk, cur, d, rel)
        invariant create ==> Filled(old(disk), i.ptrs, disk, i.ptrs, l, Missing(disk, cur, d, rel))
        decreases d
      {
        var slot := Digit(disk.ppb, d - 1, rel);
        ReachedDigit(disk, i.ptrs, l, cur, d, rel);
        var next := Word(Content(disk, cur), slot);
        MissingStep(disk, cur, d, rel);
        if next == 0 {
          if !create {
            ReachedMap(disk, i.ptrs, l, 0, d - 1, Rest(disk.ppb, d - 1, rel));
            return i', Ok(0);
          }
          ghost var d1 := disk;
          i', r := HangBlock(ino, i', goal, l, cur, d - 1, rel, slot);
          OthersKeptTrans(old(disk), d1, disk, inodes, ino);
          SameBytesTrans(old(disk), i.ptrs, d1, i.ptrs, disk, i.ptrs);
          if r.Err? { return; }
          next := r.value;
          MissingBlank(disk, next, d - 1, Rest(disk.ppb, d - 1, rel));
          FilledStep(old(disk), i.ptrs, d1, i.ptrs, disk, i.ptrs, l, d - 1);
        }
        rel := Rest(disk.ppb, d - 1, rel);
        if d == 1 {
          ReachedMap(disk, i.ptrs, l, next, 0, rel);
          return i', Ok(next);
        }
        cur := next;
        d := d - 1;
      }
    }

    // ---- freeing -------------------------------------------------------------------------

    /** Frees everything under indirect block `blk` at index `keep` and above. Lookups below
        `keep` are kept, the others become holes, and exactly the blocks that leave the tree are
        freed, each once. `emptied` says that `blk` itself is among them. */
    method FreeSubtree(blk: nat, depth: nat, keep: nat) returns (emptied: bool, freed: nat, ghost gone: multiset<nat>)
      requires Space() && depth > 0 && blk != 0
      requires NoDup(Tree(disk, blk, depth)) && AllIn(Tree(disk, blk, depth), used)
      modifies this`bitmaps, this`groupFree, this`freeBlocks, this`used, this`disk
      ensures Space()
      ensures SameOutside(old(disk), disk, SetOf(Blocks(old(disk), blk, depth, Indirect)))
      ensures Pruned(old(disk), blk, disk, if emptied then 0 else blk, depth, keep)
      ensures Split(old(disk), blk, disk, if emptied then 0 else blk, depth, gone)
      ensures used == old(used) - SetOf(gone) && freed == |gone| && freeBlocks == old(freeBlocks) + freed
      ensures keep == 0 ==> emptied
      ensures Lean(disk, if emptied then 0 else blk, depth, keep)
      decreases depth, 1
    {
      hide Lean, KidsLean, NoDup, AllIn, Split, Pruned, Tree, Blocks, Kids, Content, Word, KidSplit, KidsPruned, SameOutside, KidTree, SetOf, BitmapsOk, DeviceOk;
      ghost var d0 := disk;
      UsedOnDevice();
      RootSound(d0, geo, blk, depth, used);
      var buf, changed, allZero;
      buf, changed, allZero, freed, gone := PruneEntries(Content(disk, blk), depth - 1, keep);
      ghost var d1 := disk;
      SamePpbOutside(d0, d1, SetOf(Kids(d0, Content(d0, blk), d0.ppb, depth - 1, Indirect)));
      RootWritten(d0, blk, depth, d1, buf, gone, keep);
      PutBack(d1, geo, blk, buf);
      if changed {
        disk := Put(disk, blk, buf);
      }
      emptied := false;
      LeanNone(disk, 0, depth, keep);
      if !allZero {
        RootApart(d0, blk, depth, d1, buf, gone, keep);
        NodeLean(d1, blk, buf, depth, keep);
      }
      if allZero {
        RootDropped(d0, blk, depth, d1, buf, gone, keep);
        var _ := FreeBlock(blk);
        SetOfSum(gone, multiset{blk});
        emptied, freed, gone := true, freed + 1, gone + multiset{blk};
      }
    }

    /** The loop of `free_subtree` over the pointers of one indirect block, held in `b0`. */
    method PruneEntries(b0: seq<byte>, depth: nat, keep: nat)
      returns (buf: seq<byte>, changed: bool, allZero: bool, freed: nat, ghost gone: multiset<nat>)
      requires Space() && |b0| == geo.bs
      requires NoDup(KidTree(disk, b0, depth)) && AllIn(KidTree(disk, b0, depth), used)
      modifies this`bitmaps, this`groupFree, this`freeBlocks, this`used, this`disk
      ensures Space() && |buf| == geo.bs && (!changed ==> buf == b0)
      ensures SameOutside(old(disk), disk, SetOf(Kids(old(disk), b0, old(disk.ppb), depth, Indirect)))
      ensures KidsPruned(old(disk), b0, disk, buf, depth, old(disk.ppb), keep)
      ensures KidSplit(old(disk), b0, disk, buf, depth, gone)
      ensures used == old(used) - SetOf(gone) && freed == |gone| && freeBlocks == old(freeBlocks) + freed
      ensures allZero <==> forall j :: 0 <= j < old(disk.ppb) ==> Word(buf, j) == 0
      ensures keep == 0 ==> allZero
      ensures KidsLean(disk, buf, depth, disk.ppb, keep)
      decreases depth, 3
    {
      hide Lean, NoDup, AllIn, Split, Pruned, Tree, Blocks, Kids, Word, KidSplit, KidsPruned, SameOutside, KidTree, SetOf, Span, BitmapsOk, DeviceOk;
      ghost var d0 := disk;
      buf, changed, allZero, freed, gone := b0, false, true, 0, multiset{};
      KidsPrunedStart(disk, buf, depth, keep);
      KidSplitRefl(disk, buf, depth);
      SameOutsideRefl(disk, SetOf(Kids(disk, b0, disk.ppb, depth, Indirect)));
      SetOfNone();
      for i := 0 to disk.ppb
        invariant Space() && |buf| == geo.bs && disk.ppb == d0.ppb && (!changed ==> buf == b0)
        invariant SameOutside(d0, disk, SetOf(Kids(d0, b0, d0.ppb, depth, Indirect)))
        invariant KidsPruned(d0, b0, disk, buf, depth, i, keep)
        invariant KidSplit(d0, b0, disk, buf, depth, gone)
        invariant used == old(used) - SetOf(gone) && freed == |gone| && freeBlocks == old(freeBlocks) + freed
        invariant allZero <==> forall j :: 0 <= j < i ==> Word(buf, j) == 0
        invariant keep == 0 ==> allZero
        invariant KidsLean(disk, buf, depth, i, keep)
      {
        EntriesSound(d0, b0, disk, buf, depth, gone, old(used), used);
        KidSound(disk, buf, depth, i, used);
        var e, span := Word(buf, i), Span(disk.ppb, depth);
        ghost var d1, b1 := disk, buf;
        ghost var g: multiset<nat> := multiset{};
        var n: nat := 0;
        EntryKept(disk, buf, depth, i, keep);
        if e != 0 && Offset(disk.ppb, depth, i) + span > keep {
          buf, n, g := PruneEntry(buf, i, depth, keep);
          changed := true;
        }
        if Word(buf, i) != 0 { allZero := false; }
        KidsLeanStep(d1, b1, disk, buf, depth, i, keep);
        EntryDone(d0, b0, d1, b1, disk, buf, depth, i, keep, gone, g);
        SetOfSum(gone, g);
        gone, freed := gone + g, freed + n;
      }
    }

    /** One pointer of an indirect block that reaches past `keep`. */
    method PruneEntry(b: seq<byte>, i: nat, depth: nat, keep: nat) returns (buf: seq<byte>, freed: nat, ghost gone: multiset<nat>)
      requires Space() && |b| == geo.bs && i < disk.ppb && Word(b, i) != 0
      requires NoDup(Tree(disk, Word(b, i), depth)) && AllIn(Tree(disk, Word(b, i), depth), used)
      requires keep < Offset(disk.ppb, depth, i) + Span(disk.ppb, depth)
      modifies this`bitmaps, this`groupFree, this`freeBlocks, this`used, this`disk
      ensures Space() && |buf| == geo.bs && disk.ppb == old(disk.ppb)
      ensures forall j :: 0 <= j < disk.ppb && j != i ==> Word(buf, j) == Word(b, j)
      ensures SameOutside(old(disk), disk, SetOf(Blocks(old(disk), Word(b, i), depth, Indirect)))
      ensures Pruned(old(disk), Word(b, i), disk, Word(buf, i), depth, Sub(keep, Offset(disk.ppb, depth, i)))
      ensures Split(old(disk), Word(b, i), disk, Word(buf, i), depth, gone)
      ensures used == old(used) - SetOf(gone) && freed == |gone| && freeBlocks == old(freeBlocks) + freed
      ensures keep == 0 ==> Word(buf, i) == 0
      ensures Lean(disk, Word(buf, i), depth, Sub(keep, Offset(disk.ppb, depth, i)))
      decreases depth, 2
    {
      hide Lean, NoDup, Split, Pruned, Tree, Blocks, Word, SameOutside, SetOf, Span, BitmapsOk, AllIn;
      var e := Word(b, i);
      ZeroWord(disk, geo, b, i);
      if depth == 0 {
        DropData(disk, e, Sub(keep, Offset(disk.ppb, depth, i)), used);
        SpanOne(disk.ppb);
        SameOutsideRefl(disk, SetOf(Blocks(disk, e, depth, Indirect)));
        LeanNone(disk, 0, depth, Sub(keep, Offset(disk.ppb, depth, i)));
        var _ := FreeBlock(e);
        return SetPtr(b, i, 0), 1, multiset{e};
      }
      var emptied;
      emptied, freed, gone := FreeSubtree(e, depth, Sub(keep, Offset(disk.ppb, depth, i)));
      SamePpbOutside(old(disk), disk, SetOf(Blocks(old(disk), e, depth, Indirect)));
      buf := if emptied then SetPtr(b, i, 0) else b;
    }

    /** Frees what one indirect slot holds at file block `keep` and above. */
    method PruneSlot(p: nat, slot: nat, keep: nat) returns (q: nat, freed: nat, ghost gone: multiset<nat>)
      requires Space() && DIRECT <= slot < SLOTS
      requires NoDup(Tree(disk, p, Depth(slot))) && AllIn(Tree(disk, p, Depth(slot)), used)
      modifies this`bitmaps, this`groupFree, this`freeBlocks, this`used, this`disk
      ensures Space() && disk.ppb == old(disk.ppb)
      ensures SameOutside(old(disk), disk, SetOf(Blocks(old(disk), p, Depth(slot), Indirect)))
      ensures Pruned(old(disk), p, disk, q, Depth(slot), Sub(keep, Base(disk.ppb, slot)))
      ensures Split(old(disk), p, disk, q, Depth(slot), gone)
      ensures used == old(used) - SetOf(gone) && freed == |gone| && freeBlocks == old(freeBlocks) + freed
      ensures keep == 0 ==> q == 0
      ensures Lean(disk, q, Depth(slot), Sub(keep, Base(disk.ppb, slot)))
    {
      hide Lean, NoDup, AllIn, Split, Pruned, Tree, Blocks, SameOutside, SetOf, Span, BitmapsOk, DeviceOk, Base;
      var base, cover := Base(disk.ppb, slot), Span(disk.ppb, Depth(slot));
      KeepSlot(disk, p, Depth(slot), Sub(keep, base));
      SetOfNone();
      if p == 0 || keep >= base + cover {
        LeanNone(disk, p, Depth(slot), Sub(keep, base));
        return p, 0, multiset{};
      }
      var emptied;
      emptied, freed, gone := FreeSubtree(p, Depth(slot), Sub(keep, base));
      SamePpbOutside(old(disk), disk, SetOf(Blocks(old(disk), p, Depth(slot), Indirect)));
      q := if emptied then 0 else p;
    }

    /** The two loops of `truncate_blocks` over the pointer array. */
    method PruneSlots(p0: seq<nat>, keep: nat) returns (ptrs: seq<nat>, freed: nat, ghost gone: multiset<nat>)
      requires Space() && |p0| == SLOTS && NoDup(FileTree(disk, p0)) && AllIn(FileTree(disk, p0), used)
      modifies this`bitmaps, this`groupFree, this`freeBlocks, this`used, this`disk
      ensures Space() && |ptrs| == SLOTS && disk.ppb == old(disk.ppb)
      ensures SameOutside(old(disk), disk, SetOf(Slots(old(disk), p0, SLOTS, Indirect)))
      ensures FilePruned(old(disk), p0, disk, ptrs, keep) && FileSplit(old(disk), p0, disk, ptrs, gone)
      ensures used == old(used) - SetOf(gone) && freed == |gone| && freeBlocks == old(freeBlocks) + freed
      ensures keep == 0 ==> ptrs == NO_POINTERS
      ensures SlotsLean(disk, ptrs, SLOTS, keep)
    {
      hide Lean, SlotsLean, NoDup, AllIn, Split, Pruned, Tree, Blocks, Slots, SameOutside, SetOf, Span, BitmapsOk, DeviceOk, Base, FileTree, FileSplit,
           SlotsPrunedTo, FilePruned;
      ghost var d0 := disk;
      ghost var s := SetOf(Slots(disk, p0, SLOTS, Indirect));
      ptrs, freed, gone := p0, 0, multiset{};
      var first := if keep < DIRECT then keep else DIRECT;
      SlotsPrunedStart(disk, p0, first, keep);
      SameOutsideRefl(disk, s);
      SetOfNone();
      for slot := first to DIRECT
        invariant Space() && |ptrs| == SLOTS && disk.ppb == d0.ppb && SameOutside(d0, disk, s)
        invariant SlotsPrunedTo(d0, p0, disk, ptrs, slot, keep) && FileSplit(d0, p0, disk, ptrs, gone)
        invariant used == old(used) - SetOf(gone) && freed == |gone| && freeBlocks == old(freeBlocks) + freed
        invariant keep == 0 ==> forall j :: 0 <= j < slot ==> ptrs[j] == 0
      {
        SlotsSound(d0, p0, disk, ptrs, slot, gone, old(used), used);
        var p := ptrs[slot];
        ghost var g: multiset<nat> := multiset{};
        ghost var d1, p1 := disk, ptrs;
        BaseOfDirect(disk.ppb, slot);
        KeepSlot(disk, p, Depth(slot), Sub(keep, slot));
        SetOfNone();
        if p != 0 {
          DropData(disk, p, Sub(keep, slot), used);
          var _ := FreeBlock(p);
          ptrs, freed, g := ptrs[slot := 0], freed + 1, multiset{p};
        }
        SlotDone(d0, p0, d1, p1, disk, ptrs[slot], slot, keep, gone, g);
        SetOfSum(gone, g);
        gone := gone + g;
        assert ptrs == p1[slot := ptrs[slot]];
      }
      DirectLean(disk, ptrs, DIRECT, keep);
      for slot := DIRECT to SLOTS
        invariant Space() && |ptrs| == SLOTS && disk.ppb == d0.ppb && SameOutside(d0, disk, s)
        invariant SlotsLean(disk, ptrs, slot, keep)
        invariant SlotsPrunedTo(d0, p0, disk, ptrs, slot, keep) && FileSplit(d0, p0, disk, ptrs, gone)
        invariant used == old(used) - SetOf(gone) && freed == |gone| && freeBlocks == old(freeBlocks) + freed
        invariant keep == 0 ==> forall j :: 0 <= j < slot ==> ptrs[j] == 0
      {
        SlotsSound(d0, p0, disk, ptrs, slot, gone, old(used), used);
        ghost var d1, p1 := disk, ptrs;
        var q, n;
        ghost var g;
        q, n, g := PruneSlot(ptrs[slot], slot, keep);
        SlotDone(d0, p0, d1, p1, disk, q, slot, keep, gone, g);
        SlotOutside(d0, p0, d1, p1, disk, slot, gone);
        SlotsLeanStep(d1, p1, disk, q, slot, keep);
        SetOfSum(gone, g);
        ptrs, freed, gone := ptrs[slot := q], freed + n, gone + g;
      }
      SlotsAllPruned(d0, p0, disk, ptrs, keep);
    }

    /** Releases all blocks of a file at file block `keep` and above. */
    method TruncateBlocks(ghost ino: nat, i: Inode, keep: nat) returns (i': Inode, ghost gone: multiset<nat>)
      requires |i.ptrs| == SLOTS && ino in inodes && Sound(inodes[ino := i])
      modifies this`bitmaps, this`groupFree, this`freeBlocks, this`used, this`disk
      ensures |i'.ptrs| == SLOTS && i' == i.(ptrs := i'.ptrs, sectors := i'.sectors)
      ensures Sound(inodes[ino := i']) && disk.ppb == old(disk.ppb)
      ensures OthersKept(old(disk), disk, inodes, ino)
      ensures !HasPointers(i) ==> i' == i && unchanged(this) && gone == multiset{}
      ensures HasPointers(i) ==>
        && SameOutside(old(disk), disk, SetOf(Slots(old(disk), i.ptrs, SLOTS, Indirect)))
        && FilePruned(old(disk), i.ptrs, disk, i'.ptrs, keep)
        && FileSplit(old(disk), i.ptrs, disk, i'.ptrs, gone)
        && (keep == 0 ==> i'.ptrs == NO_POINTERS)
        && SlotsLean(disk, i'.ptrs, SLOTS, keep)
      ensures used == old(used) - SetOf(gone) && freeBlocks == old(freeBlocks) + |gone|
    {
      hide SlotsLean, NoDup, AllIn, Slots, SameOutside, SetOf, BitmapsOk, DeviceOk, FileTree, FileSplit, FilePruned, Conserved, OthersKept, Owns;
      ghost var d0, tbl := disk, inodes[ino := i];
      if !HasPointers(i) {
        OthersKeptRefl(disk, inodes, ino);
        SetOfNone();
        return i, multiset{};
      }
      FileSound(d0, tbl, ino, meta, used);
      var ptrs, freed;
      ptrs, freed, gone := PruneSlots(i.ptrs, keep);
      i' := i.(ptrs := ptrs, sectors := Sub(i.sectors, Times(SectorsPerBlock(), freed)));
      Shrunk(d0, disk, tbl, ino, i', gone, freed, meta, old(used), used, SectorsPerBlock());
      OthersKeptTable(d0, disk, tbl, inodes, ino);
      assert tbl[ino := i'] == inodes[ino := i'];
    }

    // ---- reading and writing ------------------------------------------------------------------

    /** Writes part of one data block of a file: exactly those bytes of the file change. */
    method WriteChunk(ghost ino: nat, i: Inode, ghost lb: nat, bo: nat, chunk: seq<byte>, pb: nat)
      requires FileInode(i) && ino in inodes && Sound(inodes[ino := i])
      requires pb == FileMap(disk, i.ptrs, lb) && pb != 0 && bo + |chunk| <= geo.bs
      modifies this`disk
      ensures Sound(inodes[ino := i]) && disk.ppb == old(disk.ppb)
      ensures OthersKept(old(disk), disk, inodes, ino)
      ensures forall k: nat :: ByteAt(disk, i.ptrs, k) ==
                if lb * geo.bs + bo <= k < lb * geo.bs + bo + |chunk| then chunk[k - (lb * geo.bs + bo)]
                else ByteAt(old(disk), i.ptrs, k)
      ensures SameNeed(old(disk), disk, i.ptrs) && SameFile(old(disk), i.ptrs, disk, i.ptrs) && SameOutside(old(disk), disk, {pb})
    {
      hide BitmapsOk, Conserved, OthersKept, Owns, FileTree, FileMap, ByteAt, Shapes, SameNeed, SameFile;
      ghost var d, tbl := disk, inodes[ino := i];
      DataOnDevice(tbl, ino, lb);
      var buf := Content(disk, pb);
      buf := buf[..bo] + chunk + buf[bo + |chunk|..];
      PutDevice(disk, geo, pb, buf);
      disk := Put(disk, pb, buf);
      FileSound(d, tbl, ino, meta, used);
      OverwriteBlock(d, i.ptrs, lb, buf);
      DataWriteNeed(d, disk, i.ptrs, lb);
      OverwriteKept(d, tbl, ino, lb, buf, meta, used, SectorsPerBlock());
      OthersKeptTable(d, disk, tbl, inodes, ino);
      ChunkBytes(d, disk, i.ptrs, lb, bo, chunk, buf, geo.bs);
    }

    /** A mapped data block lies on the device. */
    lemma DataOnDevice(tbl: Table, ino: nat, lb: nat)
      requires ino in tbl && FileInode(tbl[ino]) && Sound(tbl) && FileMap(disk, tbl[ino].ptrs, lb) != 0
      ensures var pb := FileMap(disk, tbl[ino].ptrs, lb);
              pb in used && pb < |disk.blocks| && |Content(disk, pb)| == geo.bs
      ensures geo.bs == BlockSize(disk) && tbl[ino := tbl[ino]] == tbl
    {
      hide BitsMean, Counted, Shapes, Conserved, FileMap, FileTree, NoDup, Slots;
      var pb := FileMap(disk, tbl[ino].ptrs, lb);
      FileSound(disk, tbl, ino, meta, used);
      FileMapIsData(disk, tbl[ino].ptrs, lb);
      TreeHasData(disk, tbl[ino].ptrs, pb);
      assert pb in used;
      assert disk.blocks[pb] in disk.blocks;
    }

    /** What the invariant says of a regular file. */
    lemma RegularFile(ino: nat)
      requires Valid() && ino in inodes && inodes[ino].kind.Regular?
      ensures FileInode(inodes[ino]) && Pointers(inodes[ino]) == inodes[ino].ptrs
      ensures inodes[ino := inodes[ino]] == inodes
      ensures TailZero(disk, inodes[ino]) && inodes[ino].size <= MAX_FILE_SIZE
      ensures geo.bs > 0 && geo.bs == BlockSize(disk)
    {
      hide Conserved, BitsMean, Counted, ByteAt;
      assert Shape(disk, inodes[ino], SectorsPerBlock()) && TailZero(disk, inodes[ino]);
    }

    method Read(ino: nat, off: nat, len: nat) returns (r: Result<seq<byte>>)
      requires Valid()
      modifies this`bitmaps, this`groupFree, this`freeBlocks, this`used, this`disk
      ensures unchanged(this)
      ensures ReadSpec(disk, inodes, ino, off, len, r)
    {
      hide Sound, Tails, ByteAt, TailZero, BlockSize, Bytes;
      if ino !in inodes { return Err(Invalid); }
      var i := inodes[ino];
      if i.kind.Directory? { return Err(IsDirectory); }
      if !i.kind.Regular? { return Err(Invalid); }
      RegularFile(ino);
      if off >= i.size { return Ok([]); }
      var n := if len < i.size - off then len else i.size - off;
      var buf := ReadBlocks(ino, i, off, n);
      assert n == i.size - off ==> buf == Bytes(disk, i)[off..];
      return Ok(buf);
    }

    /** The loop of `read`; the device is not written. */
    method ReadBlocks(ghost ino: nat, i: Inode, off: nat, n: nat) returns (buf: seq<byte>)
      requires FileInode(i) && ino in inodes && Sound(inodes[ino := i]) && off + n <= i.size <= MAX_FILE_SIZE
      modifies this`bitmaps, this`groupFree, this`freeBlocks, this`used, this`disk
      ensures unchanged(this)
      ensures buf == Bytes(disk, i)[off..off + n]
    {
      hide Sound, FileMap, Map, ByteAt, BlockIdx, BlockOff, Locate, Content, BlockSize, Bytes, OthersKept, SameBytes;
      buf := [];
      ghost var tbl := inodes[ino := i];
      while |buf| < n
        invariant |buf| <= n && unchanged(this)
        invariant forall j :: 0 <= j < |buf| ==> buf[j] == ByteAt(disk, i.ptrs, off + j)
      {
        var pos := off + |buf|;
        BlockPosition(tbl, pos);
        var lb, bo := BlockIdx(geo.bs, pos), BlockOff(geo.bs, pos);
        var chunk := if geo.bs - bo < n - |buf| then geo.bs - bo else n - |buf|;
        var _, pb := Bmap(ino, i, 0, lb, false);
        var part: seq<byte> := Zeroes(chunk);
        FileTreeSound(tbl, ino);
        if pb.value != 0 {
          DataOnDevice(tbl, ino, lb);
          part := Content(disk, pb.value)[bo..bo + chunk];
        }
        ReadPart(disk, i.ptrs, lb, bo, chunk, part);
        buf := buf + part;
      }
      ReadDone(disk, i, off, n, buf);
    }

    /** Lays `data` over the file from `off` on, as far as blocks can be had: the result is the
        number of bytes written, and it falls short only at the size cap or where the blocks that
        the bytes up to there need are more than were free. */
    method Write(ino: nat, off: nat, data: seq<byte>) returns (r: Result<nat>)
      requires Valid()
      modifies this`bitmaps, this`groupFree, this`freeBlocks, this`used, this`disk, this`inodes
      ensures Valid()
      ensures WriteRefused(old(inodes), ino, off, data).Some? ==>
                r == Err(WriteRefused(old(inodes), ino, off, data).value) && unchanged(this)
      ensures WriteRefused(old(inodes), ino, off, data).None? ==>
                && (r.Ok? || r == Err(NoSpace))
                && WriteSpec(old(disk), old(inodes), disk, inodes, ino, off, data, if r.Ok? then r.value else 0)
      ensures r == Err(NoSpace) ==> NoneFree()
      ensures WriteRefused(old(inodes), ino, off, data).None? && data != [] ==>
                (r == Err(NoSpace) <==> old(freeBlocks) < FirstBlocks(old(disk), old(inodes), ino, off, geo.bs))
      ensures r.Ok? && r.value < |data| ==> NoneFree() || off + r.value == MAX_FILE_SIZE
      ensures WriteRefused(old(inodes), ino, off, data).None? && data != [] ==>
                WritesWhatFits(old(disk), old(inodes), ino, off, data, geo.bs, old(freeBlocks), if r.Ok? then r.value else 0, freeBlocks)
    {
      hide Sound, Tails, OthersKept, ByteAt, Bytes, Overlay, TailZero, Laid, FileMissing, AsFits, Needed;
      OthersKeptRefl(disk, inodes, ino);
      if ino !in inodes { return Err(Invalid); }
      var i := inodes[ino];
      if i.kind.Directory? { return Err(IsDirectory); }
      if !i.kind.Regular? { return Err(Invalid); }
      if data == [] {
        NothingLaid(Bytes(disk, i), off, data);
        return Ok(0);
      }
      if off >= MAX_FILE_SIZE { return Err(TooBig); }
      RegularFile(ino);
      var len := if off + |data| > MAX_FILE_SIZE then MAX_FILE_SIZE - off else |data|;
      var done, i', failed := WriteBlocks(ino, i, off, data[..len], Goal(ino));
      if done > 0 && off + done > i'.size {
        i' := ResizeInode(ino, i', off + done);
      }
      assert data[..len][..done] == data[..done];
      FirstNeed(old(disk), i.ptrs, geo.bs, off, len, old(freeBlocks), done);
      WrittenFile(old(disk), i, disk, i', off, data[..done]);
      CommitInode(ino, i', old(disk));
      if failed && done == 0 { return Err(NoSpace); }
      return Ok(done);
    }

    /** `destroy_inode`: exactly the blocks of the file become free, and the inode owns nothing. */
    method DestroyInode(ino: nat)
      requires Valid() && ino in inodes
      modifies this`bitmaps, this`groupFree, this`freeBlocks, this`used, this`disk, this`inodes
      ensures Valid() && ino in inodes && inodes == old(inodes)[ino := inodes[ino]] && inodes[ino].links == 0
      ensures inodes[ino] == old(inodes)[ino].(links := 0, ptrs := inodes[ino].ptrs, size := inodes[ino].size, sectors := inodes[ino].sectors)
      ensures if HasPointers(old(inodes)[ino]) then inodes[ino].size == inodes[ino].sectors == 0 && inodes[ino].ptrs == NO_POINTERS
              else inodes[ino] == old(inodes)[ino].(links := 0)
      ensures used == old(used) - SetOf(Owns(old(disk), old(inodes)[ino])) && Owns(disk, inodes[ino]) == multiset{}
      ensures freeBlocks == old(freeBlocks) + |Owns(old(disk), old(inodes)[ino])|
      ensures OthersKept(old(disk), disk, inodes, ino)
    {
      hide Sound, Tails, OthersKept, ByteAt, Owns, FileTree, TailZero, FilePruned, FileSplit, SetOf;
      AnyFile(ino);
      var i := inodes[ino];
      var i', gone := TruncateBlocks(ino, i, 0);
      AllGone(old(disk), disk, i, i', gone);
      var dead := i'.(links := 0);
      if HasPointers(i') { dead := dead.(size := 0, sectors := 0); }
      Emptied(ino, i', dead);
      CommitInode(ino, dead, old(disk));
    }

    /** What the invariant says of any inode. */
    lemma AnyFile(ino: nat)
      requires Valid() && ino in inodes
      ensures |inodes[ino].ptrs| == SLOTS && inodes[ino := inodes[ino]] == inodes && Sound(inodes[ino := inodes[ino]])
    {
      hide Conserved, BitmapsOk, ByteAt, Tails;
      assert Shape(disk, inodes[ino], SectorsPerBlock());
    }

    /** An inode without blocks may change in all else. */
    lemma Emptied(ino: nat, i: Inode, dead: Inode)
      requires ino in inodes && Sound(inodes[ino := i]) && Owns(disk, i) == multiset{} && |dead.ptrs| == SLOTS
      requires dead.ptrs == i.ptrs && dead.kind == i.kind && dead.links == 0
      requires if HasPointers(i) then dead.ptrs == NO_POINTERS && dead.size == 0 && dead.sectors == 0 else dead.size == i.size && dead.sectors == i.sectors
      ensures Sound(inodes[ino := dead]) && Owns(disk, dead) == multiset{} && TailZero(disk, dead)
    {
      hide Conserved, BitmapsOk, OthersKept, ByteAt, FileTree;
      var t := inodes[ino := i];
      BlankTree(disk);
      assert Pointers(dead) == NO_POINTERS;
      OthersKeptRefl(disk, t, ino);
      MetaUsed(disk, t, meta, used);
      Reassign(disk, disk, t, ino, dead, meta, used, used);
      ShapesKept(disk, disk, t, ino, dead, SectorsPerBlock());
      assert t[ino := dead] == inodes[ino := dead];
      if dead.kind.Regular? { forall k: nat ensures ByteAt(disk, NO_POINTERS, k) == 0 { BlankByte(disk, k); } }
    }

    /** `write_inode`: the inode in hand becomes the stored one. */
    method CommitInode(ino: nat, i: Inode, ghost d: Disk)
      requires ino in inodes && Sound(inodes[ino := i]) && Tails(d, inodes) && OthersKept(d, disk, inodes, ino) && TailZero(disk, i)
      modifies this`inodes
      ensures inodes == old(inodes)[ino := i] && Valid() && OthersKept(d, disk, inodes, ino)
    {
      hide Conserved, BitmapsOk, OthersKept, TailZero, Shapes;
      TailsKept(d, disk, inodes, ino, i);
      OthersKeptTable(d, disk, inodes, inodes[ino := i], ino);
      inodes := inodes[ino := i];
    }

    /** The last step of `dir_add`: a new block at the end of a directory. When the device fills up on
        the way, the blocks already added are not recorded in the stored inode: the invariant breaks
        exactly if there are free blocks, but fewer than the path to the new block needs. */
    method AppendBlock(ino: nat, page: seq<byte>) returns (r: Result<()>)
      requires Valid() && ino in inodes && inodes[ino].kind.Directory? && |page| == geo.bs > 0
      modifies this`bitmaps, this`groupFree, this`freeBlocks, this`used, this`disk, this`inodes
      ensures ino in inodes && OthersKept(old(disk), disk, inodes, ino)
      ensures r.Ok? ==> Valid() && inodes == old(inodes)[ino := inodes[ino]]
      ensures r.Ok? ==> Appended(old(disk), old(inodes)[ino], disk, inodes[ino], page)
      ensures r.Err? ==> inodes == old(inodes) && (r == Err(NoSpace) || (r == Err(TooBig) && unchanged(this)))
      ensures r == Err(TooBig) <==> Locate(old(disk).ppb, BlockIdx(geo.bs, old(inodes)[ino].size)).Beyond?
      ensures r == Err(NoSpace) <==> old(freeBlocks) < NewBlocks(old(disk), old(inodes)[ino], geo.bs)
      ensures !Valid() <==> 0 < old(freeBlocks) < NewBlocks(old(disk), old(inodes)[ino], geo.bs)
    {
      hide Conserved, BitmapsOk, Shapes, Tails, OthersKept, ByteAt, TailZero, SameBytes, FileMap, Locate, BlockIdx, FileMissing;
      ghost var d, i0 := disk, inodes[ino];
      DirectoryFile(ino);
      OthersKeptRefl(disk, inodes, ino);
      var i := inodes[ino];
      var lb := BlockIdx(geo.bs, i.size);
      var i', pb := Bmap(ino, i, Goal(ino), lb, true);
      if pb.Err? {
        if i'.sectors > i.sectors { Unrecorded(ino, i'); }
        return Err(pb.error);
      }
      ghost var d1 := disk;
      LaidNothing(d, i.ptrs, lb * geo.bs, []);
      LaidSame(d, i.ptrs, d, i.ptrs, disk, i'.ptrs, lb * geo.bs, []);
      WriteChunk(ino, i', lb, 0, page, pb.value);
      OthersKeptTrans(d, d1, disk, inodes, ino);
      LaidMore(d, i.ptrs, d1, disk, i'.ptrs, lb * geo.bs, [], page, lb * geo.bs);
      assert [] + page == page;
      i' := ResizeInode(ino, i', i.size + geo.bs);
      DirectoryTail(disk, i');
      CommitInode(ino, i', d);
      r := Ok(());
    }

    /** What the invariant says of a directory. */
    lemma DirectoryFile(ino: nat)
      requires Valid() && ino in inodes && inodes[ino].kind.Directory?
      ensures FileInode(inodes[ino]) && inodes[ino := inodes[ino]] == inodes
    {
      hide Conserved, BitmapsOk, ByteAt, Tails;
      assert Shape(disk, inodes[ino], SectorsPerBlock());
    }

    /** If the tree in hand has grown, the stored inode no longer matches the blocks in use. */
    lemma Unrecorded(ino: nat, i: Inode)
      requires ino in inodes && FileInode(i) && FileInode(inodes[ino]) && Sound(inodes[ino := i]) && i.sectors != inodes[ino].sectors
      ensures !Sound(inodes)
    {
      hide Conserved, BitmapsOk, Owns, Shapes, DeviceOk;
      BlocksDetermined(disk, inodes, ino, i, meta, used);
      SectorsExact(disk, inodes, ino, SectorsPerBlock());
      SectorsExact(disk, inodes[ino := i], ino, SectorsPerBlock());
    }

    /** `set_size` on the inode in hand. */
    method ResizeInode(ghost ino: nat, i: Inode, size: nat) returns (i': Inode)
      requires FileInode(i) && !i.kind.Symlink? && ino in inodes && Sound(inodes[ino := i])
      ensures i' == i.(size := size) && FileInode(i') && Sound(inodes[ino := i'])
    {
      hide Conserved, BitmapsOk;
      i' := i.(size := size);
      SizeOnly(disk, inodes, ino, i, i', meta, used, SectorsPerBlock());
    }

    /** Cuts or extends a regular file to `size` bytes. */
    method Truncate(ino: nat, size: nat) returns (r: Result<()>)
      requires Valid()
      modifies this`bitmaps, this`groupFree, this`freeBlocks, this`used, this`disk, this`inodes
      ensures Valid()
      ensures TruncateRefused(old(inodes), ino, size).Some? ==>
                r == Err(TruncateRefused(old(inodes), ino, size).value) && unchanged(this)
      ensures TruncateRefused(old(inodes), ino, size).None? ==>
                && r.Ok? && TruncateSpec(old(disk), old(inodes), disk, inodes, ino, size)
                && if size < old(inodes)[ino].size
                   then GivesBack(old(disk), old(inodes)[ino], disk, inodes[ino], geo.bs, size, old(used), used, old(freeBlocks), freeBlocks)
                   else disk == old(disk) && inodes[ino].ptrs == old(inodes)[ino].ptrs && used == old(used) && freeBlocks == old(freeBlocks)
    {
      hide Sound, Tails, OthersKept, ByteAt, Bytes, Resize, TailZero, FileMap, FileTree, SetOf, MapCut, NoDeadBranch;
      if ino !in inodes { return Err(Invalid); }
      var i := inodes[ino];
      if i.kind.Directory? { return Err(IsDirectory); }
      if !i.kind.Regular? { return Err(Invalid); }
      if size > MAX_FILE_SIZE { return Err(TooBig); }
      RegularFile(ino);
      OthersKeptRefl(disk, inodes, ino);
      var i' := i;
      if size < i.size {
        i' := Shrink(ino, i, size);
        if size == 0 { BlankTree(disk); }
      }
      i' := ResizeInode(ino, i', size);
      TruncatedFile(old(disk), i, disk, i', size);
      CommitInode(ino, i', old(disk));
      return Ok(());
    }

    /** The shrinking branch of `truncate`: drop whole blocks, then zero the tail of the last. */
    method Shrink(ghost ino: nat, i: Inode, size: nat) returns (i': Inode)
      requires FileInode(i) && ino in inodes && Sound(inodes[ino := i]) && size < MAX_FILE_SIZE
      modifies this`bitmaps, this`groupFree, this`freeBlocks, this`used, this`disk
      ensures FileInode(i') && Sound(inodes[ino := i']) && i' == i.(ptrs := i'.ptrs, sectors := i'.sectors)
      ensures OthersKept(old(disk), disk, inodes, ino)
      ensures CutBytes(old(disk), i.ptrs, disk, i'.ptrs, size)
      ensures geo.bs > 0 && MapCut(old(disk), i.ptrs, disk, i'.ptrs, geo.bs, size) && NoDeadBranch(disk, i'.ptrs, geo.bs, size)
      ensures FileTree(disk, i'.ptrs) <= FileTree(old(disk), i.ptrs) && (size == 0 ==> i'.ptrs == NO_POINTERS)
      ensures used == old(used) - SetOf(FileTree(old(disk), i.ptrs) - FileTree(disk, i'.ptrs))
      ensures freeBlocks == old(freeBlocks) + |FileTree(old(disk), i.ptrs)| - |FileTree(disk, i'.ptrs)|
    {
      hide Sound, OthersKept, ByteAt, FileMap, Slots, FilePruned, FileSplit, SameOutside, SetOf, Locate, Map, SameBytes, CutBytes,
           BlockIdx, BlockOff, BlockSize, FileTree, NoDup, SameFile, MapCut, Times, SlotsLean, FileLean, NoDeadBranch;
      ghost var d := disk;
      BlockPosition(inodes[ino := i], size);
      FileTreeSound(inodes[ino := i], ino);
      var lb, bo := BlockIdx(geo.bs, size), BlockOff(geo.bs, size);
      var keep := (size + geo.bs - 1) / geo.bs;
      KeepIs(geo.bs, size, lb, bo);
      ghost var gone;
      i', gone := TruncateBlocks(ino, i, keep);
      PrunedBytes(d, i.ptrs, disk, i'.ptrs, keep);
      ghost var d1 := disk;
      SameSize(d, d1);
      SplitGone(d, i.ptrs, disk, i'.ptrs, gone);
      PrunedCut(d, i.ptrs, disk, i'.ptrs, geo.bs, size, keep);
      if bo != 0 {
        var _, pb := Bmap(ino, i', 0, lb, false);
        if pb.value != 0 {
          FileTreeSound(inodes[ino := i'], ino);
          WriteChunk(ino, i', lb, bo, Zeroes(geo.bs - bo), pb.value);
          OthersKeptTrans(d, d1, disk, inodes, ino);
          SameFileTree(d1, i'.ptrs, disk, i'.ptrs);
          MapCutSame(d, i.ptrs, d1, disk, i'.ptrs, geo.bs, size);
          DataWriteLean(d1, disk, i'.ptrs, lb, keep);
        } else {
          HoleBytes(disk, i'.ptrs, lb, bo);
        }
      }
      CutDone(d, i.ptrs, d1, disk, i'.ptrs, size, geo.bs, lb, bo, keep);
      LeanCut(disk, i'.ptrs, geo.bs, size, keep);
    }

    lemma FileTreeSound(tbl: Table, ino: nat)
      requires ino in tbl && FileInode(tbl[ino]) && Sound(tbl)
      ensures NoDup(FileTree(disk, tbl[ino].ptrs)) && geo.bs == BlockSize(disk)
    {
      hide Conserved, BitmapsOk, FileTree, NoDup, Shapes;
      FileSound(disk, tbl, ino, meta, used);
    }

    /** The loop of `write`. */
    method WriteBlocks(ghost ino: nat, i: Inode, off: nat, data: seq<byte>, goal: nat) returns (done: nat, i': Inode, failed: bool)
      requires FileInode(i) && ino in inodes && Sound(inodes[ino := i]) && off + |data| <= MAX_FILE_SIZE
      modifies this`bitmaps, this`groupFree, this`freeBlocks, this`used, this`disk
      ensures FileInode(i') && Sound(inodes[ino := i']) && disk.ppb == old(disk.ppb)
      ensures i' == i.(ptrs := i'.ptrs, sectors := i'.sectors)
      ensures OthersKept(old(disk), disk, inodes, ino)
      ensures done <= |data| && (failed <==> done < |data|) && (failed ==> NoneFree())
      ensures Laid(old(disk), i.ptrs, disk, i'.ptrs, off, data[..done])
      ensures geo.bs > 0 && AsFits(old(disk), i.ptrs, geo.bs, off, |data|, old(freeBlocks), done)
      ensures freeBlocks == if failed then 0 else old(freeBlocks) - Needed(old(disk), i.ptrs, geo.bs, off, |data|)
    {
      hide Sound, OthersKept, FileMap, Map, ByteAt, BlockIdx, BlockOff, Laid, SameBytes, Locate, FileMissing, SameNeed, Filled, Ahead,
           RangeNeed, Extra, Reached, AsFits, Needed;
      ghost var d := disk;
      i', done, failed := i, 0, false;
      OthersKeptRefl(disk, inodes, ino);
      LaidNothing(disk, i.ptrs, off, data[..0]);
      BlocksPositive(inodes[ino := i]);
      ghost var lo := BlockIdx(geo.bs, off);
      ghost var l := lo;
      RangeStart(disk, i.ptrs, geo.bs, off, |data|);
      while done < |data|
        invariant done <= |data| && FileInode(i') && Sound(inodes[ino := i']) && disk.ppb == d.ppb
        invariant i' == i.(ptrs := i'.ptrs, sectors := i'.sectors)
        invariant OthersKept(d, disk, inodes, ino)
        invariant Laid(d, i.ptrs, disk, i'.ptrs, off, data[..done])
        invariant lo <= l && Reached(geo.bs, off, |data|, done, l) && Ahead(d, i.ptrs, disk, i'.ptrs, lo, l)
        invariant freeBlocks + RangeNeed(d, i.ptrs, lo, l) == old(freeBlocks)
        decreases |data| - done
      {
        var pos := off + done;
        BlockPosition(inodes[ino := i'], pos);
        var lb, bo := BlockIdx(geo.bs, pos), BlockOff(geo.bs, pos);
        var n := if geo.bs - bo < |data| - done then geo.bs - bo else |data| - done;
        ReachedNext(geo.bs, off, |data|, done, l, n);
        AheadNeed(d, i.ptrs, disk, i'.ptrs, lo, l);
        ghost var d1, p1 := disk, i'.ptrs;
        var pb;
        i', pb := Bmap(ino, i', goal, lb, true);
        OthersKeptTrans(d, d1, disk, inodes, ino);
        LaidSame(d, i.ptrs, d1, p1, disk, i'.ptrs, off, data[..done]);
        if pb.Err? {
          failed := true;
          Stopped(d, i.ptrs, geo.bs, off, |data|, old(freeBlocks), done, l);
          return;
        }
        ghost var d2 := disk;
        WriteChunk(ino, i', lb, bo, data[done..done + n], pb.value);
        OthersKeptTrans(d, d2, disk, inodes, ino);
        LaidMore(d, i.ptrs, d2, disk, i'.ptrs, off, data[..done], data[done..done + n], lb * geo.bs + bo);
        assert data[..done] + data[done..done + n] == data[..done + n];
        AheadStep(d, i.ptrs, d1, p1, d2, i'.ptrs, disk, lo, l);
        done, l := done + n, l + 1;
      }
      Stopped(d, i.ptrs, geo.bs, off, |data|, old(freeBlocks), done, l);
    }

    lemma BlockPosition(tbl: Table, pos: nat)
      requires Sound(tbl) && pos < MAX_FILE_SIZE
      ensures geo.bs > 0 && pos == BlockIdx(geo.bs, pos) * geo.bs + BlockOff(geo.bs, pos)
      ensures BlockOff(geo.bs, pos) < geo.bs && Locate(disk.ppb, BlockIdx(geo.bs, pos)).At?
    {
      hide BlockIdx, BlockOff, Locate, Conserved;
      BlockSplit(geo.bs, pos);
      CapReachable(disk, geo, pos);
    }

    lemma BlocksPositive(tbl: Table)
      requires Sound(tbl)
      ensures geo.bs > 0
    {
      hide BitsMean, Counted, Conserved, Shapes;
    }

    lemma SectorsPositive()
      requires Space()
      ensures SectorsPerBlock() > 0
    {
      hide BitsMean, Counted;
    }

    ghost predicate NoneFree()
      reads this
    {
      forall x: nat :: InRange(geo, x) ==> x in used
    }

    lemma UsedOnDevice()
      requires Space()
      ensures forall x <- used :: x < |disk.blocks|
    {
    }

    lemma ZeroNotFree(tbl: Table)
      requires Space() && Conserved(disk, tbl, meta, used)
      ensures forall n: nat :: InRange(geo, n) && n !in used ==> n != 0
    {
      hide HoldsOnly, NoShare, Owned;
    }

    /** A block on the path of a file lies on the device and is in use. */
    lemma OnDevice(tbl: Table, ino: nat, l: nat, cur: nat, k: nat, rel: nat)
      requires ino in tbl && FileInode(tbl[ino]) && Sound(tbl)
      requires Reaches(disk, tbl[ino].ptrs, l, cur, k + 1, rel) && cur != 0
      ensures cur in used && cur < |disk.blocks| && |Content(disk, cur)| == geo.bs
    {
      hide BitsMean, Counted, Shapes, NoShare, Owned, Depth, Locate, Span, Blocks, Slots, NoDup;
      var ptrs := tbl[ino].ptrs;
      var pl := Locate(disk.ppb, l);
      LocateBase(disk.ppb, l);
      PathMember(disk, ptrs[pl.slot], Depth(pl.slot), pl.rel, cur, k + 1, rel);
      SlotSub(disk, ptrs, SLOTS, Indirect, pl.slot);
      assert HoldsOnly(disk, tbl[ino], meta, used);
      assert cur in Owns(disk, tbl[ino]);
      assert disk.blocks[cur] in disk.blocks;
    }
  }

  lemma BlankTree(d: Disk)
    ensures FileTree(d, NO_POINTERS) == multiset{}
  {
    hide Slots;
    BlankSlots(d, SLOTS, Data);
    BlankSlots(d, SLOTS, Indirect);
  }

  lemma BlankByte(d: Disk, k: nat)
    ensures ByteAt(d, NO_POINTERS, k) == 0
  {
    hide Locate, Map, BlockIdx, BlockOff, BlockSize;
    var l := BlockIdx(BlockSize(d), k);
    var at := Locate(d.ppb, l);
    if at.At? {
      LocateBase(d.ppb, l);
      assert NO_POINTERS[at.slot] == 0;
      EmptyMap(d, Depth(at.slot), at.rel);
    }
  }

  lemma MetaUsed(d: Disk, tbl: Table, meta: set<nat>, used: set<nat>)
    requires Conserved(d, tbl, meta, used)
    ensures meta <= used
  {
    hide Owns;
  }

  /** Cutting at zero frees the whole tree. */
  lemma AllGone(d: Disk, d': Disk, i: Inode, i': Inode, gone: multiset<nat>)
    requires |i.ptrs| == |i'.ptrs| == SLOTS && i' == i.(ptrs := i'.ptrs, sectors := i'.sectors)
    requires if HasPointers(i) then i'.ptrs == NO_POINTERS && FileSplit(d, i.ptrs, d', i'.ptrs, gone) else i' == i && gone == multiset{}
    ensures gone == Owns(d, i) && Owns(d', i') == multiset{} && (HasPointers(i') <==> HasPointers(i))
  {
    hide FileTree;
    BlankTree(d);
    BlankTree(d');
  }

  /** A directory record that keeps the pointer to a block given back: what `mkdir` leaves behind when
      it fails after its block had been allocated. No such table is consistent. */
  lemma FreedButOwned(d: Disk, tbl: Table, meta: set<nat>, used: set<nat>, ino: nat, blk: nat, size: nat, sectors: nat)
    requires blk != 0 && blk !in used
    ensures !Conserved(d, tbl[ino := Inode(Directory, size, 2, sectors, NO_POINTERS[0 := blk])], meta, used)
  {
    hide Blocks;
    var i := Inode(Directory, size, 2, sectors, NO_POINTERS[0 := blk]);
    var tbl' := tbl[ino := i];
    SlotSub(d, i.ptrs, SLOTS, Data, 0);
    DirectSlot(d, blk);
    assert Depth(0) == 0;
    assert blk in Slots(d, i.ptrs, SLOTS, Data);
    assert blk in Owns(d, tbl'[ino]);
    assert !HoldsOnly(d, tbl'[ino], meta, used);
  }

  lemma DirectSlot(d: Disk, p: nat)
    requires p > 0
    ensures Blocks(d, p, 0, Data) == multiset{p} && Blocks(d, p, 0, Indirect) == multiset{}
  {
  }

  /** The blocks the path to the first byte at `off` lacks. */
  ghost function FirstBlocks(d: Disk, tbl: Table, ino: nat, off: nat, bs: nat): nat {
    if bs > 0 && ino in tbl && |tbl[ino].ptrs| == SLOTS then FileMissing(d, tbl[ino].ptrs, BlockIdx(bs, off)) else 0
  }

  /** How much of `data` is written: at least `n` bytes exactly if the blocks they need were free; and how many blocks are left. */
  ghost predicate WritesWhatFits(d: Disk, tbl: Table, ino: nat, off: nat, data: seq<byte>, bs: nat, free: nat, done: nat, free': nat) {
    && bs > 0 && ino in tbl && |tbl[ino].ptrs| == SLOTS && off <= MAX_FILE_SIZE
    && var len := Min(|data|, MAX_FILE_SIZE - off);
    && AsFits(d, tbl[ino].ptrs, bs, off, len, free, done)
    && free' == if done < len then 0 else free - Needed(d, tbl[ino].ptrs, bs, off, len)
  }

  /** What appending a block to a directory takes. */
  ghost function NewBlocks(d: Disk, i: Inode, bs: nat): nat {
    if bs > 0 && |i.ptrs| == SLOTS then FileMissing(d, i.ptrs, BlockIdx(bs, i.size)) else 0
  }

  /** One block more, with the given contents; all else as before. */
  ghost predicate Appended(d: Disk, i: Inode, d': Disk, i': Inode, page: seq<byte>) {
    && |i.ptrs| == |i'.ptrs| == SLOTS && |page| > 0 && i' == i.(ptrs := i'.ptrs, sectors := i'.sectors, size := i.size + |page|)
    && Laid(d, i.ptrs, d', i'.ptrs, BlockIdx(|page|, i.size) * |page|, page)
  }

  lemma DirectoryTail(d: Disk, i: Inode)
    requires i.kind.Directory?
    ensures TailZero(d, i)
  {
  }

  lemma SectorsExact(d: Disk, tbl: Table, ino: nat, spb: nat)
    requires ino in tbl && FileInode(tbl[ino])
    ensures Shapes(d, tbl, spb) ==> tbl[ino].sectors == Times(spb, |Owns(d, tbl[ino])|)
  {
    hide Owns, Times;
    if Shapes(d, tbl, spb) { assert Shape(d, tbl[ino], spb); }
  }

  lemma HoldsAt(d: Disk, tbl: Table, ino: nat, meta: set<nat>, used: set<nat>)
    requires ino in tbl && Conserved(d, tbl, meta, used)
    ensures NoDup(Owns(d, tbl[ino]))
  {
    hide Owns, NoDup, NoShare, Owned;
    assert HoldsOnly(d, tbl[ino], meta, used);
  }

  /** Given the blocks in use and all other files, the blocks of one file are determined. */
  lemma BlocksDetermined(d: Disk, tbl: Table, ino: nat, i: Inode, meta: set<nat>, used: set<nat>)
    requires ino in tbl && Conserved(d, tbl[ino := i], meta, used)
    ensures Conserved(d, tbl, meta, used) ==> Owns(d, i) == Owns(d, tbl[ino])
  {
    hide Owns, Conserved, NoDup;
    if Conserved(d, tbl, meta, used) {
      var t', a, b := tbl[ino := i], Owns(d, i), Owns(d, tbl[ino]);
      assert t'[ino := tbl[ino]] == tbl;
      HoldsAt(d, tbl, ino, meta, used);
      HoldsAt(d, t', ino, meta, used);
      forall x ensures a[x] == b[x] {
        HeldOnce(d, tbl, ino, i, meta, used, x);
        HeldOnce(d, t', ino, tbl[ino], meta, used, x);
        OnceEach(a, b, x);
      }
    }
  }

  lemma OnceEach(a: multiset<nat>, b: multiset<nat>, x: nat)
    requires NoDup(a) && NoDup(b) && (x in a <==> x in b)
    ensures a[x] == b[x]
  {
  }

  lemma HeldOnce(d: Disk, tbl: Table, ino: nat, i: Inode, meta: set<nat>, used: set<nat>, x: nat)
    requires ino in tbl && Conserved(d, tbl, meta, used) && Conserved(d, tbl[ino := i], meta, used)
    ensures x in Owns(d, tbl[ino]) ==> x in Owns(d, i)
  {
    hide Owns;
    var t' := tbl[ino := i];
    if x in Owns(d, tbl[ino]) {
      assert HoldsOnly(d, tbl[ino], meta, used);
      assert x in used && Owned(d, t', x);
      var j :| j in t' && x in Owns(d, t'[j]);
      if j != ino { assert NoShare(d, tbl[j], tbl[ino]); }
    }
  }

  /** An indirect block without pointers. */
  ghost predicate Blank(d: Disk, p: nat) {
    forall j: nat :: Word(Content(d, p), j) == 0
  }

  lemma BlankKept(d: Disk, p: nat, c: seq<byte>, n: nat)
    requires Blank(d, n) && p != n
    ensures Blank(Put(d, p, c), n)
  {
    assert Content(Put(d, p, c), n) == Content(d, n);
  }

  lemma ZeroedBlank(d: Disk, g: Geometry, n: nat)
    requires n < |d.blocks|
    ensures Blank(Put(d, n, Zeroes(g.bs)), n)
  {
  }

  lemma MissingBlank(d: Disk, p: nat, depth: nat, idx: nat)
    requires p != 0
    ensures Blank(d, p) ==> Missing(d, p, depth, idx) == depth
    ensures depth == 0 ==> Missing(d, p, depth, idx) == 0
  {
  }

  // ---- lemmas on freeing ------------------------------------------------------------------

  lemma SetOfNone()
    ensures SetOf(multiset{}) == {}
  {
  }

  lemma SetOfSum(a: multiset<nat>, b: multiset<nat>)
    ensures SetOf(a + b) == SetOf(a) + SetOf(b)
    ensures forall x :: SetOf(multiset{x}) == {x}
  {
  }

  lemma SameOutsideRefl(d: Disk, s: set<nat>)
    ensures SameOutside(d, d, s)
  {
  }

  lemma SamePpbOutside(d: Disk, d': Disk, s: set<nat>)
    requires SameOutside(d, d', s)
    ensures d.ppb == d'.ppb && |d.blocks| == |d'.blocks|
  {
  }

  lemma OutsideTrans(d: Disk, d1: Disk, d2: Disk, s: set<nat>, t: set<nat>)
    requires SameOutside(d, d1, s) && SameOutside(d1, d2, t) && t <= s
    ensures SameOutside(d, d2, s)
  {
    hide Content;
    forall x: nat | x !in s ensures Content(d, x) == Content(d2, x) { assert Content(d, x) == Content(d1, x); }
  }

  /** The root of a sound tree and its pointers. */
  lemma RootSound(d: Disk, g: Geometry, blk: nat, depth: nat, used: set<nat>)
    requires blk != 0 && depth > 0 && NoDup(Tree(d, blk, depth)) && AllIn(Tree(d, blk, depth), used)
    requires DeviceOk(d, g) && forall x <- used :: x < |d.blocks|
    ensures NoDup(KidTree(d, Content(d, blk), depth - 1)) && AllIn(KidTree(d, Content(d, blk), depth - 1), used)
    ensures blk in used && blk < |d.blocks| && |Content(d, blk)| == g.bs
  {
    hide NoDup, Tree, KidTree;
    var t, k := Tree(d, blk, depth), KidTree(d, Content(d, blk), depth - 1);
    TreeNode(d, blk, depth);
    NoDupSub(k, t);
    forall x | x in k ensures x in used { assert x in t; }
    assert blk in t;
    assert d.blocks[blk] in d.blocks;
  }

  lemma PutBack(d: Disk, g: Geometry, p: nat, c: seq<byte>)
    requires DeviceOk(d, g) && |c| == g.bs && p < |d.blocks|
    ensures DeviceOk(Put(d, p, c), g)
    ensures c == Content(d, p) ==> Put(d, p, c) == d
  {
    PutDevice(d, g, p, c);
    if c == d.blocks[p] { assert d.blocks[p := c] == d.blocks; }
  }

  /** The state after the pointer loop, before the indirect block is written. */
  ghost predicate EntriesPruned(d0: Disk, blk: nat, depth: nat, d1: Disk, buf: seq<byte>, gone: multiset<nat>, keep: nat) {
    && blk != 0 && depth > 0 && NoDup(Tree(d0, blk, depth)) && blk < |d1.blocks|
    && KidsPruned(d0, Content(d0, blk), d1, buf, depth - 1, d0.ppb, keep)
    && KidSplit(d0, Content(d0, blk), d1, buf, depth - 1, gone)
    && SameOutside(d0, d1, SetOf(Kids(d0, Content(d0, blk), d0.ppb, depth - 1, Indirect)))
  }

  /** The root lies outside its own subtrees, old and pruned. */
  lemma RootApart(d0: Disk, blk: nat, depth: nat, d1: Disk, buf: seq<byte>, gone: multiset<nat>, keep: nat)
    requires EntriesPruned(d0, blk, depth, d1, buf, gone, keep)
    ensures blk !in Kids(d0, Content(d0, blk), d0.ppb, depth - 1, Indirect)
    ensures Apart(Kids(d1, buf, d1.ppb, depth - 1, Indirect), {blk})
    ensures blk !in gone && Content(d1, blk) == Content(d0, blk) && d1.ppb == d0.ppb
  {
    hide NoDup, Tree, KidTree, Kids, KidsPruned, Content;
    var b := Content(d0, blk);
    TreeNode(d0, blk, depth);
    OnceInNode(blk, KidTree(d0, b, depth - 1));
    KidTreeParts(d0, b, depth - 1);
    assert Kids(d1, buf, d1.ppb, depth - 1, Indirect) <= Kids(d0, b, d0.ppb, depth - 1, Indirect);
    assert gone <= KidTree(d0, b, depth - 1);
  }

  lemma OnceInNode(p: nat, k: multiset<nat>)
    requires NoDup(multiset{p} + k)
    ensures p !in k
  {
    assert (multiset{p} + k)[p] <= 1;
  }

  lemma KidTreeParts(d: Disk, b: seq<byte>, depth: nat)
    ensures Kids(d, b, d.ppb, depth, Indirect) <= KidTree(d, b, depth)
  {
  }

  lemma RootKidsSame(d0: Disk, blk: nat, depth: nat, d1: Disk, buf: seq<byte>, gone: multiset<nat>, keep: nat)
    requires EntriesPruned(d0, blk, depth, d1, buf, gone, keep)
    ensures var d2 := Put(d1, blk, buf);
            && d2.ppb == d0.ppb && Content(d2, blk) == buf
            && forall j :: 0 <= j < d0.ppb ==> SameTree(d1, Word(buf, j), d2, Word(buf, j), depth - 1)
  {
    hide NoDup, Tree, KidTree, Kids, KidsPruned, Word, Blocks, KidSplit, SameTree;
    RootApart(d0, blk, depth, d1, buf, gone, keep);
    var d2 := Put(d1, blk, buf);
    assert SameOutside(d1, d2, {blk});
    forall j | 0 <= j < d0.ppb ensures SameTree(d1, Word(buf, j), d2, Word(buf, j), depth - 1) {
      KidSub(d1, buf, d1.ppb, depth - 1, Indirect, j);
      ApartSub(Blocks(d1, Word(buf, j), depth - 1, Indirect), Kids(d1, buf, d1.ppb, depth - 1, Indirect), {blk});
      FrameOutside(d1, d2, {blk}, Word(buf, j), depth - 1);
    }
  }

  /** Writing the pruned pointers back prunes the tree. */
  lemma RootWritten(d0: Disk, blk: nat, depth: nat, d1: Disk, buf: seq<byte>, gone: multiset<nat>, keep: nat)
    requires EntriesPruned(d0, blk, depth, d1, buf, gone, keep)
    ensures var d2 := Put(d1, blk, buf);
            && SameOutside(d0, d2, SetOf(Blocks(d0, blk, depth, Indirect)))
            && Pruned(d0, blk, d2, blk, depth, keep)
            && Split(d0, blk, d2, blk, depth, gone)
    ensures blk !in gone && Content(d1, blk) == Content(d0, blk) && d1.ppb == d0.ppb
  {
    hide NoDup, Tree, KidTree, Kids, KidsPruned, Word, Blocks, KidSplit, SameTree, Content, Pruned, Split, SameOutside, SetOf;
    var d2 := Put(d1, blk, buf);
    RootApart(d0, blk, depth, d1, buf, gone, keep);
    RootKidsSame(d0, blk, depth, d1, buf, gone, keep);
    PruneNode(d0, blk, d1, buf, d2, blk, depth, keep);
    RootSplit(d0, blk, depth, d1, buf, d2, gone);
    RootOutside(d0, blk, depth, d1, buf);
  }

  lemma RootOutside(d0: Disk, blk: nat, depth: nat, d1: Disk, buf: seq<byte>)
    requires blk != 0 && depth > 0
    requires SameOutside(d0, d1, SetOf(Kids(d0, Content(d0, blk), d0.ppb, depth - 1, Indirect)))
    ensures SameOutside(d0, Put(d1, blk, buf), SetOf(Blocks(d0, blk, depth, Indirect)))
  {
    hide Kids, Blocks;
    BlocksNode(d0, blk, depth, Indirect);
    var s, t := SetOf(Kids(d0, Content(d0, blk), d0.ppb, depth - 1, Indirect)), SetOf(Blocks(d0, blk, depth, Indirect));
    assert s <= t && blk in t;
  }

  lemma RootSplit(d0: Disk, blk: nat, depth: nat, d1: Disk, buf: seq<byte>, d2: Disk, gone: multiset<nat>)
    requires blk != 0 && depth > 0 && d1.ppb == d0.ppb == d2.ppb && Content(d2, blk) == buf
    requires KidSplit(d0, Content(d0, blk), d1, buf, depth - 1, gone)
    requires forall j :: 0 <= j < d0.ppb ==> SameTree(d1, Word(buf, j), d2, Word(buf, j), depth - 1)
    ensures Split(d0, blk, d2, blk, depth, gone)
  {
    hide Kids, Blocks, Word, SameTree, Content;
    var k := depth - 1;
    forall part ensures Kids(d2, buf, d0.ppb, k, part) == Kids(d1, buf, d0.ppb, k, part) {
      forall j | 0 <= j < d0.ppb
        ensures Blocks(d1, Word(buf, j), k, part) == Blocks(d2, Word(buf, j), k, part)
      {
        SameBlocks(d1, Word(buf, j), d2, Word(buf, j), k, part);
      }
      KidsCongruent(d1, buf, d2, buf, d0.ppb, k, part);
    }
    TreeNode(d0, blk, depth);
    TreeNode(d2, blk, depth);
    var k0, k2 := KidTree(d0, Content(d0, blk), depth - 1), KidTree(d2, buf, depth - 1);
    assert multiset{blk} + (k2 + gone) == (multiset{blk} + k2) + gone;
    forall part ensures Blocks(d2, blk, depth, part) <= Blocks(d0, blk, depth, part) {
      BlocksNode(d0, blk, depth, part);
      BlocksNode(d2, blk, depth, part);
    }
  }

  /** If no pointer is left, the indirect block goes too. */
  lemma RootDropped(d0: Disk, blk: nat, depth: nat, d1: Disk, buf: seq<byte>, gone: multiset<nat>, keep: nat)
    requires EntriesPruned(d0, blk, depth, d1, buf, gone, keep)
    requires forall j :: 0 <= j < d0.ppb ==> Word(buf, j) == 0
    ensures var d2 := Put(d1, blk, buf);
            Pruned(d0, blk, d2, 0, depth, keep) && Split(d0, blk, d2, 0, depth, gone + multiset{blk})
    ensures blk !in SetOf(gone)
  {
    hide NoDup, KidsPruned, Word, SameTree, Content, Pruned, SameOutside, SetOf, Kids, Blocks;
    var d2 := Put(d1, blk, buf);
    RootApart(d0, blk, depth, d1, buf, gone, keep);
    RootKidsSame(d0, blk, depth, d1, buf, gone, keep);
    PruneNode(d0, blk, d1, buf, d2, 0, depth, keep);
    ZeroKids(d1, buf, d1.ppb, depth - 1, Indirect);
    ZeroKids(d1, buf, d1.ppb, depth - 1, Data);
    TreeNode(d0, blk, depth);
    forall part ensures Blocks(d2, 0, depth, part) == multiset{} { EmptyTree(d2, depth, part); }
    var k0 := KidTree(d0, Content(d0, blk), depth - 1);
    assert gone == k0;
    NotGone(blk, gone);
    assert multiset{blk} + gone == gone + multiset{blk};
  }

  lemma NotGone(blk: nat, gone: multiset<nat>)
    requires NoDup(multiset{blk} + gone)
    ensures blk !in SetOf(gone)
  {
    assert (multiset{blk} + gone)[blk] <= 1;
  }

  lemma EntriesSound(d0: Disk, b0: seq<byte>, d: Disk, b: seq<byte>, depth: nat, gone: multiset<nat>, used0: set<nat>, used: set<nat>)
    requires NoDup(KidTree(d0, b0, depth)) && AllIn(KidTree(d0, b0, depth), used0)
    requires KidSplit(d0, b0, d, b, depth, gone) && used == used0 - SetOf(gone)
    ensures NoDup(KidTree(d, b, depth)) && AllIn(KidTree(d, b, depth), used)
  {
    hide NoDup, AllIn, KidTree;
    RestSound(KidTree(d0, b0, depth), KidTree(d, b, depth), gone, used0, used);
  }

  /** A pointer that is zero or lies wholly below `keep` needs no work. */
  lemma EntryKept(d: Disk, b: seq<byte>, depth: nat, i: nat, keep: nat)
    ensures Word(b, i) == 0 || Offset(d.ppb, depth, i) + Span(d.ppb, depth) <= keep ==>
              Pruned(d, Word(b, i), d, Word(b, i), depth, Sub(keep, Offset(d.ppb, depth, i)))
    ensures Word(b, i) == 0 || Offset(d.ppb, depth, i) + Span(d.ppb, depth) <= keep ==>
              Lean(d, Word(b, i), depth, Sub(keep, Offset(d.ppb, depth, i)))
    ensures Split(d, Word(b, i), d, Word(b, i), depth, multiset{})
    ensures SameOutside(d, d, SetOf(Blocks(d, Word(b, i), depth, Indirect)))
  {
    hide Span, Pruned, Blocks, Offset;
    if Word(b, i) == 0 || Offset(d.ppb, depth, i) + Span(d.ppb, depth) <= keep {
      PrunedKeepAll(d, Word(b, i), depth, Sub(keep, Offset(d.ppb, depth, i)));
    }
  }

  /** One turn of the pointer loop. */
  lemma EntryDone(d0: Disk, b0: seq<byte>, d1: Disk, b1: seq<byte>, d2: Disk, b2: seq<byte>, depth: nat, i: nat, keep: nat,
                  gone: multiset<nat>, g: multiset<nat>)
    requires i < d1.ppb == d0.ppb && NoDup(Kids(d1, b1, d1.ppb, depth, Indirect))
    requires KidsPruned(d0, b0, d1, b1, depth, i, keep) && KidSplit(d0, b0, d1, b1, depth, gone)
    requires SameOutside(d0, d1, SetOf(Kids(d0, b0, d0.ppb, depth, Indirect)))
    requires SameOutside(d1, d2, SetOf(Blocks(d1, Word(b1, i), depth, Indirect)))
    requires forall j :: 0 <= j < d1.ppb && j != i ==> Word(b2, j) == Word(b1, j)
    requires Pruned(d1, Word(b1, i), d2, Word(b2, i), depth, Sub(keep, Offset(d1.ppb, depth, i)))
    requires Split(d1, Word(b1, i), d2, Word(b2, i), depth, g)
    ensures KidsPruned(d0, b0, d2, b2, depth, i + 1, keep) && KidSplit(d0, b0, d2, b2, depth, gone + g)
    ensures SameOutside(d0, d2, SetOf(Kids(d0, b0, d0.ppb, depth, Indirect)))
  {
    hide Kids, Blocks, Word, Pruned, Split, NoDup, SameOutside, Span, KidsPruned;
    var s := SetOf(Blocks(d1, Word(b1, i), depth, Indirect));
    PruneKid(d0, b0, d1, b1, d2, b2, depth, i, keep, s);
    SamePpbOutside(d1, d2, s);
    SplitKid(d1, b1, d2, b2, depth, i, g);
    KidSplitTrans(d0, b0, d1, b1, d2, b2, depth, gone, g);
    KidSub(d1, b1, d1.ppb, depth, Indirect, i);
    assert Kids(d1, b1, d1.ppb, depth, Indirect) <= Kids(d0, b0, d0.ppb, depth, Indirect);
    assert s <= SetOf(Kids(d0, b0, d0.ppb, depth, Indirect));
    OutsideTrans(d0, d1, d2, SetOf(Kids(d0, b0, d0.ppb, depth, Indirect)), s);
  }

  /** Clearing one pointer of a block content. */
  lemma ZeroWord(d: Disk, g: Geometry, b: seq<byte>, i: nat)
    requires DeviceOk(d, g) && |b| == g.bs && i < d.ppb
    ensures var r := SetPtr(b, i, 0);
            && |r| == |b| && Word(r, i) == 0
            && forall j :: 0 <= j < d.ppb && j != i ==> Word(r, j) == Word(b, j)
  {
    hide SetPtr, Ptr;
    PtrChange(b, i, 0);
  }

  /** Freeing a data block. */
  lemma DropData(d: Disk, e: nat, keep: nat, used: set<nat>)
    requires e != 0 && AllIn(Tree(d, e, 0), used)
    ensures e in used && Split(d, e, d, 0, 0, multiset{e})
    ensures keep == 0 ==> Pruned(d, e, d, 0, 0, keep)
    ensures SetOf(multiset{e}) == {e}
  {
    assert e in Tree(d, e, 0);
    PrunedAll(d, e, d, 0);
  }

  lemma KeepSlot(d: Disk, p: nat, depth: nat, keep: nat)
    ensures p == 0 || keep >= Span(d.ppb, depth) ==> Pruned(d, p, d, p, depth, keep)
    ensures Split(d, p, d, p, depth, multiset{})
    ensures SameOutside(d, d, SetOf(Blocks(d, p, depth, Indirect)))
  {
    hide Span, Pruned, Blocks;
    if p == 0 || keep >= Span(d.ppb, depth) { PrunedKeepAll(d, p, depth, keep); }
  }

  lemma BaseOfDirect(ppb: nat, slot: nat)
    requires slot < DIRECT
    ensures Base(ppb, slot) == slot && Depth(slot) == 0
  {
  }

  lemma SlotsSound(d0: Disk, p0: seq<nat>, d: Disk, p: seq<nat>, slot: nat, gone: multiset<nat>, used0: set<nat>, used: set<nat>)
    requires |p0| == |p| == SLOTS && slot < SLOTS && NoDup(FileTree(d0, p0)) && AllIn(FileTree(d0, p0), used0)
    requires FileSplit(d0, p0, d, p, gone) && used == used0 - SetOf(gone)
    ensures NoDup(Tree(d, p[slot], Depth(slot))) && AllIn(Tree(d, p[slot], Depth(slot)), used)
    ensures NoDup(Slots(d, p, SLOTS, Indirect))
  {
    hide NoDup, AllIn, FileTree, Depth, Slots, Tree;
    RestSound(FileTree(d0, p0), FileTree(d, p), gone, used0, used);
    SlotSound(d, p, slot, used);
  }

  lemma SlotOutside(d0: Disk, p0: seq<nat>, d1: Disk, p1: seq<nat>, d2: Disk, slot: nat, gone: multiset<nat>)
    requires |p0| == |p1| == SLOTS && slot < SLOTS && FileSplit(d0, p0, d1, p1, gone)
    requires SameOutside(d0, d1, SetOf(Slots(d0, p0, SLOTS, Indirect)))
    requires SameOutside(d1, d2, SetOf(Blocks(d1, p1[slot], Depth(slot), Indirect)))
    ensures SameOutside(d0, d2, SetOf(Slots(d0, p0, SLOTS, Indirect)))
  {
    hide Slots, Blocks, Depth, SameOutside, FileTree;
    SlotSub(d1, p1, SLOTS, Indirect, slot);
    var s, t := SetOf(Slots(d0, p0, SLOTS, Indirect)), SetOf(Blocks(d1, p1[slot], Depth(slot), Indirect));
    assert Slots(d1, p1, SLOTS, Indirect) <= Slots(d0, p0, SLOTS, Indirect);
    assert t <= s;
    OutsideTrans(d0, d1, d2, s, t);
  }

  lemma SlotsAllPruned(d0: Disk, p0: seq<nat>, d: Disk, p: seq<nat>, keep: nat)
    requires |p0| == |p| == SLOTS && SlotsPrunedTo(d0, p0, d, p, SLOTS, keep)
    ensures FilePruned(d0, p0, d, p, keep)
  {
    hide Depth, Base, Pruned, FilePruned;
    forall i | 0 <= i < SLOTS ensures Pruned(d0, p0[i], d, p[i], Depth(i), Sub(keep, Base(d0.ppb, i))) {
      assert SlotPruned(d0, p0, d, p, SLOTS, keep, i);
    }
    SlotsPruned(d0, p0, d, p, keep);
  }

  /** A conserved file is without repetition and all in use. */
  lemma FileSound(d: Disk, tbl: Table, ino: nat, meta: set<nat>, used: set<nat>)
    requires Conserved(d, tbl, meta, used) && ino in tbl && FileInode(tbl[ino])
    ensures NoDup(FileTree(d, tbl[ino].ptrs)) && AllIn(FileTree(d, tbl[ino].ptrs), used)
  {
    hide NoDup, FileTree;
    assert HoldsOnly(d, tbl[ino], meta, used);
  }

  /** The bookkeeping of a truncation. */
  lemma Shrunk(d: Disk, d': Disk, tbl: Table, ino: nat, i': Inode, gone: multiset<nat>, freed: nat,
               meta: set<nat>, used: set<nat>, used': set<nat>, spb: nat)
    requires ino in tbl && FileInode(tbl[ino]) && FileInode(i')
    requires Conserved(d, tbl, meta, used) && Shapes(d, tbl, spb)
    requires SameOutside(d, d', SetOf(Slots(d, tbl[ino].ptrs, SLOTS, Indirect)))
    requires FileSplit(d, tbl[ino].ptrs, d', i'.ptrs, gone) && freed == |gone| && used' == used - SetOf(gone)
    requires i'.sectors == Sub(tbl[ino].sectors, Times(spb, freed))
    ensures Conserved(d', tbl[ino := i'], meta, used') && Shapes(d', tbl[ino := i'], spb)
    ensures OthersKept(d, d', tbl, ino)
  {
    hide Conserved, Slots, OthersKept, SameOutside, Owns;
    var i := tbl[ino];
    OwnsTree(d, i);
    OwnsTree(d', i');
    WritesIndirect(d, d', tbl, ino, used);
    ShrinkFile(d, d', tbl, ino, i', gone, meta, used, used');
    assert |Owns(d, i)| == |Owns(d', i')| + |gone|;
    MulStep(spb, |Owns(d', i')|, |gone|);
    assert Shape(d, i, spb);
    ShapesKept(d, d', tbl, ino, i', spb);
  }

  lemma WritesIndirect(d: Disk, d': Disk, tbl: Table, ino: nat, used: set<nat>)
    requires ino in tbl && FileInode(tbl[ino]) && SameOutside(d, d', SetOf(Slots(d, tbl[ino].ptrs, SLOTS, Indirect)))
    ensures WritesOwn(d, d', tbl, ino, used)
  {
    hide Slots, SameOutside;
    var s := SetOf(Slots(d, tbl[ino].ptrs, SLOTS, Indirect));
    assert FreeOrOwn(s, used, Owns(d, tbl[ino]));
  }

  // ---- lemmas on bytes -----------------------------------------------------------------------

  lemma TreeHasData(d: Disk, ptrs: seq<nat>, x: nat)
    requires |ptrs| == SLOTS && x in Slots(d, ptrs, SLOTS, Data)
    ensures x in FileTree(d, ptrs)
  {
    hide Slots;
  }

  /** Overwriting a data block changes no ownership. */
  lemma OverwriteKept(d: Disk, tbl: Table, ino: nat, lb: nat, c: seq<byte>, meta: set<nat>, used: set<nat>, spb: nat)
    requires ino in tbl && FileInode(tbl[ino]) && Conserved(d, tbl, meta, used) && Shapes(d, tbl, spb)
    requires 0 < FileMap(d, tbl[ino].ptrs, lb) < |d.blocks|
    requires SameFile(d, tbl[ino].ptrs, Put(d, FileMap(d, tbl[ino].ptrs, lb), c), tbl[ino].ptrs)
    ensures var d' := Put(d, FileMap(d, tbl[ino].ptrs, lb), c);
            Conserved(d', tbl, meta, used) && Shapes(d', tbl, spb) && OthersKept(d, d', tbl, ino)
  {
    hide Conserved, SameFile, OthersKept, Owns, Slots, FileMap, FileTree;
    var i := tbl[ino];
    var pb := FileMap(d, i.ptrs, lb);
    var d' := Put(d, pb, c);
    FileMapIsData(d, i.ptrs, lb);
    TreeHasData(d, i.ptrs, pb);
    OwnsTree(d, i);
    OwnsTree(d', i);
    SameFileTree(d, i.ptrs, d', i.ptrs);
    assert SameOutside(d, d', {pb}) && FreeOrOwn({pb}, used, Owns(d, i));
    ShrinkFile(d, d', tbl, ino, i, multiset{}, meta, used, used);
    assert Shape(d, i, spb);
    ShapesKept(d, d', tbl, ino, i, spb);
    assert tbl[ino := i] == tbl;
  }

  lemma ChunkBytes(d: Disk, d': Disk, ptrs: seq<nat>, lb: nat, bo: nat, chunk: seq<byte>, buf: seq<byte>, bs: nat)
    requires |ptrs| == SLOTS && bs == BlockSize(d) && 0 < FileMap(d, ptrs, lb) < |d.blocks|
    requires bo + |chunk| <= bs && |Content(d, FileMap(d, ptrs, lb))| == bs
    requires buf == Content(d, FileMap(d, ptrs, lb))[..bo] + chunk + Content(d, FileMap(d, ptrs, lb))[bo + |chunk|..]
    requires forall k: nat :: ByteAt(d', ptrs, k) ==
               if BlockIdx(bs, k) == lb then ByteIn(buf, BlockOff(bs, k)) else ByteAt(d, ptrs, k)
    ensures forall k: nat :: ByteAt(d', ptrs, k) ==
              if lb * bs + bo <= k < lb * bs + bo + |chunk| then chunk[k - (lb * bs + bo)] else ByteAt(d, ptrs, k)
  {
    hide FileMap, BlockIdx, BlockOff, BlockSize, Content;
    forall k: nat
      ensures ByteAt(d', ptrs, k) ==
              if lb * bs + bo <= k < lb * bs + bo + |chunk| then chunk[k - (lb * bs + bo)] else ByteAt(d, ptrs, k)
    {
      ChunkRange(bs, lb, bo, |chunk|, k);
      BlockSplit(bs, k);
    }
  }

  /** What one block contributes to a read. */
  lemma ReadPart(d: Disk, ptrs: seq<nat>, lb: nat, bo: nat, n: nat, part: seq<byte>)
    requires |ptrs| == SLOTS && bo + n <= BlockSize(d) && |part| == n
    requires var pb := FileMap(d, ptrs, lb);
             if pb == 0 then forall j :: 0 <= j < n ==> part[j] == 0
             else |Content(d, pb)| == BlockSize(d) && part == Content(d, pb)[bo..bo + n]
    ensures forall j :: 0 <= j < n ==> part[j] == ByteAt(d, ptrs, lb * BlockSize(d) + bo + j)
  {
    hide FileMap, BlockIdx, BlockOff, BlockSize, Content;
    forall j | 0 <= j < n ensures part[j] == ByteAt(d, ptrs, lb * BlockSize(d) + bo + j) {
      ChunkRange(BlockSize(d), lb, bo, n, lb * BlockSize(d) + bo + j);
    }
  }

  lemma ReadDone(d: Disk, i: Inode, off: nat, n: nat, buf: seq<byte>)
    requires FileInode(i) && off + n <= i.size && |buf| == n
    requires forall j :: 0 <= j < n ==> buf[j] == ByteAt(d, i.ptrs, off + j)
    ensures buf == Bytes(d, i)[off..off + n]
  {
    hide ByteAt;
  }

  /** The file at `p'` on `d'` is the file at `p` on `d` with `data` laid over it. */
  ghost predicate Laid(d: Disk, p: seq<nat>, d': Disk, p': seq<nat>, off: nat, data: seq<byte>)
    requires |p| == |p'| == SLOTS
  {
    forall k: nat :: ByteAt(d', p', k) == if off <= k < off + |data| then data[k - off] else ByteAt(d, p, k)
  }

  lemma LaidNothing(d: Disk, p: seq<nat>, off: nat, data: seq<byte>)
    requires |p| == SLOTS && data == []
    ensures Laid(d, p, d, p, off, data)
  {
    hide ByteAt;
  }

  lemma LaidSame(d: Disk, p: seq<nat>, d1: Disk, p1: seq<nat>, d2: Disk, p2: seq<nat>, off: nat, data: seq<byte>)
    requires |p| == |p1| == |p2| == SLOTS && Laid(d, p, d1, p1, off, data) && SameBytes(d1, p1, d2, p2)
    ensures Laid(d, p, d2, p2, off, data)
  {
    hide ByteAt;
  }

  lemma LaidMore(d: Disk, p: seq<nat>, d1: Disk, d2: Disk, p1: seq<nat>, off: nat, data: seq<byte>, chunk: seq<byte>, at: nat)
    requires |p| == |p1| == SLOTS && Laid(d, p, d1, p1, off, data) && at == off + |data|
    requires forall k: nat :: ByteAt(d2, p1, k) == if at <= k < at + |chunk| then chunk[k - at] else ByteAt(d1, p1, k)
    ensures Laid(d, p, d2, p1, off, data + chunk)
  {
    hide ByteAt;
  }

  lemma NothingLaid(c: seq<byte>, off: nat, data: seq<byte>)
    requires data == []
    ensures Overlay(c, off, data[..0]) == c
  {
  }

  /** The finished write, as a byte sequence, with the tail still zero. */
  lemma WrittenFile(d: Disk, i: Inode, d': Disk, i': Inode, off: nat, data: seq<byte>)
    requires FileInode(i) && FileInode(i') && i.kind.Regular? && i'.kind.Regular?
    requires TailZero(d, i) && Laid(d, i.ptrs, d', i'.ptrs, off, data) && off + |data| <= MAX_FILE_SIZE
    requires i'.size == if data != [] && off + |data| > i.size then off + |data| else i.size
    ensures TailZero(d', i') && Bytes(d', i') == Overlay(Bytes(d, i), off, data)
  {
    hide ByteAt;
    var c, c' := Bytes(d, i), Bytes(d', i');
    forall k: nat | k < i'.size ensures c'[k] == Overlay(c, off, data)[k] {
      assert c'[k] == ByteAt(d', i'.ptrs, k);
      if k < i.size { assert c[k] == ByteAt(d, i.ptrs, k); }
    }
  }

  /** Why a write is refused before anything happens. */
  function WriteRefused(tbl: Table, ino: nat, off: nat, data: seq<byte>): Option<FsError> {
    if ino !in tbl then Some(Invalid)
    else if tbl[ino].kind.Directory? then Some(IsDirectory)
    else if !tbl[ino].kind.Regular? then Some(Invalid)
    else if data != [] && off >= MAX_FILE_SIZE then Some(TooBig)
    else None
  }

  function TruncateRefused(tbl: Table, ino: nat, size: nat): Option<FsError> {
    if ino !in tbl then Some(Invalid)
    else if tbl[ino].kind.Directory? then Some(IsDirectory)
    else if !tbl[ino].kind.Regular? then Some(Invalid)
    else if size > MAX_FILE_SIZE then Some(TooBig)
    else None
  }

  /** Only file `ino` may have changed, and neither its kind nor its link count. */
  ghost predicate OnlyFile(d: Disk, tbl: Table, d': Disk, tbl': Table, ino: nat) {
    && ino in tbl && ino in tbl' && tbl'.Keys == tbl.Keys
    && (forall j <- tbl :: j != ino ==> tbl'[j] == tbl[j])
    && tbl'[ino] == tbl[ino].(size := tbl'[ino].size, ptrs := tbl'[ino].ptrs, sectors := tbl'[ino].sectors)
    && OthersKept(d, d', tbl', ino)
  }

  /** The first `n` bytes of `data` were laid over the file, and nothing else changed. */
  ghost predicate WriteSpec(d: Disk, tbl: Table, d': Disk, tbl': Table, ino: nat, off: nat, data: seq<byte>, n: nat) {
    && OnlyFile(d, tbl, d', tbl', ino)
    && n <= |data|
    && Bytes(d', tbl'[ino]) == Overlay(Bytes(d, tbl[ino]), off, data[..n])
  }

  ghost predicate TruncateSpec(d: Disk, tbl: Table, d': Disk, tbl': Table, ino: nat, size: nat) {
    OnlyFile(d, tbl, d', tbl', ino) && Bytes(d', tbl'[ino]) == Resize(Bytes(d, tbl[ino]), size)
  }

  ghost predicate ReadSpec(d: Disk, tbl: Table, ino: nat, off: nat, len: nat, r: Result<seq<byte>>) {
    if ino !in tbl then r == Err(Invalid)
    else if tbl[ino].kind.Directory? then r == Err(IsDirectory)
    else if !tbl[ino].kind.Regular? then r == Err(Invalid)
    else
      var c := Bytes(d, tbl[ino]);
      r == Ok(if off >= |c| then [] else if off + len > |c| then c[off..] else c[off..off + len])
  }

  /** What was written can be read back. */
  lemma ReadAfterWrite(d: Disk, tbl: Table, d': Disk, tbl': Table, ino: nat, off: nat, data: seq<byte>, n: nat, r: Result<seq<byte>>)
    requires WriteRefused(tbl, ino, off, data).None? && WriteSpec(d, tbl, d', tbl', ino, off, data, n)
    requires ReadSpec(d', tbl', ino, off, n, r)
    ensures r == Ok(data[..n])
  {
    hide Bytes, OthersKept, Overlay;
    var c := Overlay(Bytes(d, tbl[ino]), off, data[..n]);
    OverlayPart(Bytes(d, tbl[ino]), off, data[..n]);
    assert |data[..n]| == n;
    if n > 0 { assert c[off..off + n] == data[..n] && (off + n == |c| ==> c[off..] == c[off..off + n]); }
  }

  lemma OverlayPart(c: seq<byte>, off: nat, data: seq<byte>)
    ensures data != [] ==> off + |data| <= |Overlay(c, off, data)| && Overlay(c, off, data)[off..off + |data|] == data
  {
  }

  /** After a cut or an extension, reading finds the prefix and then zeroes. */
  lemma ReadAfterTruncate(d: Disk, tbl: Table, d': Disk, tbl': Table, ino: nat, size: nat, r: Result<seq<byte>>)
    requires TruncateRefused(tbl, ino, size).None? && TruncateSpec(d, tbl, d', tbl', ino, size)
    requires ReadSpec(d', tbl', ino, 0, size, r)
    ensures r.Ok? && |r.value| == size
    ensures forall k :: 0 <= k < size ==> r.value[k] == if k < tbl[ino].size then Bytes(d, tbl[ino])[k] else 0
  {
    hide OthersKept, ByteAt;
    var c := Bytes(d', tbl'[ino]);
    assert c[0..size] == c;
  }

  /** Bytes below `size` are kept, all others are zero. */
  ghost predicate CutBytes(d: Disk, p: seq<nat>, d': Disk, p': seq<nat>, size: nat)
    requires |p| == |p'| == SLOTS
  {
    forall k: nat :: ByteAt(d', p', k) == if k < size then ByteAt(d, p, k) else 0
  }

  /** A file block keeps its device block exactly if it begins before `size`; the others become holes. */
  ghost predicate MapCut(d: Disk, p: seq<nat>, d': Disk, p': seq<nat>, bs: nat, size: nat)
    requires |p| == |p'| == SLOTS
  {
    forall l: nat :: FileMap(d', p', l) == if Times(l, bs) < size then FileMap(d, p, l) else 0
  }

  /** An indirect block stays on the path to a file block past the end only if it has a pointer. */
  ghost predicate NoDeadBranch(d: Disk, ptrs: seq<nat>, bs: nat, size: nat)
    requires |ptrs| == SLOTS
  {
    forall l: nat, cur: nat, k: nat, r: nat ::
      size <= Times(l, bs) && Reaches(d, ptrs, l, cur, k, r) && k > 0 && cur != 0 ==> HasPointer(d, cur)
  }

  lemma LeanCut(d: Disk, ptrs: seq<nat>, bs: nat, size: nat, keep: nat)
    requires |ptrs| == SLOTS && bs > 0 && keep == (size + bs - 1) / bs && SlotsLean(d, ptrs, SLOTS, keep)
    ensures NoDeadBranch(d, ptrs, bs, size)
  {
    hide SlotsLean, Times, Reaches, HasPointer;
    AllLean(d, ptrs, keep);
    forall l: nat ensures Times(l, bs) < size <==> l < keep { BeginsBefore(bs, size, l); }
  }

  /** What a cut does to the blocks: those that leave the file, and no others, become free. */
  ghost predicate GivesBack(d: Disk, i: Inode, d': Disk, i': Inode, bs: nat, size: nat, used: set<nat>, used': set<nat>, free: nat, free': nat) {
    && |i.ptrs| == |i'.ptrs| == SLOTS && MapCut(d, i.ptrs, d', i'.ptrs, bs, size)
    && NoDeadBranch(d', i'.ptrs, bs, size)
    && Owns(d', i') <= Owns(d, i) && (size == 0 ==> Owns(d', i') == multiset{})
    && used' == used - SetOf(Owns(d, i) - Owns(d', i'))
    && free' == free + |Owns(d, i)| - |Owns(d', i')|
  }

  lemma KeepIs(bs: nat, size: nat, lb: nat, bo: nat)
    requires bs > 0 && size == lb * bs + bo && bo < bs
    ensures (size + bs - 1) / bs == if bo == 0 then lb else lb + 1
    ensures size == 0 ==> (size + bs - 1) / bs == 0
  {
    var n, k := size + bs - 1, if bo == 0 then lb else lb + 1;
    IdxBounds(bs, n);
    assert BlockIdx(bs, n) == n / bs && Times(lb, bs) == lb * bs;
    hide Times, BlockIdx;
    TimesStep(lb, bs);
    TimesStep(k, bs);
    BelowBlock(bs, n / bs, k + 1, n);
    BelowBlock(bs, k, n / bs + 1, n);
    if size == 0 && lb > 0 { MulMono(1, lb, bs); }
  }

  lemma SplitGone(d: Disk, p: seq<nat>, d': Disk, p': seq<nat>, gone: multiset<nat>)
    requires |p| == |p'| == SLOTS && FileSplit(d, p, d', p', gone)
    ensures FileTree(d', p') <= FileTree(d, p) && gone == FileTree(d, p) - FileTree(d', p')
    ensures |FileTree(d, p)| == |FileTree(d', p')| + |gone|
  {
    hide FileTree, Slots;
    assert FileTree(d, p) - FileTree(d', p') == gone;
  }

  lemma PrunedCut(d: Disk, p: seq<nat>, d': Disk, p': seq<nat>, bs: nat, size: nat, keep: nat)
    requires |p| == |p'| == SLOTS && bs > 0 && keep == (size + bs - 1) / bs && FilePruned(d, p, d', p', keep)
    ensures MapCut(d, p, d', p', bs, size)
  {
    hide FileMap, Times;
    forall l: nat ensures Times(l, bs) < size <==> l < keep { BeginsBefore(bs, size, l); }
  }

  lemma BeginsBefore(bs: nat, size: nat, l: nat)
    requires bs > 0
    ensures Times(l, bs) < size <==> l < (size + bs - 1) / bs
  {
    var n := size + bs - 1;
    IdxBounds(bs, n);
    assert BlockIdx(bs, n) == n / bs;
    hide Times;
    TimesStep(l, bs);
    if l < n / bs { TimesMono(l + 1, n / bs, bs); }
    if n / bs <= l { TimesMono(n / bs + 1, l + 1, bs); }
  }

  lemma TimesMono(a: nat, b: nat, bs: nat)
    requires a <= b
    ensures Times(a, bs) <= Times(b, bs)
  {
    MulMono(a, b, bs);
  }

  lemma MapCutSame(d: Disk, p: seq<nat>, d1: Disk, d2: Disk, p1: seq<nat>, bs: nat, size: nat)
    requires |p| == |p1| == SLOTS && MapCut(d, p, d1, p1, bs, size) && SameFile(d1, p1, d2, p1)
    ensures MapCut(d, p, d2, p1, bs, size)
  {
    hide FileMap, Times, Slots;
  }

  lemma HoleBytes(d: Disk, p: seq<nat>, lb: nat, bo: nat)
    requires |p| == SLOTS && FileMap(d, p, lb) == 0 && bo < BlockSize(d)
    ensures forall k: nat :: lb * BlockSize(d) + bo <= k < lb * BlockSize(d) + BlockSize(d) ==> ByteAt(d, p, k) == 0
  {
    hide FileMap, BlockIdx, BlockOff, BlockSize, Content;
    var bs := BlockSize(d);
    forall k: nat | lb * bs + bo <= k < lb * bs + bs ensures ByteAt(d, p, k) == 0 {
      ChunkRange(bs, lb, bo, bs - bo, k);
    }
  }

  /** Dropping the blocks past the cut and zeroing the tail of the last one cuts the bytes. */
  lemma CutDone(d: Disk, p: seq<nat>, d1: Disk, d2: Disk, p1: seq<nat>, size: nat, bs: nat, lb: nat, bo: nat, keep: nat)
    requires |p| == |p1| == SLOTS && bs > 0 && size == lb * bs + bo && bo < bs && keep == if bo == 0 then lb else lb + 1
    requires forall k: nat :: ByteAt(d1, p1, k) == if BlockIdx(bs, k) < keep then ByteAt(d, p, k) else 0
    requires if bo == 0 then d2 == d1
             else forall k: nat :: ByteAt(d2, p1, k) == if lb * bs + bo <= k < lb * bs + bs then 0 else ByteAt(d1, p1, k)
    ensures CutBytes(d, p, d2, p1, size)
  {
    hide ByteAt, BlockIdx, BlockOff;
    forall k: nat ensures ByteAt(d2, p1, k) == if k < size then ByteAt(d, p, k) else 0 {
      BlockSplit(bs, k);
      ChunkRange(bs, lb, bo, bs - bo, k);
      BlockOrder(bs, BlockIdx(bs, k), lb);
    }
  }

  lemma BlockOrder(bs: nat, l: nat, lb: nat)
    ensures l < lb ==> l * bs + bs <= lb * bs
    ensures l > lb ==> lb * bs + bs <= l * bs
  {
    if l < lb { MulStep(bs, l + 1, lb - l - 1); assert bs * (l + 1) == l * bs + bs; }
    if l > lb { MulStep(bs, lb + 1, l - lb - 1); assert bs * (lb + 1) == lb * bs + bs; }
  }

  lemma TruncatedFile(d: Disk, i: Inode, d': Disk, i': Inode, size: nat)
    requires FileInode(i) && FileInode(i') && i.kind.Regular? && i'.kind.Regular? && i'.size == size <= MAX_FILE_SIZE
    requires TailZero(d, i)
    requires if size < i.size then CutBytes(d, i.ptrs, d', i'.ptrs, size) else d' == d && i'.ptrs == i.ptrs
    ensures TailZero(d', i') && Bytes(d', i') == Resize(Bytes(d, i), size)
  {
    hide ByteAt;
    var c, c' := Bytes(d, i), Bytes(d', i');
    forall k: nat | k < size ensures c'[k] == Resize(c, size)[k] {
      assert c'[k] == ByteAt(d', i'.ptrs, k);
      if k < i.size { assert c[k] == ByteAt(d, i.ptrs, k); }
    }
  }

  /** Setting the size of a regular file changes no ownership. */
  lemma SizeOnly(d: Disk, tbl: Table, ino: nat, i: Inode, i': Inode, meta: set<nat>, used: set<nat>, spb: nat)
    requires FileInode(i) && FileInode(i') && i' == i.(size := i'.size)
    requires Conserved(d, tbl[ino := i], meta, used) && Shapes(d, tbl[ino := i], spb)
    ensures Conserved(d, tbl[ino := i'], meta, used) && Shapes(d, tbl[ino := i'], spb)
  {
    hide NoDup, FileTree, Conserved, OthersKept, Times;
    var t := tbl[ino := i];
    assert Owns(d, i') == Owns(d, i);
    hide Owns;
    OthersKeptRefl(d, t, ino);
    FileOwned(d, t, ino, meta, used);
    Reassign(d, d, t, ino, i', meta, used, used);
    assert Shape(d, i, spb);
    ShapesKept(d, d, t, ino, i', spb);
    assert t[ino := i'] == tbl[ino := i'];
  }

  lemma FileOwned(d: Disk, tbl: Table, ino: nat, meta: set<nat>, used: set<nat>)
    requires ino in tbl && Conserved(d, tbl, meta, used)
    ensures NoDup(Owns(d, tbl[ino])) && (forall x <- Owns(d, tbl[ino]) :: x in used) && meta <= used
  {
    hide Owns;
    assert HoldsOnly(d, tbl[ino], meta, used);
  }

  /** A file block below the 2 GiB cap always has a place in the pointer tree. */
  lemma CapReachable(d: Disk, g: Geometry, k: nat)
    requires GeometryOk(g) && DeviceOk(d, g) && k < MAX_FILE_SIZE
    ensures Locate(d.ppb, BlockIdx(g.bs, k)).At?
  {
    BlockSplit(g.bs, k);
    var l := BlockIdx(g.bs, k);
    hide BlockIdx, BlockOff;
    if d.ppb == 256 {
      assert l < 0x20_0000;
    } else if d.ppb == 512 {
      assert l < 0x10_0000;
    } else {
      assert d.ppb == 1024 && l < 0x8_0000;
    }
  }

  lemma EmptySlot(d: Disk, ptrs: seq<nat>, l: nat)
    requires |ptrs| == SLOTS && Locate(d.ppb, l).At? && Locate(d.ppb, l).slot < SLOTS && ptrs[Locate(d.ppb, l).slot] == 0
    ensures FileMap(d, ptrs, l) == 0
  {
    EmptyMap(d, Depth(Locate(d.ppb, l).slot), Locate(d.ppb, l).rel);
  }

  lemma SlotReaches(d: Disk, ptrs: seq<nat>, l: nat)
    requires |ptrs| == SLOTS && Locate(d.ppb, l).At? && Locate(d.ppb, l).slot < SLOTS
    ensures Reaches(d, ptrs, l, ptrs[Locate(d.ppb, l).slot], Depth(Locate(d.ppb, l).slot), Locate(d.ppb, l).rel)
  {
  }

  lemma ReachedMissing(d: Disk, ptrs: seq<nat>, l: nat, cur: nat, k: nat, r: nat)
    requires |ptrs| == SLOTS && Reaches(d, ptrs, l, cur, k, r)
    ensures FileMissing(d, ptrs, l) == Missing(d, cur, k, r) && Locate(d.ppb, l).At?
  {
    hide Locate, Depth, Missing;
    var pl := Locate(d.ppb, l);
    PathMissing(d, ptrs[pl.slot], Depth(pl.slot), pl.rel, cur, k, r);
  }

  lemma ReachedMap(d: Disk, ptrs: seq<nat>, l: nat, cur: nat, k: nat, r: nat)
    requires |ptrs| == SLOTS && Reaches(d, ptrs, l, cur, k, r) && (k == 0 || cur == 0)
    ensures FileMap(d, ptrs, l) == cur
  {
    hide Locate, Depth;
    var pl := Locate(d.ppb, l);
    PathMap(d, ptrs[pl.slot], Depth(pl.slot), pl.rel, cur, k, r);
    if cur == 0 { EmptyMap(d, k, r); }
  }

  /** The pointer to follow at an indirect block, and where it leads. */
  lemma ReachedDigit(d: Disk, ptrs: seq<nat>, l: nat, cur: nat, k: nat, r: nat)
    requires |ptrs| == SLOTS && Reaches(d, ptrs, l, cur, k, r) && k > 0 && cur != 0
    ensures Digit(d.ppb, k - 1, r) < d.ppb
    ensures Reaches(d, ptrs, l, Word(Content(d, cur), Digit(d.ppb, k - 1, r)), k - 1, Rest(d.ppb, k - 1, r))
  {
    hide Locate, Depth, Digit, Rest, Span, Word, Content, OnPath, Blocks;
    var pl := Locate(d.ppb, l);
    LocateBase(d.ppb, l);
    PathMember(d, ptrs[pl.slot], Depth(pl.slot), pl.rel, cur, k, r);
    DigitBound(d.ppb, k - 1, r);
    PathStep(d, ptrs[pl.slot], Depth(pl.slot), pl.rel, cur, k - 1, r);
  }

  lemma SameBytesTrans(d: Disk, p: seq<nat>, d1: Disk, p1: seq<nat>, d2: Disk, p2: seq<nat>)
    requires |p| == |p1| == |p2| == SLOTS && SameBytes(d, p, d1, p1) && SameBytes(d1, p1, d2, p2)
    ensures SameBytes(d, p, d2, p2)
  {
    hide ByteAt;
  }

  /** A freshly zeroed block holds no pointer and no byte. */
  lemma FreshContent(d: Disk, g: Geometry, n: nat)
    requires DeviceOk(d, g) && n < |d.blocks|
    ensures var d' := Put(d, n, Zeroes(g.bs));
            && SameOutside(d, d', {n})
            && (forall j :: 0 <= j < d.ppb ==> Word(Content(d', n), j) == 0)
            && (forall j: nat :: ByteIn(Content(d', n), j) == 0)
  {
    var d' := Put(d, n, Zeroes(g.bs));
    assert Content(d', n) == Zeroes(g.bs);
  }

  /** Writing the new block's number into its parent hangs it there. */
  lemma LinkDevice(d: Disk, g: Geometry, cur: nat, index: nat, n: nat)
    requires DeviceOk(d, g) && n < |d.blocks| && cur < |d.blocks| && cur != n && cur != 0 && n != 0
    requires index < d.ppb && Word(Content(d, cur), index) == 0 && n < POINTER_LIMIT
    ensures var d1 := Put(d, n, Zeroes(g.bs));
            Content(d1, cur) == Content(d, cur) && |Content(d, cur)| == g.bs
    ensures var d2 := Put(Put(d, n, Zeroes(g.bs)), cur, SetPtr(Content(d, cur), index, n));
            && Hangs(d, d2, cur, index, n) && DeviceOk(d2, g)
            && (forall j: nat :: ByteIn(Content(d2, n), j) == 0)
  {
    hide SetPtr, Ptr;
    FreshContent(d, g, n);
    var b := Content(d, cur);
    assert b in d.blocks;
    PtrChange(b, index, n);
  }

  /** The sector count follows the tree. */
  lemma GrownShape(d: Disk, d': Disk, i: Inode, i': Inode, n: nat, spb: nat)
    requires FileInode(i) && FileInode(i') && Shape(d, i, spb)
    requires Owns(d', i') == Owns(d, i) + multiset{n} && i'.sectors == i.sectors + spb
    ensures Shape(d', i', spb)
  {
    hide Owns;
    assert |Owns(d', i')| == |Owns(d, i)| + 1;
    MulStep(spb, |Owns(d, i)|, 1);
  }

  lemma MulStep(a: nat, b: nat, c: nat)
    ensures a * (b + c) == a * b + a * c
  {
  }

  lemma KeptByNothing(d: Disk, tbl: Table, ino: nat, ptrs: seq<nat>)
    requires |ptrs| == SLOTS
    ensures OthersKept(d, d, tbl, ino) && SameBytes(d, ptrs, d, ptrs)
  {
    hide ByteAt;
    OthersKeptRefl(d, tbl, ino);
  }

  lemma ScanBound(goal: nat, i: nat, n: nat)
    requires n > 0
    ensures 0 <= Scan(goal, i, n) < n
  {
  }
}
