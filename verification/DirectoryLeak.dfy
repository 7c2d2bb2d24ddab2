/** A directory append that leaves a block behind, on a small concrete device. */
module DirectoryLeak {
  import opened Bits
  import opened FsErrors
  import opened BlockBitmap
  import opened BlockTree
  import opened InodeTree
  import opened FileSpace
  import opened Ext2Files
  import Format

  // Thirteen data blocks: twelve belong to a directory whose direct slots are full, one is free.
  const GEO: Geometry := Geometry(1024, 1, 14, 13, 1, 16)
  const PTRS: seq<nat> := [1, 2, 3, 4, 5, 6, 7, 8, 9, 10, 11, 12, 0, 0, 0]
  const USED: set<nat> := {1, 2, 3, 4, 5, 6, 7, 8, 9, 10, 11, 12}
  const DIR: Inode := Inode(Directory, 12288, 2, 24, PTRS)

  function TinyDisk(): Disk {
    Disk(256, seq(14, _ => Zeroes(1024)))
  }

  function TinyBitmap(): seq<byte> {
    [255, 15] + Zeroes(1022)
  }

  lemma LowBits()
    ensures |TinyBitmap()| == 1024 && forall i :: 0 <= i < 13 ==> (Bit(TinyBitmap(), i) <==> i < 12)
  {
    FullByte(255);
    assert AllSet(255, 8);
    assert BitOf(15, 0) && BitOf(15, 1) && BitOf(15, 2) && BitOf(15, 3) && !BitOf(15, 4) by {
      assert BitOf(7, 0) && BitOf(3, 0) && BitOf(1, 0) && !BitOf(0, 0);
      assert BitOf(7, 1) && BitOf(7, 2) && !BitOf(7, 3) by { assert BitOf(3, 1) && !BitOf(3, 2) by { assert !BitOf(1, 1); } }
    }
  }

  lemma TinyBits(bm: seq<byte>)
    requires bm == TinyBitmap()
    ensures |bm| == 1024 && BitsMean(GEO, [bm], USED)
  {
    hide Bit, TinyBitmap;
    LowBits();
    forall k, bit | 0 <= k < 1 && 0 <= bit < 13
      ensures Bit([bm][k], bit) <==> BlockNo(GEO, k, bit) in USED || BlockNo(GEO, k, bit) >= 14
    {
      assert [bm][k] == bm && BlockNo(GEO, k, bit) == bit + 1;
    }
  }

  lemma TinyCounts(bm: seq<byte>)
    requires bm == TinyBitmap()
    ensures |bm| == 1024 && Counted(GEO, [bm], [1], 1)
  {
    hide Bit, TinyBitmap, Zeros;
    LowBits();
    Format.ZerosOfRange(bm, 12, 13, 13);
    assert Sum([1]) == 1 by { assert [1][1..] == []; }
  }

  lemma TinyBitmapsOk()
    ensures BitmapsOk(GEO, [TinyBitmap()], [1], 1, USED)
  {
    hide Bit, TinyBitmap, Zeros, BitsMean, Counted;
    TinyBits(TinyBitmap());
    TinyCounts(TinyBitmap());
  }

  lemma {:induction false} DirectSlots(d: Disk, ptrs: seq<nat>, n: nat)
    requires n <= 12 && n <= |ptrs| && forall k :: 0 <= k < n ==> ptrs[k] == k + 1
    ensures Slots(d, ptrs, n, Indirect) == multiset{}
    ensures |Slots(d, ptrs, n, Data)| == n && forall x: nat :: Slots(d, ptrs, n, Data)[x] == if 1 <= x <= n then 1 else 0
  {
    hide Blocks;
    if n > 0 {
      DirectSlots(d, ptrs, n - 1);
      DirectSlot(d, n);
    }
  }

  lemma TinyOwns(d: Disk)
    ensures |Owns(d, DIR)| == 12 && forall x: nat :: Owns(d, DIR)[x] == if 1 <= x <= 12 then 1 else 0
  {
    hide Blocks, Slots;
    assert PTRS[12] == PTRS[13] == PTRS[14] == 0;
    DirectSlots(d, PTRS, 12);
    forall part ensures Slots(d, PTRS, 15, part) == Slots(d, PTRS, 12, part) { ThreeEmpty(d, part); }
    assert Pointers(DIR) == PTRS;
  }

  lemma ThreeEmpty(d: Disk, part: Part)
    ensures Slots(d, PTRS, 15, part) == Slots(d, PTRS, 12, part)
  {
    hide Blocks;
    EmptyTree(d, 1, part);
    EmptyTree(d, 2, part);
    EmptyTree(d, 3, part);
    assert Slots(d, PTRS, 13, part) == Slots(d, PTRS, 12, part);
    assert Slots(d, PTRS, 14, part) == Slots(d, PTRS, 13, part);
  }

  lemma TinyConserved(d: Disk)
    ensures Conserved(d, map[2 := DIR], {}, USED)
  {
    hide Owns;
    TinyOwns(d);
    assert HoldsOnly(d, DIR, {}, USED);
    forall x | x in USED ensures Owned(d, map[2 := DIR], x) { assert x in Owns(d, map[2 := DIR][2]); }
  }

  lemma TinyShapes(d: Disk)
    ensures Shapes(d, map[2 := DIR], 2) && Tails(d, map[2 := DIR])
  {
    hide Owns;
    TinyOwns(d);
    assert Shape(d, DIR, 2);
  }

  lemma TinyDevice()
    ensures DeviceOk(TinyDisk(), GEO)
  {
  }

  lemma TinyNeeds()
    ensures NewBlocks(TinyDisk(), DIR, 1024) == 2
  {
    assert BlockIdx(1024, 12288) == 12 && Locate(256, 12) == At(12, 0) && PTRS[12] == 0;
  }

  /** The device is consistent, a block is free, and the append needs two. */
  lemma TinyConsistent()
    ensures Consistent(GEO, TinyDisk(), map[2 := DIR], [TinyBitmap()], [1], 1, {}, USED)
    ensures 0 < 1 < NewBlocks(TinyDisk(), DIR, GEO.bs)
  {
    hide BitmapsOk, Owns, TinyBitmap, Slots, DeviceOk, Conserved, Shapes, Tails, NewBlocks;
    TinyBitmapsOk();
    TinyDevice();
    TinyConserved(TinyDisk());
    TinyShapes(TinyDisk());
    TinyNeeds();
  }

  /** The append fails and leaves the filesystem inconsistent. */
  method Leak() returns (fs: Ext2, r: Result<()>)
    ensures r == Err(NoSpace) && !fs.Valid()
  {
    hide Consistent, NewBlocks, TinyBitmap;
    TinyConsistent();
    fs := new Ext2.Of(GEO, TinyDisk(), map[2 := DIR], [TinyBitmap()], [1], 1, {}, USED);
    r := fs.AppendBlock(2, Zeroes(1024));
  }
}
