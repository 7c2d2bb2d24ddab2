/** Which file owns which block, and what bytes a file holds. */
module FileSpace {
  import opened Bits
  import opened BlockTree
  import opened PruneTree
  import opened InodeTree
  import Dyadic

  datatype Kind = Regular | Directory | Symlink | Special

  /** The inode fields the block layer reads and writes. */
  datatype Inode = Inode(kind: Kind, size: nat, links: nat, sectors: nat, ptrs: seq<nat>)

  const FAST_SYMLINK_MAX: nat := 60

  /** Does the pointer array hold block pointers, rather than the text of a short symlink? */
  predicate HasPointers(i: Inode) {
    i.kind.Regular? || i.kind.Directory? || (i.kind.Symlink? && i.size >= FAST_SYMLINK_MAX)
  }

  const NO_POINTERS: seq<nat> := [0, 0, 0, 0, 0, 0, 0, 0, 0, 0, 0, 0, 0, 0, 0]

  function Pointers(i: Inode): (p: seq<nat>)
    ensures |p| == SLOTS
  {
    if HasPointers(i) && |i.ptrs| == SLOTS then i.ptrs else NO_POINTERS
  }

  /** The blocks of a file, with multiplicity. */
  ghost function Owns(d: Disk, i: Inode): multiset<nat> {
    FileTree(d, Pointers(i))
  }

  type Table = map<nat, Inode>

  ghost predicate HoldsOnly(d: Disk, i: Inode, meta: set<nat>, used: set<nat>) {
    NoDup(Owns(d, i)) && forall x <- Owns(d, i) :: x in used && x !in meta
  }

  ghost predicate NoShare(d: Disk, i: Inode, j: Inode) {
    forall x :: !(x in Owns(d, i) && x in Owns(d, j))
  }

  ghost predicate Owned(d: Disk, tbl: Table, x: nat) {
    exists i <- tbl :: x in Owns(d, tbl[i])
  }

  /** A block is in use exactly if it is metadata or has exactly one position in exactly one
      file's tree. */
  ghost predicate Conserved(d: Disk, tbl: Table, meta: set<nat>, used: set<nat>) {
    && (forall i <- tbl :: HoldsOnly(d, tbl[i], meta, used))
    && (forall i <- tbl, j <- tbl :: i != j ==> NoShare(d, tbl[i], tbl[j]))
    && meta <= used
    && (forall x <- used :: x in meta || Owned(d, tbl, x))
  }

  ghost predicate FreeOrOwn(s: set<nat>, used: set<nat>, own: multiset<nat>) {
    forall x <- s :: x !in used || x in own
  }

  /** The device differs only in blocks that are free or belong to file `ino`. */
  ghost predicate WritesOwn(d: Disk, d': Disk, tbl: Table, ino: nat, used: set<nat>) {
    && ino in tbl
    && exists s :: SameOutside(d, d', s) && FreeOrOwn(s, used, Owns(d, tbl[ino]))
  }

  // ---- bytes -----------------------------------------------------------------------------

  function BlockSize(d: Disk): (bs: nat)
    ensures bs > 0
  {
    4 * d.ppb
  }

  /** The file block that holds byte `k`, and the offset of the byte in it. */
  function BlockIdx(bs: nat, k: nat): nat
    requires bs > 0
  {
    DivNat(k, bs);
    k / bs
  }

  function BlockOff(bs: nat, k: nat): nat
    requires bs > 0
  {
    k % bs
  }

  function ByteIn(b: seq<byte>, k: nat): byte {
    if k < |b| then b[k] else 0
  }

  /** Byte `k` of a file; holes read as zero. */
  function ByteAt(d: Disk, ptrs: seq<nat>, k: nat): byte
    requires |ptrs| == SLOTS
  {
    var p := FileMap(d, ptrs, BlockIdx(BlockSize(d), k));
    if p == 0 then 0 else ByteIn(Content(d, p), BlockOff(BlockSize(d), k))
  }

  ghost predicate SameBytes(d: Disk, ptrs: seq<nat>, d': Disk, ptrs': seq<nat>)
    requires |ptrs| == |ptrs'| == SLOTS
  {
    forall k: nat :: ByteAt(d', ptrs', k) == ByteAt(d, ptrs, k)
  }

  /** Every file but `ino` keeps its blocks and its bytes. */
  ghost predicate OthersKept(d: Disk, d': Disk, tbl: Table, ino: nat) {
    forall j <- tbl :: j != ino ==>
      SameFile(d, Pointers(tbl[j]), d', Pointers(tbl[j])) && SameBytes(d, Pointers(tbl[j]), d', Pointers(tbl[j]))
  }

  lemma SameFileTrans(d: Disk, p: seq<nat>, d1: Disk, p1: seq<nat>, d2: Disk, p2: seq<nat>)
    requires |p| == |p1| == |p2| == SLOTS
    requires SameFile(d, p, d1, p1) && SameFile(d1, p1, d2, p2)
    ensures SameFile(d, p, d2, p2)
  {
    hide Slots, FileMap;
  }

  lemma OthersKeptTrans(d: Disk, d1: Disk, d2: Disk, tbl: Table, ino: nat)
    requires OthersKept(d, d1, tbl, ino) && OthersKept(d1, d2, tbl, ino)
    ensures OthersKept(d, d2, tbl, ino)
  {
    hide SameFile, ByteAt, Pointers;
    forall j | j in tbl && j != ino
      ensures SameFile(d, Pointers(tbl[j]), d2, Pointers(tbl[j])) && SameBytes(d, Pointers(tbl[j]), d2, Pointers(tbl[j]))
    {
      SameFileTrans(d, Pointers(tbl[j]), d1, Pointers(tbl[j]), d2, Pointers(tbl[j]));
    }
  }

  lemma OthersKeptRefl(d: Disk, tbl: Table, ino: nat)
    ensures OthersKept(d, d, tbl, ino)
  {
    hide ByteAt, Pointers, Slots, FileMap;
  }

  lemma OthersKeptTable(d: Disk, d': Disk, tbl: Table, tbl': Table, ino: nat)
    requires OthersKept(d, d', tbl, ino) && tbl'.Keys == tbl.Keys && forall j <- tbl :: j != ino ==> tbl'[j] == tbl[j]
    ensures OthersKept(d, d', tbl', ino)
  {
    hide ByteAt, Pointers, SameFile, SameBytes;
  }

  /** A file none of whose blocks is written keeps everything. */
  lemma FileKept(d: Disk, d': Disk, s: set<nat>, ptrs: seq<nat>)
    requires |ptrs| == SLOTS && SameOutside(d, d', s) && Apart(FileTree(d, ptrs), s)
    ensures SameFile(d, ptrs, d', ptrs) && SameBytes(d, ptrs, d', ptrs)
  {
    hide Slots, FileMap, Content, SameFile, BlockIdx, BlockOff, BlockSize;
    SameSize(d, d');
    ApartSub(Slots(d, ptrs, SLOTS, Indirect), FileTree(d, ptrs), s);
    FileFrame(d, d', s, ptrs);
    forall k: nat ensures ByteAt(d', ptrs, k) == ByteAt(d, ptrs, k) {
      var l := BlockIdx(BlockSize(d), k);
      SameFileMap(d, ptrs, d', ptrs, l);
      var p := FileMap(d, ptrs, l);
      if p != 0 {
        FileMapIsData(d, ptrs, l);
        assert p in FileTree(d, ptrs);
      }
    }
  }

  lemma SameSize(d: Disk, d': Disk)
    requires d.ppb == d'.ppb
    ensures BlockSize(d) == BlockSize(d')
  {
  }

  lemma SameFileMap(d: Disk, ptrs: seq<nat>, d': Disk, ptrs': seq<nat>, l: nat)
    requires |ptrs| == |ptrs'| == SLOTS && SameFile(d, ptrs, d', ptrs')
    ensures FileMap(d', ptrs', l) == FileMap(d, ptrs, l)
  {
  }

  lemma SameFileTree(d: Disk, ptrs: seq<nat>, d': Disk, ptrs': seq<nat>)
    requires |ptrs| == |ptrs'| == SLOTS && SameFile(d, ptrs, d', ptrs')
    ensures FileTree(d', ptrs') == FileTree(d, ptrs)
  {
    hide Slots, FileMap;
    assert Slots(d', ptrs', SLOTS, Indirect) == Slots(d, ptrs, SLOTS, Indirect);
  }

  /** Writing into free blocks and blocks of `ino` leaves all other files. */
  lemma OthersFrame(d: Disk, d': Disk, tbl: Table, ino: nat, meta: set<nat>, used: set<nat>)
    requires Conserved(d, tbl, meta, used) && WritesOwn(d, d', tbl, ino, used)
    ensures OthersKept(d, d', tbl, ino)
  {
    hide Owns, NoDup, SameFile, SameBytes, Pointers;
    var s :| SameOutside(d, d', s) && FreeOrOwn(s, used, Owns(d, tbl[ino]));
    forall j | j in tbl && j != ino
      ensures SameFile(d, Pointers(tbl[j]), d', Pointers(tbl[j])) && SameBytes(d, Pointers(tbl[j]), d', Pointers(tbl[j]))
    {
      assert HoldsOnly(d, tbl[j], meta, used) && NoShare(d, tbl[j], tbl[ino]);
      OwnsTree(d, tbl[j]);
      FileKept(d, d', s, Pointers(tbl[j]));
    }
  }

  lemma OwnsTree(d: Disk, i: Inode)
    ensures Owns(d, i) == FileTree(d, Pointers(i))
  {
  }

  /** How one file's blocks and the blocks in use may change together. */
  lemma Reassign(d: Disk, d': Disk, tbl: Table, ino: nat, i': Inode, meta: set<nat>, used: set<nat>, used': set<nat>)
    requires Conserved(d, tbl, meta, used) && OthersKept(d, d', tbl, ino) && ino in tbl
    requires NoDup(Owns(d', i')) && meta <= used'
    requires forall x :: x in used' <==> x in Owns(d', i') || (x in used && x !in Owns(d, tbl[ino]))
    requires forall x <- Owns(d', i') :: x !in used || x in Owns(d, tbl[ino])
    ensures Conserved(d', tbl[ino := i'], meta, used')
  {
    hide Owns, NoDup, SameFile, SameBytes, Pointers, HoldsOnly, NoShare, Owned;
    var tbl' := tbl[ino := i'];
    forall j | j in tbl && j != ino ensures Owns(d', tbl[j]) == Owns(d, tbl[j]) {
      OwnsTree(d, tbl[j]);
      OwnsTree(d', tbl[j]);
      SameFileTree(d, Pointers(tbl[j]), d', Pointers(tbl[j]));
    }
    forall j | j in tbl' ensures HoldsOnly(d', tbl'[j], meta, used') {
      ReassignHolds(d, d', tbl, ino, i', meta, used, used', j);
    }
    forall j, k | j in tbl' && k in tbl' && j != k ensures NoShare(d', tbl'[j], tbl'[k]) {
      ReassignShare(d, d', tbl, ino, i', meta, used, j, k);
    }
    forall x | x in used' ensures x in meta || Owned(d', tbl', x) {
      ReassignOwned(d, d', tbl, ino, i', meta, used, used', x);
    }
  }

  lemma ReassignOwned(d: Disk, d': Disk, tbl: Table, ino: nat, i': Inode, meta: set<nat>, used: set<nat>, used': set<nat>, x: nat)
    requires Conserved(d, tbl, meta, used) && ino in tbl && x in used'
    requires forall j <- tbl :: j != ino ==> Owns(d', tbl[j]) == Owns(d, tbl[j])
    requires x in Owns(d', i') || (x in used && x !in Owns(d, tbl[ino]))
    ensures x in meta || Owned(d', tbl[ino := i'], x)
  {
    hide Owns, HoldsOnly, NoShare;
    var tbl' := tbl[ino := i'];
    if x in Owns(d', i') {
      assert x in Owns(d', tbl'[ino]);
    } else if x !in meta {
      var j :| j in tbl && x in Owns(d, tbl[j]);
      assert x in Owns(d', tbl'[j]);
    }
  }

  lemma ReassignHolds(d: Disk, d': Disk, tbl: Table, ino: nat, i': Inode, meta: set<nat>, used: set<nat>, used': set<nat>, j: nat)
    requires Conserved(d, tbl, meta, used) && ino in tbl && j in tbl[ino := i']
    requires forall j <- tbl :: j != ino ==> Owns(d', tbl[j]) == Owns(d, tbl[j])
    requires NoDup(Owns(d', i')) && meta <= used'
    requires forall x :: x in used' <==> x in Owns(d', i') || (x in used && x !in Owns(d, tbl[ino]))
    requires forall x <- Owns(d', i') :: x !in used || x in Owns(d, tbl[ino])
    ensures HoldsOnly(d', tbl[ino := i'][j], meta, used')
  {
    hide Owns, NoDup;
    assert HoldsOnly(d, tbl[ino], meta, used);
    if j != ino {
      assert HoldsOnly(d, tbl[j], meta, used) && NoShare(d, tbl[j], tbl[ino]);
    }
  }

  lemma ReassignShare(d: Disk, d': Disk, tbl: Table, ino: nat, i': Inode, meta: set<nat>, used: set<nat>, j: nat, k: nat)
    requires Conserved(d, tbl, meta, used) && ino in tbl && j in tbl && k in tbl && j != k
    requires forall j <- tbl :: j != ino ==> Owns(d', tbl[j]) == Owns(d, tbl[j])
    requires forall x <- Owns(d', i') :: x !in used || x in Owns(d, tbl[ino])
    ensures NoShare(d', tbl[ino := i'][j], tbl[ino := i'][k])
  {
    hide Owns, NoDup;
    assert HoldsOnly(d, tbl[j], meta, used) && HoldsOnly(d, tbl[k], meta, used) && NoShare(d, tbl[j], tbl[k]);
  }

  // ---- the three changes of a file -----------------------------------------------------------

  lemma GrownTree(d: Disk, ptrs: seq<nat>, d': Disk, ptrs': seq<nat>, l: nat, k: nat, n: nat)
    requires |ptrs| == |ptrs'| == SLOTS && FileGrown(d, ptrs, d', ptrs', l, k, n)
    ensures FileTree(d', ptrs') == FileTree(d, ptrs) + multiset{n}
  {
    hide Slots, FileMap;
    assert Slots(d', ptrs', SLOTS, Indirect) == Slots(d, ptrs, SLOTS, Indirect) + One((k == 0) == false, n);
    assert Slots(d', ptrs', SLOTS, Data) == Slots(d, ptrs, SLOTS, Data) + One((k == 0) == true, n);
  }

  /** A file that gains one free block owns it, and nothing else changes hands. */
  lemma GrowFile(d: Disk, d': Disk, tbl: Table, ino: nat, i': Inode, l: nat, k: nat, n: nat, meta: set<nat>, used: set<nat>)
    requires Conserved(d, tbl, meta, used) && WritesOwn(d, d', tbl, ino, used) && n !in used
    requires FileGrown(d, Pointers(tbl[ino]), d', Pointers(i'), l, k, n)
    ensures Conserved(d', tbl[ino := i'], meta, used + {n})
    ensures OthersKept(d, d', tbl, ino)
    ensures Owns(d', i') == Owns(d, tbl[ino]) + multiset{n}
  {
    hide Slots, FileMap, SameFile, SameBytes, Pointers, FileGrown, FileTree;
    OthersFrame(d, d', tbl, ino, meta, used);
    GrownTree(d, Pointers(tbl[ino]), d', Pointers(i'), l, k, n);
    OwnsTree(d, tbl[ino]);
    OwnsTree(d', i');
    assert HoldsOnly(d, tbl[ino], meta, used);
    Reassign(d, d', tbl, ino, i', meta, used, used + {n});
  }

  /** A new zeroed block does not change any byte of its file. */
  lemma GrownBytes(d: Disk, ptrs: seq<nat>, d': Disk, ptrs': seq<nat>, l: nat, k: nat, n: nat, s: set<nat>)
    requires |ptrs| == |ptrs'| == SLOTS && FileGrown(d, ptrs, d', ptrs', l, k, n) && FileMap(d, ptrs, l) == 0
    requires SameOutside(d, d', s) && Apart(Slots(d, ptrs, SLOTS, Data), s)
    requires forall j: nat :: ByteIn(Content(d', n), j) == 0
    ensures SameBytes(d, ptrs, d', ptrs')
  {
    hide Slots, FileMap, Content, ByteIn, BlockIdx, BlockOff, BlockSize;
    SameSize(d, d');
    forall m: nat ensures ByteAt(d', ptrs', m) == ByteAt(d, ptrs, m) {
      var lb := BlockIdx(BlockSize(d), m);
      var p := FileMap(d, ptrs, lb);
      if p != 0 { FileMapIsData(d, ptrs, lb); }
    }
  }

  lemma PartsApart(a: multiset<nat>, b: multiset<nat>)
    requires NoDup(a + b)
    ensures forall x <- a :: x !in b
  {
    forall x | x in a ensures x !in b { assert (a + b)[x] <= 1; }
  }

  /** A file that loses blocks gives exactly those back. */
  lemma ShrinkFile(d: Disk, d': Disk, tbl: Table, ino: nat, i': Inode, gone: multiset<nat>, meta: set<nat>, used: set<nat>, used': set<nat>)
    requires Conserved(d, tbl, meta, used) && WritesOwn(d, d', tbl, ino, used)
    requires Owns(d', i') + gone == Owns(d, tbl[ino])
    requires forall x :: x in used' <==> x in used && x !in gone
    ensures Conserved(d', tbl[ino := i'], meta, used')
    ensures OthersKept(d, d', tbl, ino)
  {
    hide SameFile, SameBytes, Pointers, Owns;
    OthersFrame(d, d', tbl, ino, meta, used);
    assert HoldsOnly(d, tbl[ino], meta, used);
    NoDupSub(Owns(d', i'), Owns(d, tbl[ino]));
    PartsApart(Owns(d', i'), gone);
    Reassign(d, d', tbl, ino, i', meta, used, used');
  }

  /** Overwriting one data block changes exactly the bytes of its file block. */
  lemma OverwriteBlock(d: Disk, ptrs: seq<nat>, lb: nat, c: seq<byte>)
    requires |ptrs| == SLOTS && NoDup(FileTree(d, ptrs))
    requires 0 < FileMap(d, ptrs, lb) < |d.blocks|
    ensures var d' := Put(d, FileMap(d, ptrs, lb), c);
            && SameFile(d, ptrs, d', ptrs)
            && forall k: nat :: ByteAt(d', ptrs, k) ==
                 if BlockIdx(BlockSize(d), k) == lb then ByteIn(c, BlockOff(BlockSize(d), k)) else ByteAt(d, ptrs, k)
  {
    hide Slots, FileMap, SameFile, ByteIn, NoDup, BlockIdx, BlockOff, BlockSize;
    var p := FileMap(d, ptrs, lb);
    var d' := Put(d, p, c);
    FileMapIsData(d, ptrs, lb);
    DataIsNotIndirect(d, ptrs, p);
    assert SameOutside(d, d', {p}) && Content(d', p) == c;
    SameSize(d, d');
    FileFrame(d, d', {p}, ptrs);
    NoDupSub(Slots(d, ptrs, SLOTS, Data), FileTree(d, ptrs));
    forall k: nat
      ensures ByteAt(d', ptrs, k) == if BlockIdx(BlockSize(d), k) == lb then ByteIn(c, BlockOff(BlockSize(d), k)) else ByteAt(d, ptrs, k)
    {
      var l := BlockIdx(BlockSize(d), k);
      SameFileMap(d, ptrs, d', ptrs, l);
      if l != lb && FileMap(d, ptrs, l) == p { FileMapInjective(d, ptrs, l, lb); }
    }
  }

  lemma DataIsNotIndirect(d: Disk, ptrs: seq<nat>, p: nat)
    requires |ptrs| == SLOTS && NoDup(FileTree(d, ptrs)) && p in Slots(d, ptrs, SLOTS, Data)
    ensures Apart(Slots(d, ptrs, SLOTS, Indirect), {p})
  {
    hide Slots;
    assert FileTree(d, ptrs)[p] <= 1;
  }

  // ---- files as byte sequences ----------------------------------------------------------------

  /** The bytes of a file, as a client reads them. */
  ghost function Bytes(d: Disk, i: Inode): (s: seq<byte>)
    ensures |s| == i.size
  {
    var ptrs := Pointers(i);
    seq(i.size, k requires 0 <= k < i.size => ByteAt(d, ptrs, k))
  }

  /** `data` laid over `c` from `off` on; a gap before it is filled with zeroes. */
  ghost function Overlay(c: seq<byte>, off: nat, data: seq<byte>): seq<byte> {
    if data == [] then c
    else
      var n := if off + |data| > |c| then off + |data| else |c|;
      seq(n, k requires 0 <= k < n => if off <= k < off + |data| then data[k - off] else if k < |c| then c[k] else 0)
  }

  /** `c` cut, or extended with zeroes, to `n` bytes. */
  ghost function Resize(c: seq<byte>, n: nat): seq<byte> {
    seq(n, k requires 0 <= k < n => if k < |c| then c[k] else 0)
  }

  /** Bytes cut off do not come back when the file grows again. */
  lemma NoStaleBytes(c: seq<byte>, cut: nat, n: nat)
    requires cut <= |c| && cut <= n
    ensures Resize(Resize(c, cut), n) == c[..cut] + Resize([], n - cut)
  {
  }

  lemma BlockSplit(bs: nat, k: nat)
    requires bs > 0
    ensures k == BlockIdx(bs, k) * bs + BlockOff(bs, k) && BlockOff(bs, k) < bs
  {
  }

  /** The bytes of one chunk of a block are consecutive bytes of the file. */
  lemma ChunkRange(bs: nat, lb: nat, bo: nat, n: nat, k: nat)
    requires bs > 0 && bo + n <= bs
    ensures BlockIdx(bs, k) == lb && bo <= BlockOff(bs, k) < bo + n <==> lb * bs + bo <= k < lb * bs + bo + n
    ensures BlockIdx(bs, k) == lb ==> BlockOff(bs, k) == k - lb * bs
  {
    hide BlockIdx, BlockOff;
    BlockSplit(bs, k);
    var l, o := BlockIdx(bs, k), BlockOff(bs, k);
    Dyadic.MultipleOutside(l - lb, bs);
    assert (l - lb) * bs == l * bs - lb * bs;
  }

  /** Truncating block maps truncates bytes. */
  lemma PrunedBytes(d: Disk, p: seq<nat>, d': Disk, p': seq<nat>, keep: nat)
    requires |p| == |p'| == SLOTS && FilePruned(d, p, d', p', keep) && NoDup(FileTree(d, p))
    requires SameOutside(d, d', SetOf(Slots(d, p, SLOTS, Indirect)))
    ensures forall k: nat :: ByteAt(d', p', k) == if BlockIdx(BlockSize(d), k) < keep then ByteAt(d, p, k) else 0
  {
    hide Slots, FileMap, Content, BlockIdx, BlockOff, BlockSize, NoDup, ByteIn;
    SameSize(d, d');
    forall k: nat ensures ByteAt(d', p', k) == if BlockIdx(BlockSize(d), k) < keep then ByteAt(d, p, k) else 0 {
      var l := BlockIdx(BlockSize(d), k);
      var x := FileMap(d, p, l);
      if x != 0 {
        FileMapIsData(d, p, l);
        DataIsNotIndirect(d, p, x);
      }
    }
  }
}
