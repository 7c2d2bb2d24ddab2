/** The block bitmaps of the groups, with their redundant free counters. */
module BlockBitmap {
  import opened Bits
  import opened Dyadic

  /** The parts of the superblock that `mount` has checked. */
  datatype Geometry = Geometry(bs: nat, firstData: nat, blocksCount: nat, bpg: nat, ngroups: nat, ipg: nat)

  ghost predicate GeometryOk(g: Geometry) {
    && (g.bs == 1024 || g.bs == 2048 || g.bs == 4096)
    && 0 < g.bpg <= 8 * g.bs && 0 < g.ipg
    && g.firstData < g.blocksCount < POINTER_LIMIT
    && 0 < g.ngroups
    && (g.ngroups - 1) * g.bpg < g.blocksCount - g.firstData <= g.ngroups * g.bpg
  }

  ghost predicate InRange(g: Geometry, x: nat) {
    g.firstData <= x < g.blocksCount
  }

  /** The block behind a bit. */
  function BlockNo(g: Geometry, group: nat, bit: nat): nat {
    g.firstData + group * g.bpg + bit
  }

  function GroupOf(g: Geometry, x: nat): int
    requires g.bpg > 0
  {
    (x - g.firstData) / g.bpg
  }

  function BitOfBlock(g: Geometry, x: nat): int
    requires g.bpg > 0
  {
    (x - g.firstData) % g.bpg
  }

  /** Bits and blocks correspond one to one. */
  lemma BlockNoUnique(g: Geometry, group: nat, bit: nat)
    requires bit < g.bpg
    ensures GroupOf(g, BlockNo(g, group, bit)) == group && BitOfBlock(g, BlockNo(g, group, bit)) == bit
  {
    DivModUnique(group * g.bpg + bit, g.bpg, group, bit);
  }

  lemma BlockPlace(g: Geometry, x: nat)
    requires GeometryOk(g) && InRange(g, x)
    ensures 0 <= GroupOf(g, x) < g.ngroups && 0 <= BitOfBlock(g, x) < g.bpg
    ensures BlockNo(g, GroupOf(g, x), BitOfBlock(g, x)) == x
  {
    var rel := x - g.firstData;
    var q, r := rel / g.bpg, rel % g.bpg;
    QuotientBelow(rel, g.bpg, g.ngroups);
  }

  lemma QuotientBelow(a: nat, d: nat, n: nat)
    requires d > 0 && a < n * d
    ensures 0 <= a / d < n && a == (a / d) * d + a % d
  {
    var q := a / d;
    assert a == q * d + a % d;
    MulOrder(n, q, d);
  }

  lemma MulOrder(a: int, b: int, d: nat)
    ensures a <= b ==> a * d <= b * d
  {
    if a <= b { assert (b - a) * d >= 0; }
  }

  function Sum(s: seq<nat>): nat {
    if s == [] then 0 else s[0] + Sum(s[1..])
  }

  lemma {:induction false} SumUpdate(s: seq<nat>, i: nat, v: nat)
    requires i < |s|
    ensures Sum(s[i := v]) + s[i] == Sum(s) + v
    decreases |s|
  {
    var t := s[i := v];
    if i == 0 {
      assert t[1..] == s[1..];
    } else {
      assert t[1..] == s[1..][i - 1 := v];
      SumUpdate(s[1..], i - 1, v);
    }
  }

  lemma {:induction false} SumAtLeast(s: seq<nat>, i: nat)
    requires i < |s|
    ensures s[i] <= Sum(s)
    decreases |s|
  {
    if i > 0 { SumAtLeast(s[1..], i - 1); }
  }

  lemma {:induction false} SumZero(s: seq<nat>)
    requires forall i :: 0 <= i < |s| ==> s[i] == 0
    ensures Sum(s) == 0
    decreases |s|
  {
    if s != [] { SumZero(s[1..]); }
  }

  /** A bit is set exactly for the blocks in use and the padding past the last block. */
  ghost predicate BitsMean(g: Geometry, bitmaps: seq<seq<byte>>, used: set<nat>)
    requires |bitmaps| == g.ngroups && g.bpg <= 8 * g.bs && forall b <- bitmaps :: |b| == g.bs
  {
    forall k, bit :: 0 <= k < g.ngroups && 0 <= bit < g.bpg ==>
      (Bit(bitmaps[k], bit) <==> BlockNo(g, k, bit) in used || BlockNo(g, k, bit) >= g.blocksCount)
  }

  /** Each group's counter is the number of its clear bits, and the total is their sum. */
  ghost predicate Counted(g: Geometry, bitmaps: seq<seq<byte>>, groupFree: seq<nat>, freeBlocks: nat)
    requires |bitmaps| == g.ngroups && g.bpg <= 8 * g.bs && forall b <- bitmaps :: |b| == g.bs
  {
    && |groupFree| == g.ngroups
    && (forall k :: 0 <= k < g.ngroups ==> groupFree[k] == Zeros(bitmaps[k], g.bpg))
    && freeBlocks == Sum(groupFree)
  }

  ghost predicate BitmapsOk(g: Geometry, bitmaps: seq<seq<byte>>, groupFree: seq<nat>, freeBlocks: nat, used: set<nat>) {
    && GeometryOk(g)
    && |bitmaps| == g.ngroups
    && (forall b <- bitmaps :: |b| == g.bs)
    && (forall x <- used :: InRange(g, x))
    && BitsMean(g, bitmaps, used)
    && Counted(g, bitmaps, groupFree, freeBlocks)
  }

  /** Setting a clear bit takes its block and moves both counters down by one. */
  lemma TakeBit(g: Geometry, bitmaps: seq<seq<byte>>, groupFree: seq<nat>, freeBlocks: nat, used: set<nat>, k: nat, bit: nat)
    requires BitmapsOk(g, bitmaps, groupFree, freeBlocks, used) && k < g.ngroups && bit < g.bpg && !Bit(bitmaps[k], bit)
    ensures groupFree[k] > 0 && freeBlocks > 0 && BlockNo(g, k, bit) !in used && InRange(g, BlockNo(g, k, bit))
    ensures BitmapsOk(g, bitmaps[k := SetBit(bitmaps[k], bit)], groupFree[k := groupFree[k] - 1], freeBlocks - 1,
                      used + {BlockNo(g, k, bit)})
  {
    hide SetBit, Sum, Zeros, BlockNo, GroupOf, BitOfBlock;
    var bm := SetBit(bitmaps[k], bit);
    BitChange(bitmaps[k], bit);
    ZerosChange(bitmaps[k], bm, g.bpg, bit);
    SumAtLeast(groupFree, k);
    SumUpdate(groupFree, k, groupFree[k] - 1);
    ChangeMeaning(g, bitmaps, used, k, bit, bm, used + {BlockNo(g, k, bit)});
    BlockLow(g, k, bit);
  }

  lemma BlockLow(g: Geometry, k: nat, bit: nat)
    ensures BlockNo(g, k, bit) >= g.firstData
  {
    assert k * g.bpg >= 0;
  }

  /** Clearing a set bit of a used block gives it back and moves both counters up by one. */
  lemma GiveBit(g: Geometry, bitmaps: seq<seq<byte>>, groupFree: seq<nat>, freeBlocks: nat, used: set<nat>, k: nat, bit: nat)
    requires BitmapsOk(g, bitmaps, groupFree, freeBlocks, used) && k < g.ngroups && bit < g.bpg
    requires BlockNo(g, k, bit) in used
    ensures Bit(bitmaps[k], bit)
    ensures BitmapsOk(g, bitmaps[k := ClearBit(bitmaps[k], bit)], groupFree[k := groupFree[k] + 1], freeBlocks + 1,
                      used - {BlockNo(g, k, bit)})
  {
    hide ClearBit, SetBit, Sum, Zeros, BlockNo, GroupOf, BitOfBlock;
    var bm := ClearBit(bitmaps[k], bit);
    BitChange(bitmaps[k], bit);
    ZerosChange(bm, bitmaps[k], g.bpg, bit);
    SumUpdate(groupFree, k, groupFree[k] + 1);
    ChangeMeaning(g, bitmaps, used, k, bit, bm, used - {BlockNo(g, k, bit)});
  }

  /** One bit changed, one block changed hands: bits and blocks still correspond. */
  lemma ChangeMeaning(g: Geometry, bitmaps: seq<seq<byte>>, used: set<nat>, k: nat, bit: nat, bm: seq<byte>, used': set<nat>)
    requires GeometryOk(g) && |bitmaps| == g.ngroups && forall b <- bitmaps :: |b| == g.bs
    requires BitsMean(g, bitmaps, used) && k < g.ngroups && bit < g.bpg && |bm| == g.bs
    requires forall j :: 0 <= j < g.bpg && j != bit ==> (Bit(bm, j) <==> Bit(bitmaps[k], j))
    requires forall x :: x != BlockNo(g, k, bit) ==> (x in used <==> x in used')
    requires Bit(bm, bit) <==> BlockNo(g, k, bit) in used' || BlockNo(g, k, bit) >= g.blocksCount
    ensures |bitmaps[k := bm]| == g.ngroups && forall b <- bitmaps[k := bm] :: |b| == g.bs
    ensures BitsMean(g, bitmaps[k := bm], used')
  {
    hide Bit, BlockNo;
    forall k', bit' | 0 <= k' < g.ngroups && 0 <= bit' < g.bpg
      ensures Bit(bitmaps[k := bm][k'], bit') <==> BlockNo(g, k', bit') in used' || BlockNo(g, k', bit') >= g.blocksCount
    {
      BlockNoUnique(g, k', bit');
      BlockNoUnique(g, k, bit);
    }
  }

  /** With every group's counter at zero, every block is in use. */
  lemma AllTaken(g: Geometry, bitmaps: seq<seq<byte>>, groupFree: seq<nat>, freeBlocks: nat, used: set<nat>)
    requires BitmapsOk(g, bitmaps, groupFree, freeBlocks, used)
    requires forall k :: 0 <= k < g.ngroups ==> groupFree[k] == 0
    ensures freeBlocks == 0 && forall x: nat :: InRange(g, x) ==> x in used
  {
    hide Zeros, Bit, Sum, BlockNo, GroupOf, BitOfBlock;
    SumZero(groupFree);
    forall x: nat | InRange(g, x) ensures x in used {
      BlockPlace(g, x);
      var k, bit := GroupOf(g, x), BitOfBlock(g, x);
      ZerosNone(bitmaps[k], g.bpg);
      assert Bit(bitmaps[k], bit);
    }
  }

  /** The free counter is exact: it is zero only if no block is free. */
  lemma FreeCount(g: Geometry, bitmaps: seq<seq<byte>>, groupFree: seq<nat>, freeBlocks: nat, used: set<nat>)
    requires BitmapsOk(g, bitmaps, groupFree, freeBlocks, used)
    ensures freeBlocks == 0 <==> forall x: nat :: InRange(g, x) ==> x in used
  {
    hide Zeros, Bit, Sum, BlockNo, GroupOf, BitOfBlock;
    if freeBlocks == 0 {
      forall k | 0 <= k < g.ngroups ensures groupFree[k] == 0 { SumAtLeast(groupFree, k); }
      AllTaken(g, bitmaps, groupFree, freeBlocks, used);
    } else if forall x: nat :: InRange(g, x) ==> x in used {
      forall k | 0 <= k < g.ngroups ensures groupFree[k] == 0 {
        forall bit | 0 <= bit < g.bpg ensures Bit(bitmaps[k], bit) {
          BlockLow(g, k, bit);
          assert InRange(g, BlockNo(g, k, bit)) || BlockNo(g, k, bit) >= g.blocksCount;
        }
        ZerosNone(bitmaps[k], g.bpg);
      }
      SumZero(groupFree);
    }
  }

  /** The group tried in turn `i` of the scan from `goal`. */
  function Scan(goal: nat, i: nat, n: nat): nat
    requires n > 0
  {
    (goal + i) % n
  }

  /** Starting anywhere, the group scan visits every group. */
  lemma ScanCovers(goal: nat, n: nat, k: nat) returns (i: nat)
    requires n > 0 && k < n
    ensures i < n && Scan(goal, i, n) == k
  {
    var s, q := goal % n, goal / n;
    if k >= s {
      i := k - s;
      assert goal + i == q * n + k;
      DivModUnique(goal + i, n, q, k);
    } else {
      i := k + n - s;
      assert goal + i == (q + 1) * n + k;
      DivModUnique(goal + i, n, q + 1, k);
    }
  }

  /** The first free block of the first group, from `goal` on, that has one. */
  ghost predicate FirstFree(g: Geometry, used: set<nat>, goal: nat, x: nat) {
    && g.ngroups > 0 && g.bpg > 0
    && exists k: nat :: k < g.ngroups && GroupOf(g, x) == Scan(goal, k, g.ngroups) && NoneEarlier(g, used, goal, x, k)
  }

  ghost predicate NoneEarlier(g: Geometry, used: set<nat>, goal: nat, x: nat, k: nat)
    requires g.ngroups > 0 && g.bpg > 0
  {
    forall y: nat :: InRange(g, y) && y !in used ==>
      (forall i: nat :: i < k ==> GroupOf(g, y) != Scan(goal, i, g.ngroups)) && (GroupOf(g, y) == GroupOf(g, x) ==> x <= y)
  }

  lemma FirstFound(g: Geometry, bitmaps: seq<seq<byte>>, groupFree: seq<nat>, freeBlocks: nat, used: set<nat>, goal: nat, k: nat, bit: nat)
    requires BitmapsOk(g, bitmaps, groupFree, freeBlocks, used) && k < g.ngroups && bit < g.bpg && Scan(goal, k, g.ngroups) < g.ngroups
    requires forall i: nat :: i < k ==> 0 <= Scan(goal, i, g.ngroups) < g.ngroups && groupFree[Scan(goal, i, g.ngroups)] == 0
    requires forall j :: 0 <= j < bit ==> Bit(bitmaps[Scan(goal, k, g.ngroups)], j)
    ensures FirstFree(g, used, goal, BlockNo(g, Scan(goal, k, g.ngroups), bit))
  {
    hide Zeros, Bit, Sum, BlockNo, GroupOf, BitOfBlock, Scan, InRange;
    var c := Scan(goal, k, g.ngroups);
    var x := BlockNo(g, c, bit);
    BlockNoUnique(g, c, bit);
    forall y: nat | InRange(g, y) && y !in used
      ensures (forall i: nat :: i < k ==> GroupOf(g, y) != Scan(goal, i, g.ngroups)) && (GroupOf(g, y) == GroupOf(g, x) ==> x <= y)
    {
      BlockPlace(g, y);
      ClearBitOf(g, bitmaps, used, y);
      ZerosNone(bitmaps[GroupOf(g, y)], g.bpg);
      if GroupOf(g, y) == c && BitOfBlock(g, y) >= bit { SameGroupOrder(g, c, bit, BitOfBlock(g, y)); }
    }
  }

  lemma ClearBitOf(g: Geometry, bitmaps: seq<seq<byte>>, used: set<nat>, y: nat)
    requires GeometryOk(g) && |bitmaps| == g.ngroups && (forall b <- bitmaps :: |b| == g.bs) && BitsMean(g, bitmaps, used)
    requires InRange(g, y) && y !in used
    ensures 0 <= GroupOf(g, y) < g.ngroups && 0 <= BitOfBlock(g, y) < g.bpg && !Bit(bitmaps[GroupOf(g, y)], BitOfBlock(g, y))
  {
    hide Bit, GroupOf, BitOfBlock, BlockNo;
    BlockPlace(g, y);
  }

  lemma SameGroupOrder(g: Geometry, k: nat, a: nat, b: nat)
    requires a <= b
    ensures BlockNo(g, k, a) <= BlockNo(g, k, b)
  {
  }
}
