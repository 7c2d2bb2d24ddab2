/** Formatting: the geometry of the groups, their metadata and their bitmaps. */
module Format {
  import opened Common
  import opened Bits
  import opened FsErrors
  import opened BlockBitmap
  import opened Dyadic

  const SECTOR: nat := 512
  const MAX_BLOCKS: nat := 0xFFFF_0000
  const FIRST_INO: nat := 11
  const U32: nat := 0x1_0000_0000

  // ---- which groups hold a copy of the superblock ---------------------------------------------

  function Power(b: nat, k: nat): nat {
    if k == 0 then 1 else b * Power(b, k - 1)
  }

  ghost predicate IsPower(b: nat, g: nat) {
    exists k: nat :: k > 0 && Power(b, k) == g
  }

  /** Groups 0 and 1 and the powers of 3, 5 and 7. */
  ghost predicate Sparse(g: nat) {
    g <= 1 || IsPower(3, g) || IsPower(5, g) || IsPower(7, g)
  }

  lemma {:induction false} PowerOdd(b: nat, k: nat)
    requires b % 2 == 1
    ensures Power(b, k) % 2 == 1
  {
    if k > 0 {
      PowerOdd(b, k - 1);
      OddProduct(b, Power(b, k - 1));
    }
  }

  lemma OddProduct(a: nat, b: nat)
    requires a % 2 == 1 && b % 2 == 1
    ensures a * b % 2 == 1
  {
    var i, j := a / 2, b / 2;
    assert a * b == (2 * i + 1) * b == 2 * (i * b) + b;
  }

  lemma {:induction false} PowerGrows(b: nat, j: nat, k: nat)
    requires b > 1 && j < k
    ensures 0 < Power(b, j) < Power(b, k)
    decreases k
  {
    if j == 0 {
      if k > 1 { PowerGrows(b, 0, k - 1); }
      MulAtLeast(b, Power(b, k - 1));
    } else {
      PowerGrows(b, j - 1, k - 1);
      MulLess(b, Power(b, j - 1), Power(b, k - 1));
    }
  }

  lemma MulAtLeast(b: nat, p: nat)
    requires b > 1 && p > 0
    ensures b * p > p
  {
    assert b * p == p + (b - 1) * p;
    MulPositive(b - 1, p);
  }

  lemma MulPositive(a: nat, p: nat)
    requires a > 0 && p > 0
    ensures a * p >= p > 0
  {
    assert a * p == p + (a - 1) * p;
    assert (a - 1) * p >= 0;
  }

  lemma MulLess(b: nat, p: nat, q: nat)
    requires b > 0 && p < q && p > 0
    ensures 0 < b * p < b * q
  {
    MulPositive(b, q - p);
    MulPositive(b, p);
    assert b * q == b * p + b * (q - p);
  }

  /** Whether `g` is a power of an odd base, by multiplying up. */
  method PowerOf(base: nat, g: nat) returns (r: bool)
    requires base > 1 && g > 1
    ensures r <==> IsPower(base, g)
  {
    var n := base;
    ghost var k: nat := 1;
    assert Power(base, 1) == base * Power(base, 0);
    while n < g
      invariant k > 0 && n == Power(base, k) && n > 0
      invariant k == 1 || Power(base, k - 1) < g
      decreases g - n
    {
      PowerGrows(base, k, k + 1);
      n := n * base;
      k := k + 1;
    }
    if n != g {
      forall j: nat | j > 0 ensures Power(base, j) != g {
        if j < k - 1 { PowerGrows(base, j, k - 1); }
        if k < j { PowerGrows(base, k, j); }
      }
    }
    r := n == g;
  }

  /** `has_super`. */
  method HasSuper(g: nat) returns (r: bool)
    ensures r <==> Sparse(g)
  {
    if g <= 1 { return true; }
    if g % 2 == 0 {
      forall b: nat, k: nat | b % 2 == 1 && k > 0 ensures Power(b, k) != g { PowerOdd(b, k); }
      return false;
    }
    var p3 := PowerOf(3, g);
    var p5 := PowerOf(5, g);
    var p7 := PowerOf(7, g);
    return p3 || p5 || p7;
  }

  // ---- geometry ---------------------------------------------------------------------------------

  predicate BlockSizeOk(bs: nat) { bs == 1024 || bs == 2048 || bs == 4096 }

  function FirstData(bs: nat): nat { if bs == 1024 then 1 else 0 }

  /** Blocks per group, and inodes per block. */
  function Bpg(bs: nat): nat { 8 * bs }
  function Ipb(bs: nat): nat { bs / 128 }

  function Div(a: nat, d: nat): (q: nat)
    requires d > 0
    ensures q * d <= a < q * d + d
  {
    var q := a / d;
    assert a == q * d + a % d;
    MulOrder(q + 1, 0, d);
    q
  }

  function Ceil(a: nat, d: nat): nat
    requires d > 0
  {
    Div(a + d - 1, d)
  }

  function RoundUp(a: nat, d: nat): nat
    requires d > 0
  {
    Ceil(a, d) * d
  }

  /** The number of inodes asked for; the conversion keeps 32 bits. */
  function WantedInodes(bs: nat, usable: nat, bytesPerInode: nat): nat {
    Max(usable * bs / Max(bytesPerInode, 1024), 32) % U32
  }

  function Clamped(bs: nat, ip: nat): nat
    requires BlockSizeOk(bs)
  {
    Min(Max(RoundUp(ip, Ipb(bs)), RoundUp(16, Ipb(bs))), Bpg(bs))
  }

  /** Inodes per group: whole blocks of them, at least 16, at most a bitmap's worth, whatever the
      request and however its arithmetic wraps. */
  function InodesPerGroup(bs: nat, usable: nat, groups: nat, bytesPerInode: nat): nat
    requires BlockSizeOk(bs) && groups > 0
  {
    Clamped(bs, Div((WantedInodes(bs, usable, bytesPerInode) + groups - 1) % U32, groups))
  }

  lemma ClampedRange(bs: nat, ip: nat)
    requires BlockSizeOk(bs)
    ensures 16 <= Clamped(bs, ip) <= Bpg(bs) && Clamped(bs, ip) % Ipb(bs) == 0
    ensures Clamped(bs, ip) / Ipb(bs) <= 1024
  {
    RoundUpMultiple(ip, Ipb(bs));
    RoundUpMultiple(16, Ipb(bs));
    hide RoundUp;
    if bs == 1024 { assert Ipb(bs) == 8; } else if bs == 2048 { assert Ipb(bs) == 16; } else { assert Ipb(bs) == 32; }
  }

  lemma RoundUpMultiple(a: nat, d: nat)
    requires d > 0
    ensures RoundUp(a, d) % d == 0 && RoundUp(a, d) >= a
  {
    var q := Ceil(a, d);
    DivModUnique(q * d, d, q, 0);
  }

  datatype Layout = Layout(usable: nat, groups: nat, ipg: nat, itb: nat, gdtBlocks: nat)

  /** `groups` groups of full size, the last one perhaps shorter but not empty. */
  ghost predicate Covers(bs: nat, usable: nat, groups: nat) {
    groups > 0 && (groups - 1) * Bpg(bs) < usable <= groups * Bpg(bs)
  }

  lemma CeilCovers(bs: nat, usable: nat)
    requires BlockSizeOk(bs) && usable > 0
    ensures Covers(bs, usable, Ceil(usable, Bpg(bs)))
  {
    CeilBounds(usable, Bpg(bs));
  }

  /** Metadata blocks of a group: copy of the superblock and descriptors, two bitmaps, inodes. */
  ghost function MetaBlocks(l: Layout, g: nat): nat {
    (if Sparse(g) then 1 + l.gdtBlocks else 0) + 2 + l.itb
  }

  function GroupBlocks(bs: nat, l: Layout, g: nat): int {
    if g == l.groups - 1 then l.usable - g * Bpg(bs) else Bpg(bs)
  }

  /** What the geometry loop settles on. */
  ghost predicate Settled(bs: nat, total: nat, l: Layout) {
    && BlockSizeOk(bs) && Covers(bs, l.usable, l.groups)
    && FirstData(bs) + l.usable <= total
    && 16 <= l.ipg <= Bpg(bs) && l.ipg % Ipb(bs) == 0 && l.itb == l.ipg / Ipb(bs)
    && l.gdtBlocks == Ceil(l.groups * 32, bs)
    && LastFits(bs, l)
  }

  /** The geometry for a given number of blocks. */
  function Attempt(bs: nat, usable: nat, bytesPerInode: nat): Layout
    requires BlockSizeOk(bs) && usable > 0
  {
    CeilCovers(bs, usable);
    var ng := Ceil(usable, Bpg(bs));
    var ip := InodesPerGroup(bs, usable, ng, bytesPerInode);
    Layout(usable, ng, ip, ip / Ipb(bs), Ceil(ng * 32, bs))
  }

  /** The last group is of use. */
  ghost predicate LastFits(bs: nat, l: Layout) {
    l.groups <= 1 || MetaBlocks(l, l.groups - 1) + 8 <= GroupBlocks(bs, l, l.groups - 1)
  }

  lemma AttemptFacts(bs: nat, usable: nat, bytesPerInode: nat)
    requires BlockSizeOk(bs) && usable > 0
    ensures var l := Attempt(bs, usable, bytesPerInode);
            && l.usable == usable && Covers(bs, usable, l.groups)
            && 16 <= l.ipg <= Bpg(bs) && l.ipg % Ipb(bs) == 0 && l.itb == l.ipg / Ipb(bs) && l.gdtBlocks == Ceil(l.groups * 32, bs)
            && (l.groups > 1 ==> 0 < (l.groups - 1) * Bpg(bs) < usable)
  {
    hide WantedInodes, Clamped;
    CeilCovers(bs, usable);
    var ng := Ceil(usable, Bpg(bs));
    ClampedRange(bs, Div((WantedInodes(bs, usable, bytesPerInode) + ng - 1) % U32, ng));
    if ng > 1 { MulPositive(ng - 1, Bpg(bs)); }
  }

  /** The geometry `format` settles on: a last group that is too small is dropped. */
  ghost function Planned(bs: nat, usable: nat, bytesPerInode: nat): Layout
    requires BlockSizeOk(bs) && usable > 0
    decreases usable
  {
    AttemptFacts(bs, usable, bytesPerInode);
    var l := Attempt(bs, usable, bytesPerInode);
    if LastFits(bs, l) then l else Planned(bs, (l.groups - 1) * Bpg(bs), bytesPerInode)
  }

  /** How many inodes a device gets: as many as the ratio asks for, rounded up by less than one block of inodes per group, unless
      the groups are full or at the minimum. */
  lemma {:induction false} InodeCount(bs: nat, usable: nat, bytesPerInode: nat)
    requires BlockSizeOk(bs) && usable > 0
    ensures var l := Planned(bs, usable, bytesPerInode);
            var asked := Max(Div(l.usable * bs, Max(bytesPerInode, 1024)), 32);
            asked + l.groups <= U32 ==>
              && (l.ipg == Bpg(bs) || asked <= l.groups * l.ipg)
              && (l.ipg == RoundUp(16, Ipb(bs)) || l.groups * l.ipg < asked + l.groups * Ipb(bs))
    decreases usable
  {
    hide WantedInodes, Clamped, Sparse, InodesPerGroup, Div;
    AttemptFacts(bs, usable, bytesPerInode);
    var l := Attempt(bs, usable, bytesPerInode);
    if LastFits(bs, l) { GroupCount(bs, usable, l.groups, bytesPerInode); } else { InodeCount(bs, (l.groups - 1) * Bpg(bs), bytesPerInode); }
  }

  lemma GroupCount(bs: nat, usable: nat, groups: nat, bytesPerInode: nat)
    requires BlockSizeOk(bs) && groups > 0
    ensures var ipg := InodesPerGroup(bs, usable, groups, bytesPerInode);
            var asked := Max(Div(usable * bs, Max(bytesPerInode, 1024)), 32);
            asked + groups <= U32 ==>
              && (ipg == Bpg(bs) || asked <= groups * ipg)
              && (ipg == RoundUp(16, Ipb(bs)) || groups * ipg < asked + groups * Ipb(bs))
  {
    hide WantedInodes, RoundUp, Div, Clamped, InodesPerGroup;
    var asked := Max(Div(usable * bs, Max(bytesPerInode, 1024)), 32);
    if asked + groups <= U32 {
      var ip, ipb := Div(asked + groups - 1, groups), Ipb(bs);
      GroupShare(bs, usable, groups, bytesPerInode, asked);
      DivBounds(asked + groups - 1, groups);
      assert ipb > 0;
      RoundUpBelow(ip, ipb);
      RoundUpMultiple(ip, ipb);
      ClampedSides(bs, ip);
      Spread(groups, asked, ip, RoundUp(ip, ipb), ipb, Clamped(bs, ip));
    }
  }

  lemma GroupShare(bs: nat, usable: nat, groups: nat, bytesPerInode: nat, asked: nat)
    requires BlockSizeOk(bs) && groups > 0 && asked == Max(Div(usable * bs, Max(bytesPerInode, 1024)), 32) && asked + groups <= U32
    ensures InodesPerGroup(bs, usable, groups, bytesPerInode) == Clamped(bs, Div(asked + groups - 1, groups))
  {
    hide Clamped, Div;
    DivIs(usable * bs, Max(bytesPerInode, 1024));
    assert asked % U32 == asked && (asked + groups - 1) % U32 == asked + groups - 1;
  }

  lemma ClampedSides(bs: nat, ip: nat)
    requires BlockSizeOk(bs)
    ensures Clamped(bs, ip) == Bpg(bs) || RoundUp(ip, Ipb(bs)) <= Clamped(bs, ip)
    ensures Clamped(bs, ip) == RoundUp(16, Ipb(bs)) || Clamped(bs, ip) <= RoundUp(ip, Ipb(bs))
  {
    hide RoundUp;
    RoundUpBelow(16, Ipb(bs));
  }

  lemma DivIs(a: nat, d: nat)
    requires d > 0
    ensures Div(a, d) == a / d
  {
  }

  lemma DivBounds(a: nat, d: nat)
    requires d > 0
    ensures Div(a, d) * d <= a < Div(a, d) * d + d
  {
  }

  lemma RoundUpBelow(a: nat, d: nat)
    requires d > 0
    ensures RoundUp(a, d) < a + d
  {
    DivBounds(a + d - 1, d);
  }

  /** Rounding up over all groups. */
  lemma Spread(groups: nat, asked: nat, ip: nat, r: nat, ipb: nat, ipg: nat)
    requires ip * groups <= asked + groups - 1 < ip * groups + groups && ip <= r < ip + ipb
    ensures r <= ipg ==> asked <= groups * ipg
    ensures ipg <= r ==> groups * ipg < asked + groups * ipb
  {
    if r <= ipg { MulOrder(ip, ipg, groups); }
    if ipg <= r {
      MulOrder(ipg, ip + ipb - 1, groups);
      assert (ip + ipb - 1) * groups == ip * groups + ipb * groups - groups;
    }
  }

  /** The geometry loop ends for every device size and every option. */
  method PlanGroups(bs: nat, total: nat, bytesPerInode: nat) returns (l: Layout)
    requires BlockSizeOk(bs) && FirstData(bs) + 64 <= total
    ensures l == Planned(bs, total - FirstData(bs), bytesPerInode) && Settled(bs, total, l)
    ensures l.usable == total - FirstData(bs) || l.usable == l.groups * Bpg(bs)
  {
    hide WantedInodes, Clamped, Sparse, Ceil;
    var usable := total - FirstData(bs);
    while true
      invariant 0 < usable <= total - FirstData(bs)
      invariant Planned(bs, usable, bytesPerInode) == Planned(bs, total - FirstData(bs), bytesPerInode)
      invariant usable == total - FirstData(bs) || exists q: nat :: usable == q * Bpg(bs)
      decreases usable
    {
      AttemptFacts(bs, usable, bytesPerInode);
      var ng := Ceil(usable, Bpg(bs));
      var ip := InodesPerGroup(bs, usable, ng, bytesPerInode);
      l := Layout(usable, ng, ip, ip / Ipb(bs), Ceil(ng * 32, bs));
      var last := usable - (ng - 1) * Bpg(bs);
      var super := HasSuper(ng - 1);
      var overhead := 2 + l.itb + if super then 1 + l.gdtBlocks else 0;
      if ng == 1 || last >= overhead + 8 {
        if q: nat :| usable == q * Bpg(bs) { SameGroups(bs, usable, q, ng); }
        return;
      }
      usable := (ng - 1) * Bpg(bs);
    }
  }

  lemma SameGroups(bs: nat, usable: nat, q: nat, ng: nat)
    requires BlockSizeOk(bs) && usable == q * Bpg(bs) && Covers(bs, usable, ng)
    ensures q == ng
  {
    MulOrder(q, ng - 1, Bpg(bs));
    MulOrder(ng + 1, q, Bpg(bs));
    assert (ng + 1) * Bpg(bs) == ng * Bpg(bs) + Bpg(bs);
  }

  /** The test on the first group. */
  predicate FirstGroupFits(bs: nat, l: Layout) {
    1 + l.gdtBlocks + 2 + l.itb + 16 <= Min(l.usable, Bpg(bs))
  }

  /** Once accepted, every group has room for its metadata and more. */
  lemma MetaFits(bs: nat, total: nat, l: Layout, g: nat)
    requires Settled(bs, total, l) && FirstGroupFits(bs, l) && g < l.groups
    ensures MetaBlocks(l, g) + 8 <= GroupBlocks(bs, l, g) <= Bpg(bs)
  {
    hide Sparse, Ceil;
    if g == l.groups - 1 { assert l.groups * Bpg(bs) == g * Bpg(bs) + Bpg(bs); }
  }

  // ---- bitmaps ------------------------------------------------------------------------------------

  /** A bitmap with all bits set but those from `lo` to `hi`. */
  method MakeBitmap(bs: nat, lo: nat, hi: nat) returns (bm: seq<byte>)
    requires lo <= hi <= 8 * bs
    ensures |bm| == bs && forall i :: 0 <= i < 8 * bs ==> (Bit(bm, i) <==> i < lo || hi <= i)
  {
    hide Bit, SetBit;
    bm := Zeroes(bs);
    ZeroesClear(bs);
    for i := 0 to lo
      invariant |bm| == bs && forall j :: 0 <= j < 8 * bs ==> (Bit(bm, j) <==> j < i)
    {
      BitChange(bm, i);
      bm := SetBit(bm, i);
    }
    for i := hi to 8 * bs
      invariant |bm| == bs && forall j :: 0 <= j < 8 * bs ==> (Bit(bm, j) <==> j < lo || hi <= j < i)
    {
      BitChange(bm, i);
      bm := SetBit(bm, i);
    }
  }

  lemma ZeroesClear(n: nat)
    ensures forall i :: 0 <= i < 8 * n ==> !Bit(Zeroes(n), i)
  {
    hide BitOf;
    forall i | 0 <= i < 8 * n ensures !Bit(Zeroes(n), i) { ZeroBit(i % 8); }
  }

  lemma {:induction false} ZeroBit(k: nat)
    ensures !BitOf(0, k)
  {
    if k > 0 { ZeroBit(k - 1); }
  }

  /** Such a bitmap has exactly the bits from `lo` to `hi` clear. */
  lemma {:induction false} ZerosOfRange(bm: seq<byte>, lo: nat, hi: nat, n: nat)
    requires n <= 8 * |bm| && lo <= hi && forall i :: 0 <= i < n ==> (Bit(bm, i) <==> i < lo || hi <= i)
    ensures Zeros(bm, n) == if n <= lo then 0 else Min(n, hi) - lo
  {
    hide Bit;
    if n > 0 { ZerosOfRange(bm, lo, hi, n - 1); }
  }

  lemma {:induction false} SumAppend(s: seq<nat>, x: nat)
    ensures Sum(s + [x]) == Sum(s) + x
  {
    if s == [] {
      assert s + [x] == [x] && [x][1..] == [];
    } else {
      assert (s + [x])[1..] == s[1..] + [x];
      SumAppend(s[1..], x);
    }
  }

  // ---- all groups -----------------------------------------------------------------------------------

  function GeometryOf(bs: nat, l: Layout): Geometry {
    Geometry(bs, FirstData(bs), FirstData(bs) + l.usable, Bpg(bs), l.groups, l.ipg)
  }

  /** The metadata blocks of the whole device. */
  ghost function Metadata(bs: nat, l: Layout): set<nat> {
    set x: nat | x < FirstData(bs) + l.usable && IsMeta(bs, l, x)
  }

  ghost predicate IsMeta(bs: nat, l: Layout, x: nat) {
    exists k: nat, bit: nat :: MetaAt(bs, l, x, k, bit)
  }

  ghost predicate MetaAt(bs: nat, l: Layout, x: nat, k: nat, bit: nat) {
    k < l.groups && bit < MetaBlocks(l, k) && x == BlockNo(GeometryOf(bs, l), k, bit)
  }

  lemma FormatGeometryOk(bs: nat, total: nat, l: Layout)
    requires Settled(bs, total, l) && total <= MAX_BLOCKS
    ensures GeometryOk(GeometryOf(bs, l))
  {
    assert (l.groups - 1) * Bpg(bs) >= 0;
  }

  /** Where a bit stands relative to the metadata and the end of its group. */
  lemma BitMeaning(bs: nat, total: nat, l: Layout, k: nat, bit: nat)
    requires Settled(bs, total, l) && FirstGroupFits(bs, l) && k < l.groups && bit < Bpg(bs)
    ensures var x := BlockNo(GeometryOf(bs, l), k, bit);
            && (x >= FirstData(bs) + l.usable <==> bit >= GroupBlocks(bs, l, k))
            && (x in Metadata(bs, l) <==> bit < MetaBlocks(l, k))
  {
    hide Sparse, Ceil, MetaBlocks;
    var g := GeometryOf(bs, l);
    var x := BlockNo(g, k, bit);
    MetaFits(bs, total, l, k);
    PastEnd(bs, total, l, k, bit);
    if bit < MetaBlocks(l, k) { assert MetaAt(bs, l, x, k, bit); }
    forall k': nat, bit': nat | MetaAt(bs, l, x, k', bit') ensures bit < MetaBlocks(l, k) {
      MetaFits(bs, total, l, k');
      BlockNoUnique(g, k, bit);
      BlockNoUnique(g, k', bit');
    }
  }

  lemma PastEnd(bs: nat, total: nat, l: Layout, k: nat, bit: nat)
    requires Settled(bs, total, l) && k < l.groups && bit < Bpg(bs)
    ensures BlockNo(GeometryOf(bs, l), k, bit) >= FirstData(bs) + l.usable <==> bit >= GroupBlocks(bs, l, k)
  {
    hide Sparse, Ceil, MetaBlocks;
    if k < l.groups - 1 {
      MulOrder(k + 1, l.groups - 1, Bpg(bs));
      assert (k + 1) * Bpg(bs) == k * Bpg(bs) + Bpg(bs);
    }
  }

  /** The bitmap of group `k` marks its metadata and the padding. */
  ghost predicate GroupMap(bs: nat, l: Layout, k: nat, bm: seq<byte>) {
    |bm| == bs && forall i :: 0 <= i < 8 * bs ==> (Bit(bm, i) <==> i < MetaBlocks(l, k) || GroupBlocks(bs, l, k) <= i)
  }

  function Reserved(k: nat): nat { if k == 0 then FIRST_INO - 1 else 0 }

  /** The inode bitmap of group `k` marks the reserved inodes and the padding. */
  ghost predicate InodeMap(bs: nat, l: Layout, k: nat, im: seq<byte>) {
    |im| == bs && forall i :: 0 <= i < 8 * bs ==> (Bit(im, i) <==> i < Reserved(k) || l.ipg <= i)
  }

  datatype Groups = Groups(bitmaps: seq<seq<byte>>, inodeMaps: seq<seq<byte>>, freeBlocks: seq<nat>, freeInodes: seq<nat>,
                           totalBlocks: nat, totalInodes: nat)

  /** The first `n` groups are written, and all counters agree with the clear bits. */
  ghost predicate GroupsDone(bs: nat, l: Layout, gs: Groups, n: nat) {
    && |gs.bitmaps| == |gs.inodeMaps| == |gs.freeBlocks| == |gs.freeInodes| == n
    && (forall k :: 0 <= k < n ==> GroupDone(bs, l, gs.bitmaps[k], gs.inodeMaps[k], gs.freeBlocks[k], gs.freeInodes[k], k))
    && gs.totalBlocks == Sum(gs.freeBlocks) && gs.totalInodes == Sum(gs.freeInodes)
  }

  ghost predicate GroupDone(bs: nat, l: Layout, bm: seq<byte>, im: seq<byte>, freeB: nat, freeI: nat, k: nat) {
    && GroupMap(bs, l, k, bm) && InodeMap(bs, l, k, im) && l.ipg <= 8 * bs
    && freeB == Zeros(bm, 8 * bs) < 0x1_0000
    && freeI == Zeros(im, l.ipg) < 0x1_0000
  }

  /** One turn of the group loop. */
  method MakeGroup(bs: nat, total: nat, l: Layout, k: nat) returns (bm: seq<byte>, im: seq<byte>, freeB: nat, freeI: nat)
    requires Settled(bs, total, l) && FirstGroupFits(bs, l) && k < l.groups
    ensures GroupDone(bs, l, bm, im, freeB, freeI, k)
  {
    hide Sparse, Ceil, Bit, Zeros;
    MetaFits(bs, total, l, k);
    var copy := HasSuper(k);
    var meta := (if copy then 1 + l.gdtBlocks else 0) + 2 + l.itb;
    var blocks := GroupBlocks(bs, l, k);
    bm := MakeBitmap(bs, meta, blocks);
    im := MakeBitmap(bs, Reserved(k), l.ipg);
    freeB, freeI := blocks - meta, l.ipg - Reserved(k);
    ZerosOfRange(bm, meta, blocks, 8 * bs);
    ZerosOfRange(im, Reserved(k), l.ipg, l.ipg);
  }

  /** The group loop. */
  method MakeGroups(bs: nat, total: nat, l: Layout) returns (gs: Groups)
    requires Settled(bs, total, l) && FirstGroupFits(bs, l)
    ensures GroupsDone(bs, l, gs, l.groups)
  {
    hide Sparse, Ceil, Bit, Zeros, GroupDone, Settled, Sum;
    gs := Groups([], [], [], [], 0, 0);
    SumNothing();
    for k := 0 to l.groups
      invariant GroupsDone(bs, l, gs, k)
    {
      var bm, im, freeB, freeI := MakeGroup(bs, total, l, k);
      SumAppend(gs.freeBlocks, freeB);
      SumAppend(gs.freeInodes, freeI);
      gs := Groups(gs.bitmaps + [bm], gs.inodeMaps + [im], gs.freeBlocks + [freeB], gs.freeInodes + [freeI],
                   gs.totalBlocks + freeB, gs.totalInodes + freeI);
    }
  }

  lemma SumNothing()
    ensures Sum([]) == 0
  {
  }

  /** A fresh device satisfies the allocator's invariant, with exactly the metadata in use. */
  lemma FormattedBitmapsOk(bs: nat, total: nat, l: Layout, gs: Groups)
    requires Settled(bs, total, l) && FirstGroupFits(bs, l) && total <= MAX_BLOCKS && GroupsDone(bs, l, gs, l.groups)
    ensures BitmapsOk(GeometryOf(bs, l), gs.bitmaps, gs.freeBlocks, gs.totalBlocks, Metadata(bs, l))
  {
    hide Sparse, Ceil, Bit, Zeros, Sum, BlockNo, MetaBlocks, GroupBlocks, GeometryOk, IsMeta;
    FormatGeometryOk(bs, total, l);
    var g := GeometryOf(bs, l);
    forall k, bit | 0 <= k < l.groups && 0 <= bit < g.bpg
      ensures |gs.bitmaps[k]| == bs
      ensures Bit(gs.bitmaps[k], bit) <==> BlockNo(g, k, bit) in Metadata(bs, l) || BlockNo(g, k, bit) >= g.blocksCount
    {
      assert GroupDone(bs, l, gs.bitmaps[k], gs.inodeMaps[k], gs.freeBlocks[k], gs.freeInodes[k], k);
      BitMeaning(bs, total, l, k, bit);
    }
    forall k | 0 <= k < l.groups ensures |gs.bitmaps[k]| == bs && gs.freeBlocks[k] == Zeros(gs.bitmaps[k], g.bpg) {
      assert GroupDone(bs, l, gs.bitmaps[k], gs.inodeMaps[k], gs.freeBlocks[k], gs.freeInodes[k], k);
    }
    forall x | x in Metadata(bs, l) ensures InRange(g, x) { MetaInRange(bs, l, x); }
  }

  lemma MetaInRange(bs: nat, l: Layout, x: nat)
    requires x in Metadata(bs, l)
    ensures InRange(GeometryOf(bs, l), x)
  {
    hide MetaBlocks, Sparse;
    var k: nat, bit: nat :| MetaAt(bs, l, x, k, bit);
    BlockLow(GeometryOf(bs, l), k, bit);
  }

  // ---- superblock and mount -----------------------------------------------------------------------

  const MAGIC: nat := 0xEF53
  const FILETYPE: nat := 2
  const SPARSE_SUPER: nat := 1

  /** The fields of the superblock that `mount` reads. */
  datatype Super = Super(magic: nat, inodesCount: nat, blocksCount: nat, freeBlocks: nat, freeInodes: nat, firstData: nat,
                         log: nat, bpg: nat, ipg: nat, rev: nat, firstIno: nat, inodeSize: nat, incompat: nat, roCompat: nat)

  function SizeOf(log: nat): nat { if log == 0 then 1024 else if log == 1 then 2048 else 4096 }

  predicate PowerOfTwo(n: nat) {
    n == 1 || (n > 1 && n % 2 == 0 && PowerOfTwo(n / 2))
  }

  /** Only FILETYPE may be set among the incompatible features, only SPARSE_SUPER and LARGE_FILE
      among the read-only ones. */
  predicate FeaturesOk(sb: Super) {
    sb.rev >= 1 ==> (sb.incompat == 0 || sb.incompat == FILETYPE) && sb.roCompat <= 3
  }

  predicate InodeSizeOk(sb: Super) {
    sb.rev >= 1 ==> 128 <= sb.inodeSize <= SizeOf(sb.log) && PowerOfTwo(sb.inodeSize)
  }

  predicate CountsOk(sb: Super) {
    0 < sb.bpg <= 8 * SizeOf(sb.log) && 0 < sb.ipg <= 8 * SizeOf(sb.log) && sb.firstData < sb.blocksCount
  }

  /** `mount` up to reading the descriptors. */
  function Mount(sb: Super, sectors: nat): Result<Geometry> {
    if sb.magic != MAGIC then Err(BadSuperblock)
    else if sb.log > 2 then Err(Unsupported)
    else if !FeaturesOk(sb) || !InodeSizeOk(sb) then Err(Unsupported)
    else if !CountsOk(sb) then Err(BadSuperblock)
    else if sb.blocksCount * (SizeOf(sb.log) / SECTOR) > sectors then Err(Corrupt)
    else
      var groups := Ceil(sb.blocksCount - sb.firstData, sb.bpg);
      if sb.inodesCount != groups * sb.ipg then Err(BadSuperblock)
      else Ok(Geometry(SizeOf(sb.log), sb.firstData, sb.blocksCount, sb.bpg, groups, sb.ipg))
  }

  /** Every geometry `mount` accepts is one the allocator can work with. */
  lemma MountedGeometryOk(sb: Super, sectors: nat)
    requires Mount(sb, sectors).Ok? && sb.blocksCount < U32
    ensures GeometryOk(Mount(sb, sectors).value)
  {
    hide PowerOfTwo, Ceil;
    CeilBounds(sb.blocksCount - sb.firstData, sb.bpg);
  }

  lemma CeilBounds(n: nat, d: nat)
    requires n > 0 && d > 0
    ensures Ceil(n, d) > 0 && (Ceil(n, d) - 1) * d < n <= Ceil(n, d) * d
  {
    var q := Ceil(n, d);
    MulOrder(q, 0, d);
    assert (q - 1) * d == q * d - d;
  }

  function LogOf(bs: nat): nat { if bs == 1024 then 0 else if bs == 2048 then 1 else 2 }

  function SuperOf(bs: nat, l: Layout, gs: Groups): Super {
    Super(MAGIC, l.groups * l.ipg, FirstData(bs) + l.usable, gs.totalBlocks, gs.totalInodes, FirstData(bs), LogOf(bs), Bpg(bs), l.ipg,
          1, FIRST_INO, 128, FILETYPE, SPARSE_SUPER)
  }

  /** The number of blocks `format` uses of a device. */
  function TotalBlocks(bs: nat, sectors: nat): nat
    requires BlockSizeOk(bs)
  {
    Min(Div(sectors, bs / SECTOR), MAX_BLOCKS)
  }

  /** That is as many whole blocks as the device has, up to a cap. */
  lemma WholeDevice(bs: nat, sectors: nat)
    requires BlockSizeOk(bs)
    ensures var n := TotalBlocks(bs, sectors);
            n <= 0xFFFF_0000 && n * bs <= sectors * 512 && (n == 0xFFFF_0000 || sectors * 512 < (n + 1) * bs)
  {
    var d := bs / SECTOR;
    DivBounds(sectors, d);
    hide Div;
    var n, q := TotalBlocks(bs, sectors), Div(sectors, d);
    MulOrder(n, q, d);
    if bs == 1024 { assert d == 2; } else if bs == 2048 { assert d == 4; } else { assert d == 8; }
  }

  /** Exactly which superblocks `mount` accepts on a device, and with what geometry. */
  lemma MountAccepts(sb: Super, sectors: nat, g: Geometry)
    ensures Mount(sb, sectors) == Ok(g) <==>
            && sb.magic == 0xEF53 && sb.log <= 2 && g.bs == (if sb.log == 0 then 1024 else if sb.log == 1 then 2048 else 4096)
            && (sb.rev >= 1 ==> sb.incompat in {0, 2} && sb.roCompat <= 3 && 128 <= sb.inodeSize <= g.bs && PowerOfTwo(sb.inodeSize))
            && (g.firstData, g.blocksCount, g.bpg, g.ipg) == (sb.firstData, sb.blocksCount, sb.bpg, sb.ipg)
            && 0 < g.bpg <= 8 * g.bs && 0 < g.ipg <= 8 * g.bs && g.firstData < g.blocksCount && g.blocksCount * g.bs <= sectors * 512
            && g.ngroups > 0 && (g.ngroups - 1) * g.bpg < g.blocksCount - g.firstData <= g.ngroups * g.bpg && sb.inodesCount == g.ngroups * g.ipg
  {
    hide Ceil, PowerOfTwo;
    BlocksOnDevice(sb.blocksCount, SizeOf(sb.log), sectors);
    if sb.bpg > 0 && sb.firstData < sb.blocksCount {
      var n := sb.blocksCount - sb.firstData;
      CeilBounds(n, sb.bpg);
      if g.ngroups > 0 && (g.ngroups - 1) * sb.bpg < n <= g.ngroups * sb.bpg { CeilIs(n, sb.bpg, g.ngroups); }
    }
  }

  lemma BlocksOnDevice(blocks: nat, bs: nat, sectors: nat)
    requires BlockSizeOk(bs)
    ensures blocks * (bs / SECTOR) <= sectors <==> blocks * bs <= sectors * 512
  {
    if bs == 1024 { assert bs / SECTOR == 2; } else if bs == 2048 { assert bs / SECTOR == 4; } else { assert bs / SECTOR == 8; }
  }

  /** What `format` writes, `mount` accepts, with the same geometry; no count overflows its field. */
  lemma FormatMounts(bs: nat, sectors: nat, l: Layout, gs: Groups)
    requires BlockSizeOk(bs) && Settled(bs, TotalBlocks(bs, sectors), l)
    ensures Mount(SuperOf(bs, l, gs), sectors) == Ok(GeometryOf(bs, l))
    ensures l.groups * l.ipg < U32 && FirstData(bs) + l.usable < U32
  {
    hide PowerOfTwo, Sparse, MetaBlocks, GroupBlocks;
    SizePower();
    var d := bs / SECTOR;
    MulOrder(FirstData(bs) + l.usable, Div(sectors, d), d);
    CeilIs(l.usable, Bpg(bs), l.groups);
    InodesFit(bs, l);
  }

  lemma SizePower()
    ensures PowerOfTwo(128)
  {
    assert PowerOfTwo(1) && PowerOfTwo(2) && PowerOfTwo(4) && PowerOfTwo(8) && PowerOfTwo(16) && PowerOfTwo(32) && PowerOfTwo(64);
  }

  lemma CeilIs(a: nat, d: nat, q: nat)
    requires d > 0 && q > 0 && (q - 1) * d < a <= q * d
    ensures Ceil(a, d) == q
  {
    assert (q - 1) * d == q * d - d;
    DivModUnique(a + d - 1, d, q, a + d - 1 - q * d);
  }

  lemma InodesFit(bs: nat, l: Layout)
    requires BlockSizeOk(bs) && Covers(bs, l.usable, l.groups) && l.ipg <= Bpg(bs) && l.usable <= MAX_BLOCKS
    ensures l.groups * l.ipg < U32
  {
    MulOrder(l.ipg, Bpg(bs), l.groups);
    assert l.groups * l.ipg == l.ipg * l.groups && l.groups * Bpg(bs) == Bpg(bs) * l.groups;
    assert l.groups * Bpg(bs) == (l.groups - 1) * Bpg(bs) + Bpg(bs);
  }

  /** `format` up to the root directory. It refuses only an odd block size, a device below 64
      blocks, or one whose first group cannot hold its metadata. */
  method FormatGroups(sectors: nat, bs: nat, bytesPerInode: nat) returns (r: Result<(Layout, Groups)>)
    ensures r.Err? ==> r == Err(Invalid)
    ensures r.Ok? <==>
      && BlockSizeOk(bs) && FirstData(bs) + 64 <= TotalBlocks(bs, sectors)
      && FirstGroupFits(bs, Planned(bs, TotalBlocks(bs, sectors) - FirstData(bs), bytesPerInode))
    ensures r.Ok? ==>
      var (l, gs) := r.value;
      && BlockSizeOk(bs) && FirstData(bs) < TotalBlocks(bs, sectors) && l == Planned(bs, TotalBlocks(bs, sectors) - FirstData(bs), bytesPerInode)
      && Settled(bs, TotalBlocks(bs, sectors), l) && FirstGroupFits(bs, l) && GroupsDone(bs, l, gs, l.groups)
      && BitmapsOk(GeometryOf(bs, l), gs.bitmaps, gs.freeBlocks, gs.totalBlocks, Metadata(bs, l))
      && Mount(SuperOf(bs, l, gs), sectors) == Ok(GeometryOf(bs, l))
  {
    hide Settled, FirstGroupFits, GroupsDone, BitmapsOk, Metadata, Mount, SuperOf, Div, Planned;
    if !BlockSizeOk(bs) { return Err(Invalid); }
    var total := TotalBlocks(bs, sectors);
    if total < FirstData(bs) + 64 { return Err(Invalid); }
    var l := PlanGroups(bs, total, bytesPerInode);
    if !FirstGroupFits(bs, l) { return Err(Invalid); }
    var gs := MakeGroups(bs, total, l);
    FormattedBitmapsOk(bs, total, l, gs);
    FormatMounts(bs, sectors, l, gs);
    r := Ok((l, gs));
  }

  /** Block 0 is never handed out, so a zero pointer can mean a hole. */
  lemma BlockZeroTaken(bs: nat, l: Layout)
    requires l.groups > 0 && l.usable > 0
    ensures FirstData(bs) > 0 || 0 in Metadata(bs, l)
  {
    hide Sparse;
    if FirstData(bs) == 0 { assert MetaAt(bs, l, 0, 0, 0); }
  }
}
