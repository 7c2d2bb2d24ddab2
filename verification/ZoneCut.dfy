/** How `init` cuts an arbitrary heap range into power-of-two zones. */
module ZoneCut {
  import opened Common
  import opened Dyadic
  import opened Tiling

  const MAX_ZONES: nat := 32

  /** A supported block of order `o` fits at `addr` with `remaining` bytes left. */
  predicate Fits(addr: nat, remaining: nat, o: nat) {
    MIN_ORDER <= o <= MAX_ORDER && Pow2(o) <= remaining && Aligned(addr, o)
  }

  /** `o` is the largest supported order that fits. */
  ghost predicate LargestFit(addr: nat, remaining: nat, o: nat) {
    Fits(addr, remaining, o) && forall j :: o < j ==> !Fits(addr, remaining, j)
  }

  /** The zones of a heap range: each is the largest aligned block that fits where the
      previous one ended, until fewer than 64 bytes are left. */
  ghost predicate Greedy(s: seq<Block>, addr: nat, remaining: nat)
    decreases |s|
  {
    if s == [] then remaining < 64
    else
      && s[0].addr == addr
      && LargestFit(addr, remaining, s[0].order)
      && Greedy(s[1..], End(s[0]), remaining - Pow2(s[0].order))
  }

  lemma StepAligned(addr: nat, o: nat)
    requires MIN_ORDER <= o && Aligned(addr, o)
    ensures Aligned(addr + Pow2(o), o) && Aligned(addr + Pow2(o), MIN_ORDER)
  {
    AlignedPow2(o, o);
    AlignedAdd(addr, Pow2(o), o);
    AlignedDown(addr + Pow2(o), o, MIN_ORDER);
  }

  lemma {:induction false} LargestFitExists(addr: nat, remaining: nat, top: nat) returns (o: nat)
    requires Aligned(addr, MIN_ORDER) && 64 <= remaining && MIN_ORDER <= top
    requires forall j :: top < j ==> !Fits(addr, remaining, j)
    ensures LargestFit(addr, remaining, o)
  {
    Pow2Six();
    if Fits(addr, remaining, top) {
      o := top;
    } else {
      o := LargestFitExists(addr, remaining, top - 1);
    }
  }

  /** Every heap has a zone layout. */
  lemma {:induction false} GreedyExists(addr: nat, remaining: nat) returns (s: seq<Block>)
    requires Aligned(addr, MIN_ORDER)
    ensures Greedy(s, addr, remaining)
    decreases remaining
  {
    if remaining < 64 {
      s := [];
    } else {
      var o := LargestFitExists(addr, remaining, MAX_ORDER);
      StepAligned(addr, o);
      var rest := GreedyExists(addr + Pow2(o), remaining - Pow2(o));
      s := [Block(addr, o)] + rest;
      assert s[1..] == rest;
    }
  }

  lemma LargestFitUnique(addr: nat, remaining: nat, o: nat, o': nat)
    requires LargestFit(addr, remaining, o) && LargestFit(addr, remaining, o')
    ensures o == o'
  {
  }

  /** One step of the layout. */
  lemma GreedyNext(s: seq<Block>, addr: nat, remaining: nat, o: nat)
    requires Greedy(s, addr, remaining) && remaining >= 64 && LargestFit(addr, remaining, o)
    ensures s != [] && s[0] == Block(addr, o)
    ensures Greedy(s[1..], addr + Pow2(o), remaining - Pow2(o)) && Aligned(addr + Pow2(o), MIN_ORDER)
  {
    LargestFitUnique(addr, remaining, o, s[0].order);
    StepAligned(addr, o);
  }

  lemma GreedyEnd(s: seq<Block>, addr: nat, remaining: nat)
    requires Greedy(s, addr, remaining) && remaining < 64
    ensures s == []
  {
    if s != [] {
      Pow2Six();
      Pow2Mono(MIN_ORDER, s[0].order);
    }
  }

  // ---- the zones cover the heap ----------------------------------------------------

  ghost function Elems(s: seq<Block>): set<Block> {
    set b | b in s
  }

  lemma {:induction false} GreedyDisjoint(s: seq<Block>, addr: nat, remaining: nat)
    requires Greedy(s, addr, remaining)
    ensures forall b <- s :: AlignedBlock(b) && MIN_ORDER <= b.order <= MAX_ORDER
    ensures forall i :: 0 <= i < |s| ==> addr <= s[i].addr && End(s[i]) <= addr + remaining - remaining % 64
    ensures forall i, j :: 0 <= i < j < |s| ==> End(s[i]) <= s[j].addr
    decreases |s|
  {
    hide Aligned, Pow2;
    if s != [] {
      var o, t := s[0].order, s[1..];
      GreedyDisjoint(t, End(s[0]), remaining - Pow2(o));
      Pow2Times64(o - 6);
      assert (remaining - Pow2(o)) % 64 == remaining % 64;
      assert forall i :: 0 < i < |s| ==> s[i] == t[i - 1];
    }
  }

  lemma {:induction false} GreedyCovers(s: seq<Block>, addr: nat, remaining: nat, x: nat)
    requires Greedy(s, addr, remaining) && addr <= x < addr + remaining - remaining % 64
    ensures exists b <- s :: Within(x, b)
    decreases |s|
  {
    hide Aligned, Pow2;
    if x < End(s[0]) {
      assert Within(x, s[0]);
    } else {
      Pow2Times64(s[0].order - 6);
      GreedyCovers(s[1..], End(s[0]), remaining - Pow2(s[0].order), x);
    }
  }

  /** `init`'s zones are disjoint, aligned to their own size, and cover the whole heap
      except fewer than 64 trailing bytes. */
  lemma HeapZonesCover(zs: seq<Block>, start: nat, size: nat)
    requires start > 0 && Greedy(zs, start, size)
    ensures ZonesOk(Elems(zs)) && Distinct(zs)
    ensures forall x: nat :: start <= x < start + size - size % 64 <==> Covered(Elems(zs), x)
  {
    var to := start + size - size % 64;
    GreedyDisjoint(zs, start, size);
    forall x: nat ensures start <= x < to <==> Covered(Elems(zs), x) {
      if start <= x < to {
        GreedyCovers(zs, start, size, x);
        var b :| b in zs && Within(x, b);
        assert b in Elems(zs);
      }
      if Covered(Elems(zs), x) {
        var b :| b in Elems(zs) && Within(x, b);
      }
    }
  }

  // ---- how many zones --------------------------------------------------------------

  function PopCount(n: nat): nat {
    if n == 0 then 0 else n % 2 + PopCount(n / 2)
  }

  lemma PopZero()
    ensures PopCount(0) == 0
  {
  }

  lemma {:induction false} PopLow(n: nat, o: nat)
    requires Aligned(n, o) && !Aligned(n, o + 1)
    ensures n >= Pow2(o) && PopCount(n - Pow2(o)) == PopCount(n) - 1
  {
    AlignedZero(o + 1);
    AlignedAtLeast(n, o);
    if o == 0 {
      assert Aligned(n, 1) <==> n % 2 == 0;
      assert (n - 1) / 2 == n / 2;
    } else {
      assert Aligned(n, o + 1) <==> Aligned(n / 2, o);
      PopLow(n / 2, o - 1);
      assert (n - Pow2(o)) / 2 == n / 2 - Pow2(o - 1);
    }
  }

  lemma {:induction false} PopHigh(n: nat, o: nat)
    requires Pow2(o) <= n < Pow2(o + 1)
    ensures PopCount(n - Pow2(o)) == PopCount(n) - 1
  {
    if o == 0 {
      assert n == 1;
      assert PopCount(1) == 1 + PopCount(0);
    } else {
      PopHigh(n / 2, o - 1);
      assert (n - Pow2(o)) / 2 == n / 2 - Pow2(o - 1);
    }
  }

  lemma {:induction false} PopBound(n: nat, k: nat)
    requires n < Pow2(k)
    ensures PopCount(n) <= k
  {
    if k > 0 { PopBound(n / 2, k - 1); }
  }

  lemma {:induction false} PopOnes(k: nat)
    ensures PopCount(Pow2(k) - 1) == k
  {
    if k > 0 {
      PopOnes(k - 1);
      assert (Pow2(k) - 1) / 2 == Pow2(k - 1) - 1 && (Pow2(k) - 1) % 2 == 1;
    }
  }

  /** Distance from `addr` up to the next multiple of `2^k`. */
  function Gap(addr: nat, k: nat): (g: nat)
    ensures g < Pow2(k)
  {
    if k == 0 then 0 else 2 * Gap((addr + 1) / 2, k - 1) + addr % 2
  }

  lemma {:induction false} GapAligned(addr: nat, k: nat)
    ensures Aligned(addr + Gap(addr, k), k)
  {
    hide Pow2, Gap, Aligned;
    GapStep(addr, k);
    AlignedStep(addr + Gap(addr, k), k);
    if k > 0 {
      GapAligned((addr + 1) / 2, k - 1);
      NextEven(addr, Gap((addr + 1) / 2, k - 1));
    }
  }

  lemma GapStep(addr: nat, k: nat)
    ensures Gap(addr, k) == if k == 0 then 0 else 2 * Gap((addr + 1) / 2, k - 1) + addr % 2
  {
    hide Pow2;
  }

  lemma AlignedStep(a: nat, k: nat)
    ensures Aligned(a, k) <==> k == 0 || (a % 2 == 0 && Aligned(a / 2, k - 1))
  {
  }

  lemma NextEven(a: nat, g: nat)
    ensures (a + 2 * g + a % 2) % 2 == 0 && (a + 2 * g + a % 2) / 2 == (a + 1) / 2 + g
  {
  }

  /** The gap as a remainder: `-addr mod 2^k`. */
  lemma GapIsRemainder(addr: nat, k: nat)
    ensures Gap(addr, k) == (0 - addr) % Pow2(k)
  {
    hide Aligned, Gap, Pow2;
    var p, g := Pow2(k), Gap(addr, k);
    GapAligned(addr, k);
    AlignedMod(addr + g, k);
    var q := (addr + g) / p;
    assert 0 - addr == (0 - q) * p + g;
    DivModUnique(0 - addr, p, 0 - q, g);
  }

  lemma GapUnique(addr: nat, k: nat, g: nat)
    requires g < Pow2(k) && Aligned(addr + g, k)
    ensures g == Gap(addr, k)
  {
    GapAligned(addr, k);
    var h := Gap(addr, k);
    if g < h {
      AlignedAdd(addr + h, addr + g, k);
      AlignedAtLeast(h - g, k);
    } else if h < g {
      AlignedAdd(addr + g, addr + h, k);
      AlignedAtLeast(g - h, k);
    }
  }

  /** The largest supported order whose block fits in `size` bytes. */
  function LargestOrder(size: nat): (o: nat)
    requires 64 <= size
    ensures IsLargestOrder(size, o)
  {
    Pow2Six();
    LargestOrderFrom(size, MIN_ORDER)
  }

  predicate IsLargestOrder(size: nat, o: nat) {
    MIN_ORDER <= o <= MAX_ORDER && Pow2(o) <= size && (o == MAX_ORDER || size < Pow2(o + 1))
  }

  function LargestOrderFrom(size: nat, order: nat): (o: nat)
    requires MIN_ORDER <= order <= MAX_ORDER && Pow2(order) <= size
    ensures IsLargestOrder(size, o)
    decreases MAX_ORDER - order
  {
    if order < MAX_ORDER && Pow2(order + 1) <= size then LargestOrderFrom(size, order + 1) else order
  }

  lemma LargestOrderBounds(size: nat, o: nat, j: nat)
    requires IsLargestOrder(size, o) && j <= MAX_ORDER && Pow2(j) <= size
    ensures j <= o
  {
    Pow2MonoIf(o + 1, j);
  }

  /** Below the next multiple of `2^cap`, each zone takes the lowest set bit of the gap. */
  lemma RisingStep(addr: nat, remaining: nat, cap: nat, o: nat)
    requires MIN_ORDER <= cap <= MAX_ORDER && !Aligned(addr, cap)
    requires Gap(addr, cap) <= remaining && LargestFit(addr, remaining, o)
    ensures Pow2(o) <= Gap(addr, cap)
    ensures Gap(addr + Pow2(o), cap) == Gap(addr, cap) - Pow2(o)
    ensures PopCount(Gap(addr + Pow2(o), cap)) == PopCount(Gap(addr, cap)) - 1
  {
    var g := Gap(addr, cap);
    RisingOrder(addr, remaining, cap, o);
    PopLow(g, o);
    GapAligned(addr, cap);
    assert addr + Pow2(o) + (g - Pow2(o)) == addr + g;
    GapUnique(addr + Pow2(o), cap, g - Pow2(o));
  }

  lemma RisingOrder(addr: nat, remaining: nat, cap: nat, o: nat)
    requires MIN_ORDER <= cap <= MAX_ORDER && !Aligned(addr, cap)
    requires Gap(addr, cap) <= remaining && LargestFit(addr, remaining, o)
    ensures o < cap && Aligned(Gap(addr, cap), o) && !Aligned(Gap(addr, cap), o + 1)
  {
    hide Aligned, Gap;
    var g := Gap(addr, cap);
    if cap <= o { AlignedDown(addr, o, cap); }
    GapAligned(addr, cap);
    AlignedDown(addr + g, cap, o);
    AlignedAdd(addr + g, addr, o);
    AlignedDown(addr + g, cap, o + 1);
    if Aligned(g, o + 1) { NextOrderFits(addr, remaining, g, o + 1); }
  }

  lemma NextOrderFits(addr: nat, remaining: nat, g: nat, k: nat)
    requires 0 < g <= remaining && Aligned(g, k) && Aligned(addr + g, k) && MIN_ORDER <= k <= MAX_ORDER
    ensures Fits(addr, remaining, k)
  {
    hide Aligned;
    AlignedAdd(addr + g, g, k);
    AlignedAtLeast(g, k);
  }

  lemma {:induction false} RisingCount(s: seq<Block>, addr: nat, remaining: nat, cap: nat) returns (i: nat)
    requires Greedy(s, addr, remaining)
    requires MIN_ORDER <= cap <= MAX_ORDER && Aligned(addr, MIN_ORDER) && Gap(addr, cap) + 64 <= remaining
    ensures i == PopCount(Gap(addr, cap)) && i <= |s|
    ensures Aligned(addr + Gap(addr, cap), cap)
    ensures Greedy(s[i..], addr + Gap(addr, cap), remaining - Gap(addr, cap))
    decreases |s|
  {
    hide Aligned, Gap, PopCount, Pow2;
    GapAligned(addr, cap);
    if Aligned(addr, cap) {
      GapUnique(addr, cap, 0);
      PopZero();
      i := 0;
    } else {
      var o := s[0].order;
      RisingStep(addr, remaining, cap, o);
      StepAligned(addr, o);
      var j := RisingCount(s[1..], addr + Pow2(o), remaining - Pow2(o), cap);
      i := j + 1;
      assert s[i..] == s[1..][j..];
    }
  }

  /** Once the rest is shorter than the alignment, each zone takes its highest set bit. */
  lemma {:induction false} FallingCount(s: seq<Block>, addr: nat, remaining: nat, k: nat)
    requires Greedy(s, addr, remaining)
    requires MIN_ORDER <= k <= MAX_ORDER && Aligned(addr, k) && remaining < Pow2(k)
    ensures |s| == PopCount(remaining / 64)
    ensures forall b <- s :: b.order < k
    ensures StrictlyFalling(s)
    decreases |s|
  {
    if s != [] {
      var o := s[0].order;
      FallingOrder(addr, remaining, k, o);
      StepAligned(addr, o);
      FallingCount(s[1..], End(s[0]), remaining - Pow2(o), o);
      FallingPop(remaining, o);
      FallingCons(s, k);
    }
  }

  ghost predicate StrictlyFalling(s: seq<Block>) {
    forall i, j :: 0 <= i < j < |s| ==> s[i].order > s[j].order
  }

  lemma FallingCons(s: seq<Block>, k: nat)
    requires s != [] && s[0].order < k && StrictlyFalling(s[1..]) && forall b <- s[1..] :: b.order < s[0].order
    ensures StrictlyFalling(s) && forall b <- s :: b.order < k
  {
    forall j | 0 < j < |s| ensures s[j].order < s[0].order { assert s[j] == s[1..][j - 1]; }
    forall i, j | 0 < i < j < |s| ensures s[i].order > s[j].order {
      assert s[i] == s[1..][i - 1] && s[j] == s[1..][j - 1];
    }
  }

  lemma FallingOrder(addr: nat, remaining: nat, k: nat, o: nat)
    requires MIN_ORDER <= k <= MAX_ORDER && Aligned(addr, k) && remaining < Pow2(k)
    requires LargestFit(addr, remaining, o)
    ensures o < k && Pow2(o) <= remaining < Pow2(o + 1)
  {
    if k <= o { Pow2Mono(k, o); }
    if remaining >= Pow2(o + 1) {
      Pow2Mono(o + 1, k);
      AlignedDown(addr, k, o + 1);
      assert Fits(addr, remaining, o + 1);
    }
  }

  lemma FallingPop(remaining: nat, o: nat)
    requires 6 <= o && Pow2(o) <= remaining < Pow2(o + 1)
    ensures PopCount((remaining - Pow2(o)) / 64) == PopCount(remaining / 64) - 1
  {
    Pow2Times64(o - 6);
    PopHigh(remaining / 64, o - 6);
    assert (remaining - Pow2(o)) / 64 == remaining / 64 - Pow2(o - 6);
  }

  lemma Pow2Times64(k: nat)
    ensures Pow2(k + 6) == 64 * Pow2(k)
  {
    assert Pow2(k + 6) == 2 * Pow2(k + 5) == 4 * Pow2(k + 4) == 8 * Pow2(k + 3);
    assert Pow2(k + 3) == 2 * Pow2(k + 2) == 4 * Pow2(k + 1);
  }

  lemma {:induction false} PlateauCount(s: seq<Block>, addr: nat, remaining: nat, size: nat, cap: nat)
    requires Greedy(s, addr, remaining) && remaining <= size
    requires IsLargestOrder(size, cap) && Aligned(addr, cap)
    ensures |s| == Quot(remaining, cap) + PopCount(Rem(remaining, cap) / 64)
    decreases |s|
  {
    if remaining < Pow2(cap) {
      FallingCount(s, addr, remaining, cap);
      QuotSmall(remaining, cap);
    } else {
      assert Fits(addr, remaining, cap);
      assert s != [] by { Pow2Six(); Pow2Mono(6, cap); }
      LargestOrderBounds(size, cap, s[0].order);
      StepAligned(addr, cap);
      PlateauCount(s[1..], addr + Pow2(cap), remaining - Pow2(cap), size, cap);
      QuotStep(remaining - Pow2(cap), cap);
    }
  }

  /** Quotient and remainder by `2^k`, by halving. */
  function Quot(n: nat, k: nat): nat {
    if k == 0 then n else Quot(n / 2, k - 1)
  }

  function Rem(n: nat, k: nat): (r: nat)
    ensures r < Pow2(k)
  {
    if k == 0 then 0 else 2 * Rem(n / 2, k - 1) + n % 2
  }

  lemma {:induction false} QuotSmall(n: nat, k: nat)
    requires n < Pow2(k)
    ensures Quot(n, k) == 0 && Rem(n, k) == n
  {
    if k > 0 { QuotSmall(n / 2, k - 1); }
  }

  lemma {:induction false} QuotStep(n: nat, k: nat)
    ensures Quot(n + Pow2(k), k) == Quot(n, k) + 1 && Rem(n + Pow2(k), k) == Rem(n, k)
  {
    if k > 0 {
      QuotStep(n / 2, k - 1);
      assert (n + Pow2(k)) / 2 == n / 2 + Pow2(k - 1);
    }
  }

  /** They are the operators `/` and `%`. */
  lemma {:induction false} QuotRem(n: nat, k: nat)
    ensures Quot(n, k) == n / Pow2(k) && Rem(n, k) == n % Pow2(k)
  {
    hide Pow2, Quot, Rem;
    var p := Pow2(k);
    if n < p {
      QuotSmall(n, k);
      DivModUnique(n, p, 0, n);
    } else {
      QuotRem(n - p, k);
      QuotStep(n - p, k);
      var q, r := (n - p) / p, (n - p) % p;
      assert n == (q + 1) * p + r;
      DivModUnique(n, p, q + 1, r);
    }
  }

  /** The number of zones, in terms a caller can compute before calling `init`. */
  function ZoneCount(start: nat, size: nat): nat
    requires size >= 64
  {
    ZoneCountBelow(start, size, LargestOrder(size))
  }

  function ZoneCountBelow(start: nat, size: nat, cap: nat): nat
    requires Pow2(cap) <= size
  {
    var lead := Gap(start, cap);
    PopCount(lead) + Quot(size - lead, cap) + PopCount(Rem(size - lead, cap) / 64)
  }

  /** `init` lays out exactly `ZoneCount` zones. */
  lemma HeapZonesCount(zs: seq<Block>, start: nat, size: nat)
    requires Aligned(start, MIN_ORDER) && size >= 64 && Greedy(zs, start, size)
    ensures |zs| == ZoneCount(start, size)
  {
    HeapZonesCountBelow(zs, start, size, LargestOrder(size));
  }

  lemma HeapZonesCountBelow(zs: seq<Block>, start: nat, size: nat, cap: nat)
    requires Aligned(start, MIN_ORDER) && IsLargestOrder(size, cap) && Greedy(zs, start, size)
    ensures |zs| == ZoneCountBelow(start, size, cap)
  {
    hide Aligned, Gap, PopCount, Pow2, Quot, Rem;
    GapMultiple(start, cap);
    var i := RisingCount(zs, start, size, cap);
    PlateauCount(zs[i..], start + Gap(start, cap), size - Gap(start, cap), size, cap);
  }

  lemma GapMultiple(start: nat, cap: nat)
    requires MIN_ORDER <= cap && Aligned(start, MIN_ORDER)
    ensures Gap(start, cap) + 64 <= Pow2(cap)
  {
    hide Aligned, Gap;
    var g := Gap(start, cap);
    GapAligned(start, cap);
    AlignedDown(start + g, cap, MIN_ORDER);
    AlignedAdd(start + g, start, MIN_ORDER);
    AlignedPow2(MIN_ORDER, cap);
    AlignedAdd(Pow2(cap), g, MIN_ORDER);
    AlignedAtLeast(Pow2(cap) - g, MIN_ORDER);
    Pow2Six();
  }

  /** A heap under 2 GiB that starts on a multiple of the largest power of two not above
      its size has strictly falling zones, at most 25 of them. */
  lemma AlignedHeapFits(zs: seq<Block>, start: nat, size: nat, cap: nat)
    requires size < 0x8000_0000 && IsLargestOrder(size, cap)
    requires Aligned(start, cap) && Greedy(zs, start, size)
    ensures StrictlyFalling(zs) && |zs| <= 25 < MAX_ZONES
  {
    hide Aligned;
    assert Fits(start, size, cap);
    assert size >= 64 by { Pow2Six(); Pow2Mono(6, cap); }
    LargestOrderBounds(size, cap, zs[0].order);
    assert size < Pow2(cap + 1) by { Pow2Values(); }
    AlignedHeapTail(zs[1..], start, size, cap);
    FallingCons(zs, cap + 1);
  }

  lemma AlignedHeapTail(rest: seq<Block>, start: nat, size: nat, cap: nat)
    requires MIN_ORDER <= cap <= MAX_ORDER && Pow2(cap) <= size < Pow2(cap + 1)
    requires Aligned(start, cap) && Greedy(rest, start + Pow2(cap), size - Pow2(cap))
    ensures StrictlyFalling(rest) && |rest| <= 24 && forall b <- rest :: b.order < cap
  {
    StepAligned(start, cap);
    FallingCount(rest, start + Pow2(cap), size - Pow2(cap), cap);
    Pow2Times64(cap - 6);
    PopBound((size - Pow2(cap)) / 64, cap - 6);
  }

  /** A badly aligned heap does not: starting one block past a multiple of `2^(k+6)` and ending
      one block short of one, it needs two zones for each order below `k + 6`. */
  lemma MisalignedCount(k: nat)
    requires k >= 1
    ensures Pow2(k + 6) <= 2 * Pow2(k + 6) - 128
    ensures ZoneCountBelow(64, 2 * Pow2(k + 6) - 128, k + 6) == 2 * k
  {
    hide Aligned, Gap, PopCount, Pow2, Quot, Rem;
    Pow2Times64(k);
    MisalignedPositive(k);
    var lead := Pow2(k + 6) - 64;
    AlignedPow2(k + 6, k + 6);
    GapUnique(64, k + 6, lead);
    assert lead == 64 * (Pow2(k) - 1);
    PopOnes(k);
    PopTimes64(Pow2(k) - 1);
    QuotSmall(lead, k + 6);
  }

  lemma MisalignedPositive(k: nat)
    requires k >= 1
    ensures Pow2(k) >= 2
  {
  }

  /** From byte 64, a heap of 2^31 - 128 bytes decomposes into 48 zones. */
  lemma MisalignedHeapOverflows()
    ensures ZoneCount(64, 0x8000_0000 - 128) == 48 > MAX_ZONES
  {
    Pow2Values();
    var size := 0x8000_0000 - 128;
    LargestOrderBounds(size, LargestOrder(size), 30);
    MisalignedCount(24);
  }

  lemma PopTimes64(n: nat)
    ensures PopCount(64 * n) == PopCount(n)
  {
    hide PopCount;
    PopDouble(n);
    PopDouble(2 * n);
    PopDouble(4 * n);
    PopDouble(8 * n);
    PopDouble(16 * n);
    PopDouble(32 * n);
  }

  lemma PopDouble(n: nat)
    ensures PopCount(2 * n) == PopCount(n)
  {
  }
}
