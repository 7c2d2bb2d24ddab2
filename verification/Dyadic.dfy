/** Powers of two, alignment and dyadic blocks: the arithmetic under the buddy heap.

    Alignment is defined by repeated halving, so that the facts below are proved by
    linear inductions; `AlignedMod` ties it to the remainder test the kernel uses.
  */
module Dyadic {

  function Pow2(k: nat): (p: nat)
    ensures p > 0
  {
    if k == 0 then 1 else 2 * Pow2(k - 1)
  }

  /** `a` is a multiple of `2^k`. */
  predicate Aligned(a: nat, k: nat) {
    k == 0 || (a % 2 == 0 && Aligned(a / 2, k - 1))
  }

  lemma {:induction false} Pow2Mono(i: nat, j: nat)
    requires i <= j
    ensures Pow2(i) <= Pow2(j)
    ensures i < j ==> 2 * Pow2(i) <= Pow2(j)
  {
    if i < j { Pow2Mono(i, j - 1); }
  }

  lemma Pow2MonoIf(i: nat, j: nat)
    ensures i <= j ==> Pow2(i) <= Pow2(j)
  {
    if i <= j { Pow2Mono(i, j); }
  }

  lemma Pow2Six()
    ensures Pow2(6) == 64
  {
  }

  lemma Pow2Values()
    ensures Pow2(6) == 64
    ensures Pow2(24) == 16777216
    ensures Pow2(30) == 1073741824
    ensures Pow2(31) == 2147483648
  {
    assert Pow2(6) == 64;
    assert Pow2(12) == 4096;
    assert Pow2(18) == 262144;
    assert Pow2(24) == 16777216;
    assert Pow2(30) == 1073741824;
  }

  // ---- alignment ------------------------------------------------------------

  lemma MultipleOutside(n: int, d: int)
    requires d > 0
    ensures n >= 1 ==> n * d >= d
    ensures n <= -1 ==> n * d <= -d
  {
    if n >= 1 { assert n * d == d + (n - 1) * d; }
    if n <= -1 { assert n * d == -d + (n + 1) * d; }
  }

  lemma DivModUnique(a: int, d: int, q: int, r: int)
    requires 0 <= r < d && a == q * d + r
    ensures a / d == q && a % d == r
  {
    var q', r' := a / d, a % d;
    assert (q - q') * d == r' - r;
    MultipleOutside(q - q', d);
  }

  /** Alignment by halving is the remainder test `a % 2^k == 0`. */
  lemma {:induction false} AlignedMod(a: nat, k: nat)
    ensures Aligned(a, k) <==> a % Pow2(k) == 0
  {
    if k > 0 {
      AlignedMod(a / 2, k - 1);
      var p, h := Pow2(k - 1), a / 2;
      var q, r := h / p, h % p;
      assert h == q * p + r;
      assert a == q * (2 * p) + (2 * r + a % 2) by {
        assert q * (2 * p) == 2 * (q * p);
      }
      DivModUnique(a, 2 * p, q, 2 * r + a % 2);
    }
  }

  lemma {:induction false} AlignedDown(a: nat, k: nat, j: nat)
    requires j <= k && Aligned(a, k)
    ensures Aligned(a, j)
  {
    if j > 0 { AlignedDown(a / 2, k - 1, j - 1); }
  }

  lemma {:induction false} AlignedAdd(a: nat, b: nat, k: nat)
    requires Aligned(a, k) && Aligned(b, k)
    ensures Aligned(a + b, k)
    ensures a >= b ==> Aligned(a - b, k)
  {
    if k > 0 {
      AlignedAdd(a / 2, b / 2, k - 1);
      assert (a + b) / 2 == a / 2 + b / 2;
      if a >= b { assert (a - b) / 2 == a / 2 - b / 2; }
    }
  }

  lemma {:induction false} AlignedPow2(k: nat, j: nat)
    requires k <= j
    ensures Aligned(Pow2(j), k)
  {
    if k > 0 { AlignedPow2(k - 1, j - 1); }
  }

  lemma {:induction false} AlignedZero(k: nat)
    ensures Aligned(0, k)
  {
    if k > 0 { AlignedZero(k - 1); }
  }

  /** Of two neighbouring multiples of `2^k`, exactly one is a multiple of `2^(k+1)`. */
  lemma {:induction false} AlignedAlternates(a: nat, k: nat)
    requires Aligned(a, k)
    ensures Aligned(a, k + 1) <==> !Aligned(a + Pow2(k), k + 1)
  {
    if k > 0 {
      AlignedAlternates(a / 2, k - 1);
      assert (a + Pow2(k)) / 2 == a / 2 + Pow2(k - 1);
      assert Aligned(a, k + 1) <==> Aligned(a / 2, k);
      assert Aligned(a + Pow2(k), k + 1) <==> Aligned((a + Pow2(k)) / 2, k);
    } else {
      assert Aligned(a, 1) <==> a % 2 == 0;
      assert Aligned(a + 1, 1) <==> (a + 1) % 2 == 0;
    }
  }

  /** A multiple of `2^k` that is not a multiple of `2^(k+1)` is at least `2^k`. */
  lemma {:induction false} AlignedAtLeast(a: nat, k: nat)
    requires Aligned(a, k) && a > 0
    ensures a >= Pow2(k)
  {
    if k > 0 { AlignedAtLeast(a / 2, k - 1); }
  }

  // ---- exclusive or -----------------------------------------------------------

  /** Bitwise exclusive or of two naturals. */
  function Xor(a: nat, b: nat): nat {
    if a == 0 then b
    else if b == 0 then a
    else 2 * Xor(a / 2, b / 2) + (if a % 2 != b % 2 then 1 else 0)
  }

  /** On a multiple of `2^k`, exclusive or with `2^k` moves to the other half of the
      enclosing block of size `2^(k+1)`. */
  lemma {:induction false} XorPow2(a: nat, k: nat)
    requires Aligned(a, k)
    ensures Xor(a, Pow2(k)) == if Aligned(a, k + 1) then a + Pow2(k) else a - Pow2(k)
  {
    AlignedZero(k + 1);
    if a == 0 {
    } else if k == 0 {
      assert Aligned(a, 1) <==> a % 2 == 0;
      assert Xor(a / 2, 0) == a / 2;
    } else {
      XorPow2(a / 2, k - 1);
      assert Aligned(a, k + 1) <==> Aligned(a / 2, k);
      assert Pow2(k) / 2 == Pow2(k - 1);
      if !Aligned(a, k + 1) { AlignedAtLeast(a, k); }
    }
  }

  // ---- blocks -----------------------------------------------------------------

  /** The byte range `[addr, addr + 2^order)`. */
  datatype Block = Block(addr: nat, order: nat)

  function End(b: Block): nat {
    b.addr + Pow2(b.order)
  }

  predicate Within(x: nat, b: Block) {
    b.addr <= x < End(b)
  }

  predicate Overlaps(b: Block, c: Block) {
    b.addr < End(c) && c.addr < End(b)
  }

  predicate Contains(outer: Block, inner: Block) {
    outer.addr <= inner.addr && End(inner) <= End(outer)
  }

  predicate AlignedBlock(b: Block) {
    Aligned(b.addr, b.order)
  }

  /** Two aligned blocks are nested or disjoint. */
  lemma {:induction false} Nested(b: Block, c: Block)
    requires AlignedBlock(b) && AlignedBlock(c) && b.order <= c.order
    ensures !Overlaps(b, c) || Contains(c, b)
    decreases b.order
  {
    if b.order > 0 {
      Nested(Block(b.addr / 2, b.order - 1), Block(c.addr / 2, c.order - 1));
    }
  }

  /** The other half of the block that encloses `b`. */
  function Buddy(b: Block): Block
    requires AlignedBlock(b)
  {
    if Aligned(b.addr, b.order + 1) then Block(b.addr + Pow2(b.order), b.order)
    else BuddyBelow(b); Block(b.addr - Pow2(b.order), b.order)
  }

  lemma BuddyBelow(b: Block)
    requires AlignedBlock(b) && !Aligned(b.addr, b.order + 1)
    ensures b.addr >= Pow2(b.order)
  {
    AlignedZero(b.order + 1);
    AlignedAtLeast(b.addr, b.order);
  }

  /** The block of twice the size that encloses `b`. */
  function Parent(b: Block): Block
    requires AlignedBlock(b)
  {
    if Aligned(b.addr, b.order + 1) then Block(b.addr, b.order + 1)
    else BuddyBelow(b); Block(b.addr - Pow2(b.order), b.order + 1)
  }

  function Left(p: Block): Block
    requires p.order > 0
  {
    Block(p.addr, p.order - 1)
  }

  function Right(p: Block): Block
    requires p.order > 0
  {
    Block(p.addr + Pow2(p.order - 1), p.order - 1)
  }

  lemma HalvesAligned(p: Block)
    requires AlignedBlock(p) && p.order > 0
    ensures AlignedBlock(Left(p)) && AlignedBlock(Right(p))
    ensures !Aligned(Right(p).addr, p.order)
  {
    AlignedDown(p.addr, p.order, p.order - 1);
    AlignedPow2(p.order - 1, p.order - 1);
    AlignedAdd(p.addr, Pow2(p.order - 1), p.order - 1);
    AlignedAlternates(p.addr, p.order - 1);
  }

  /** An aligned block is halved into two buddies, and only into them. */
  lemma Halves(p: Block)
    requires AlignedBlock(p) && p.order > 0
    ensures AlignedBlock(Left(p)) && AlignedBlock(Right(p))
    ensures Buddy(Left(p)) == Right(p) && Buddy(Right(p)) == Left(p)
    ensures Parent(Left(p)) == p && Parent(Right(p)) == p
    ensures Left(p) != Right(p) && !Overlaps(Left(p), Right(p))
    ensures forall x: nat :: Within(x, p) <==> Within(x, Left(p)) || Within(x, Right(p))
  {
    hide Aligned;
    HalvesAligned(p);
    assert Pow2(p.order) == 2 * Pow2(p.order - 1);
  }

  lemma BuddyParent(b: Block)
    requires AlignedBlock(b)
    ensures AlignedBlock(Buddy(b)) && AlignedBlock(Parent(b))
    ensures Buddy(b) != b && Buddy(Buddy(b)) == b
    ensures Parent(Buddy(b)) == Parent(b)
    ensures Contains(Parent(b), b) && Contains(Parent(b), Buddy(b))
    ensures {b, Buddy(b)} == {Left(Parent(b)), Right(Parent(b))}
  {
    var k := b.order;
    AlignedPow2(k, k);
    if Aligned(b.addr, k + 1) {
      assert AlignedBlock(Parent(b));
    } else {
      BuddyBelow(b);
      AlignedAdd(b.addr, Pow2(k), k);
      AlignedAlternates((b.addr - Pow2(k)) as nat, k);
      assert AlignedBlock(Parent(b));
    }
    var p := Parent(b);
    Halves(p);
    assert b == Left(p) || b == Right(p);
  }
}
