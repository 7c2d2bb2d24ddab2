/** Bytes, bitmaps and little-endian pointers, as the on-disk format stores them. */
module Bits {
  import opened Common
  import opened Dyadic

  type byte = x: int | 0 <= x < 256

  // ---- bitmaps --------------------------------------------------------------------

  /** Bit `k` of a number. */
  predicate BitOf(b: nat, k: nat) {
    if k == 0 then b % 2 == 1 else BitOf(b / 2, k - 1)
  }

  function SetIn(b: nat, k: nat): nat {
    if k == 0 then b - b % 2 + 1 else 2 * SetIn(b / 2, k - 1) + b % 2
  }

  function ClearIn(b: nat, k: nat): nat {
    if k == 0 then b - b % 2 else 2 * ClearIn(b / 2, k - 1) + b % 2
  }

  lemma {:induction false} SetInBit(b: nat, k: nat, j: nat)
    ensures BitOf(SetIn(b, k), j) <==> j == k || BitOf(b, j)
  {
    if k > 0 && j > 0 {
      SetInBit(b / 2, k - 1, j - 1);
      assert SetIn(b, k) / 2 == SetIn(b / 2, k - 1);
    } else if j > 0 {
      assert SetIn(b, k) / 2 == b / 2;
    }
  }

  lemma {:induction false} ClearInBit(b: nat, k: nat, j: nat)
    ensures BitOf(ClearIn(b, k), j) <==> j != k && BitOf(b, j)
  {
    if k > 0 && j > 0 {
      ClearInBit(b / 2, k - 1, j - 1);
      assert ClearIn(b, k) / 2 == ClearIn(b / 2, k - 1);
    } else if j > 0 {
      assert ClearIn(b, k) / 2 == b / 2;
    }
  }

  lemma {:induction false} BitsBound(b: nat, k: nat, n: nat)
    requires k < n && b < Pow2(n)
    ensures SetIn(b, k) < Pow2(n) && ClearIn(b, k) < Pow2(n)
  {
    if k > 0 { BitsBound(b / 2, k - 1, n - 1); }
  }

  predicate AllSet(b: nat, n: nat) {
    forall k :: 0 <= k < n ==> BitOf(b, k)
  }

  lemma {:induction false} AllOnes(b: nat, n: nat)
    requires b < Pow2(n)
    ensures b == Pow2(n) - 1 <==> AllSet(b, n)
  {
    if n > 0 {
      AllOnes(b / 2, n - 1);
      AllSetStep(b, n);
    }
  }

  lemma AllSetStep(b: nat, n: nat)
    requires n > 0
    ensures AllSet(b, n) <==> b % 2 == 1 && AllSet(b / 2, n - 1)
  {
    if b % 2 == 1 && AllSet(b / 2, n - 1) {
      forall k | 0 <= k < n ensures BitOf(b, k) { assert k == 0 || BitOf(b / 2, k - 1); }
    }
    if AllSet(b, n) {
      assert BitOf(b, 0);
      forall k | 0 <= k < n - 1 ensures BitOf(b / 2, k) { assert BitOf(b, k + 1); }
    }
  }

  lemma ByteLimit()
    ensures Pow2(8) == 256
  {
  }

  /** A byte is 255 exactly when all eight bits are set. */
  lemma FullByte(b: byte)
    ensures b == 255 <==> AllSet(b, 8)
  {
    ByteLimit();
    AllOnes(b, 8);
  }

  predicate Bit(b: seq<byte>, i: nat)
    requires i < 8 * |b|
  {
    BitOf(b[i / 8], i % 8)
  }

  function SetBit(b: seq<byte>, i: nat): seq<byte>
    requires i < 8 * |b|
  {
    ByteLimit();
    BitsBound(b[i / 8], i % 8, 8);
    b[i / 8 := SetIn(b[i / 8], i % 8)]
  }

  function ClearBit(b: seq<byte>, i: nat): seq<byte>
    requires i < 8 * |b|
  {
    ByteLimit();
    BitsBound(b[i / 8], i % 8, 8);
    b[i / 8 := ClearIn(b[i / 8], i % 8)]
  }

  /** Setting or clearing one bit changes that bit and no other. */
  lemma BitChange(b: seq<byte>, i: nat)
    requires i < 8 * |b|
    ensures |SetBit(b, i)| == |ClearBit(b, i)| == |b|
    ensures forall j :: 0 <= j < 8 * |b| ==> (Bit(SetBit(b, i), j) <==> j == i || Bit(b, j))
    ensures forall j :: 0 <= j < 8 * |b| ==> (Bit(ClearBit(b, i), j) <==> j != i && Bit(b, j))
  {
    hide BitOf, SetIn, ClearIn;
    var s, c := SetBit(b, i), ClearBit(b, i);
    forall j | 0 <= j < 8 * |b|
      ensures Bit(s, j) <==> j == i || Bit(b, j)
      ensures Bit(c, j) <==> j != i && Bit(b, j)
    {
      SetInBit(b[i / 8], i % 8, j % 8);
      ClearInBit(b[i / 8], i % 8, j % 8);
    }
  }

  /** The first clear bit among the first `n`, skipping full bytes. */
  method FindZero(b: seq<byte>, n: nat) returns (r: Option<nat>)
    requires n <= 8 * |b|
    ensures r.None? ==> forall i :: 0 <= i < n ==> Bit(b, i)
    ensures r.Some? ==> r.value < n && !Bit(b, r.value) && forall i :: 0 <= i < r.value ==> Bit(b, i)
  {
    hide BitOf;
    for k := 0 to (n + 7) / 8
      invariant forall i :: 0 <= i < 8 * k ==> Bit(b, i)
    {
      FullByte(b[k]);
      if b[k] != 255 {
        for bit := 0 to 8
          invariant forall i :: 0 <= i < 8 * k + bit ==> Bit(b, i)
          invariant forall j :: 0 <= j < bit ==> BitOf(b[k], j)
        {
          var i := k * 8 + bit;
          if i >= n { return None; }
          if !Bit(b, i) { return Some(i); }
        }
      } else {
        forall i | 8 * k <= i < 8 * (k + 1) ensures Bit(b, i) { assert BitOf(b[k], i % 8); }
      }
    }
    return None;
  }

  /** How many of the first `n` bits are clear. */
  function Zeros(b: seq<byte>, n: nat): nat
    requires n <= 8 * |b|
  {
    if n == 0 then 0 else Zeros(b, n - 1) + if Bit(b, n - 1) then 0 else 1
  }

  lemma {:induction false} ZerosChange(b: seq<byte>, c: seq<byte>, n: nat, i: nat)
    requires n <= 8 * |b| && |b| == |c| && i < 8 * |b| && !Bit(b, i) && Bit(c, i)
    requires forall j :: 0 <= j < 8 * |b| && j != i ==> (Bit(b, j) <==> Bit(c, j))
    ensures Zeros(b, n) == Zeros(c, n) + if i < n then 1 else 0
  {
    if n > 0 { ZerosChange(b, c, n - 1, i); }
  }

  lemma {:induction false} ZerosNone(b: seq<byte>, n: nat)
    requires n <= 8 * |b|
    ensures Zeros(b, n) == 0 <==> forall i :: 0 <= i < n ==> Bit(b, i)
  {
    if n > 0 { ZerosNone(b, n - 1); }
  }

  // ---- block pointers ---------------------------------------------------------------

  const POINTER_LIMIT: nat := 0x1_0000_0000

  /** The 32-bit little-endian number at offset `o`. */
  function Rd32(b: seq<byte>, o: nat): (p: nat)
    requires o + 4 <= |b|
    ensures p < POINTER_LIMIT
  {
    var b0: nat, b1: nat, b2: nat, b3: nat := b[o], b[o + 1], b[o + 2], b[o + 3];
    b0 + 0x100 * b1 + 0x1_0000 * b2 + 0x100_0000 * b3
  }

  /** The `i`-th pointer of a block. */
  function Ptr(b: seq<byte>, i: nat): (p: nat)
    requires 4 * i + 4 <= |b|
    ensures p < POINTER_LIMIT
  {
    Rd32(b, 4 * i)
  }

  function SetPtr(b: seq<byte>, i: nat, p: nat): seq<byte>
    requires 4 * i + 4 <= |b| && p < POINTER_LIMIT
  {
    var p1: nat := p / 0x100;
    var p2: nat := p1 / 0x100;
    var p3: nat := p2 / 0x100;
    b[4 * i := p % 0x100][4 * i + 1 := p1 % 0x100][4 * i + 2 := p2 % 0x100][4 * i + 3 := p3]
  }

  /** Writing one pointer reads back, and leaves the others. */
  lemma PtrChange(b: seq<byte>, i: nat, p: nat)
    requires 4 * i + 4 <= |b| && p < POINTER_LIMIT
    ensures |SetPtr(b, i, p)| == |b| && Ptr(SetPtr(b, i, p), i) == p
    ensures forall j :: 0 <= j && 4 * j + 4 <= |b| && j != i ==> Ptr(SetPtr(b, i, p), j) == Ptr(b, j)
  {
    var r := SetPtr(b, i, p);
    assert Ptr(r, i) == p;
    forall j | 0 <= j && 4 * j + 4 <= |b| && j != i ensures Ptr(r, j) == Ptr(b, j) {
      assert 4 * j + 4 <= 4 * i || 4 * i + 4 <= 4 * j;
    }
  }

  function Zeroes(n: nat): (b: seq<byte>)
    ensures |b| == n && forall i :: 0 <= i < n ==> b[i] == 0
    ensures forall j :: 0 <= j && 4 * j + 4 <= n ==> Ptr(b, j) == 0
  {
    seq(n, i => 0)
  }
}
