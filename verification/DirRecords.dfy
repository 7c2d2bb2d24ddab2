/** Directory blocks: variable-length records that tile a block exactly. */
module DirRecords {
  import opened Bits
  import opened FsErrors

  const HEADER: nat := 8
  const MAX_NAME: nat := 255

  /** A directory record; `ino` 0 marks an unused one. */
  datatype Rec = Rec(ino: nat, len: nat, name: seq<byte>, ftype: byte)

  function Align4(n: nat): (r: nat)
    ensures n <= r < n + 4 && r % 4 == 0
  {
    (n + 3) / 4 * 4
  }

  /** Bytes a record with this name needs. */
  function Need(name: seq<byte>): nat { Align4(HEADER + |name|) }

  /** Bytes of a record that are taken. */
  function Used(r: Rec): nat { if r.ino == 0 then 0 else Need(r.name) }

  function Rd16(b: seq<byte>, o: nat): nat
    requires o + 2 <= |b|
  {
    var b0: nat, b1: nat := b[o], b[o + 1];
    b0 + 0x100 * b1
  }

  function Le16(v: nat): (r: seq<byte>)
    requires v < 0x1_0000
    ensures |r| == 2
  {
    var v1: nat := v / 0x100;
    [v % 0x100, v1]
  }

  function Le32(v: nat): (r: seq<byte>)
    requires v < 0x1_0000_0000
    ensures |r| == 4
  {
    var v1: nat := v / 0x100;
    var v2: nat := v1 / 0x100;
    var v3: nat := v2 / 0x100;
    [v % 0x100, v1 % 0x100, v2 % 0x100, v3]
  }

  lemma Le32Read(b: seq<byte>, o: nat, v: nat)
    requires o + 4 <= |b| && v < 0x1_0000_0000 && b[o..o + 4] == Le32(v)
    ensures Rd32(b, o) == v
  {
    var s := b[o..o + 4];
    assert b[o] == s[0] && b[o + 1] == s[1] && b[o + 2] == s[2] && b[o + 3] == s[3];
  }

  lemma Le16Read(b: seq<byte>, o: nat, v: nat)
    requires o + 2 <= |b| && v < 0x1_0000 && b[o..o + 2] == Le16(v)
    ensures Rd16(b, o) == v
  {
    var s := b[o..o + 2];
    assert b[o] == s[0] && b[o + 1] == s[1];
  }

  /** `s` written over `b` at `o`. */
  function Write(b: seq<byte>, o: nat, s: seq<byte>): (r: seq<byte>)
    requires o + |s| <= |b|
    ensures |r| == |b|
  {
    b[..o] + s + b[o + |s|..]
  }

  /** Two blocks agree outside `[lo, hi)`. */
  ghost predicate SameAround(b: seq<byte>, b': seq<byte>, lo: nat, hi: nat) {
    |b'| == |b| && forall k :: 0 <= k < |b| && (k < lo || k >= hi) ==> b'[k] == b[k]
  }

  lemma SameAroundTrans(b: seq<byte>, b1: seq<byte>, b2: seq<byte>, lo1: nat, hi1: nat, lo2: nat, hi2: nat, lo: nat, hi: nat)
    requires SameAround(b, b1, lo1, hi1) && SameAround(b1, b2, lo2, hi2)
    requires lo <= lo1 && hi1 <= hi && lo <= lo2 && hi2 <= hi
    ensures SameAround(b, b2, lo, hi)
  {
  }

  lemma Written(b: seq<byte>, o: nat, s: seq<byte>)
    requires o + |s| <= |b|
    ensures var r := Write(b, o, s);
            r[o..o + |s|] == s && SameAround(b, r, o, o + |s|)
  {
  }

  /** What `put_dirent` writes. */
  function PutDirent(b: seq<byte>, o: nat, r: Rec): seq<byte>
    requires Encodable(r) && o + HEADER + |r.name| <= |b|
  {
    var name: nat := |r.name|;
    Write(b, o, Le32(r.ino) + Le16(r.len) + [name, r.ftype] + r.name)
  }

  /** The record's fields fit their encodings and the name fits the record. */
  predicate Encodable(r: Rec) {
    && r.ino < 0x1_0000_0000 && r.len < 0x1_0000 && |r.name| <= MAX_NAME
    && r.len % 4 == 0 && HEADER + |r.name| <= r.len
  }

  datatype Header = Header(ino: nat, len: nat, nameLen: nat, ftype: byte)

  /** `parse_dirent`. */
  function Parse(b: seq<byte>, o: nat): Result<Header> {
    if o + HEADER > |b| then Err(Corrupt)
    else
      var len, nameLen := Rd16(b, o + 4), b[o + 6];
      if len < HEADER || len % 4 != 0 || o + len > |b| || HEADER + nameLen > len then Err(Corrupt)
      else Ok(Header(Rd32(b, o), len, nameLen, b[o + 7]))
  }

  // ---- records on a block ------------------------------------------------------------------

  /** Record `r` stands at offset `o`. */
  ghost predicate RecAt(b: seq<byte>, o: nat, r: Rec) {
    && Encodable(r) && o + r.len <= |b|
    && Rd32(b, o) == r.ino && Rd16(b, o + 4) == r.len && b[o + 6] == |r.name| && b[o + 7] == r.ftype
    && b[o + HEADER..o + HEADER + |r.name|] == r.name
  }

  /** Parsing accepts exactly the offsets at which a record stands. */
  lemma ParseIffRec(b: seq<byte>, o: nat)
    ensures Parse(b, o).Ok? ==>
      var h := Parse(b, o).value;
      o + HEADER + h.nameLen <= |b| && RecAt(b, o, Rec(h.ino, h.len, b[o + HEADER..o + HEADER + h.nameLen], h.ftype))
    ensures forall r :: RecAt(b, o, r) ==> Parse(b, o) == Ok(Header(r.ino, r.len, |r.name|, r.ftype))
  {
  }

  lemma RecUnique(b: seq<byte>, o: nat, r: Rec, r': Rec)
    requires RecAt(b, o, r) && RecAt(b, o, r')
    ensures r == r'
  {
    assert r.name == r'.name;
  }

  lemma RecFrame(b: seq<byte>, b': seq<byte>, o: nat, r: Rec)
    requires RecAt(b, o, r) && |b| == |b'| && b[o..o + r.len] == b'[o..o + r.len]
    ensures RecAt(b', o, r)
  {
    var s := b[o..o + r.len];
    assert forall k :: o <= k < o + r.len ==> b[k] == s[k - o] == b'[k];
    assert b'[o + HEADER..o + HEADER + |r.name|] == r.name;
  }

  /** Writing a record puts it there and leaves the rest of the block. */
  lemma PutRec(b: seq<byte>, o: nat, r: Rec)
    requires Encodable(r) && o + r.len <= |b|
    ensures var b' := PutDirent(b, o, r);
            RecAt(b', o, r) && SameAround(b, b', o, o + r.len)
  {
    var name: nat := |r.name|;
    var s := Le32(r.ino) + Le16(r.len) + [name, r.ftype] + r.name;
    var b' := PutDirent(b, o, r);
    Written(b, o, s);
    hide PutDirent, Write;
    Slices(b', o, s, Le32(r.ino), Le16(r.len), [name, r.ftype], r.name);
    Le32Read(b', o, r.ino);
    Le16Read(b', o + 4, r.len);
  }

  lemma Slices(b: seq<byte>, o: nat, s: seq<byte>, s1: seq<byte>, s2: seq<byte>, s3: seq<byte>, s4: seq<byte>)
    requires |s1| == 4 && |s2| == 2 && |s3| == 2 && s == s1 + s2 + s3 + s4 && o + |s| <= |b| && b[o..o + |s|] == s
    ensures b[o..o + 4] == s1 && b[o + 4..o + 6] == s2 && b[o + 6] == s3[0] && b[o + 7] == s3[1]
    ensures b[o + 8..o + 8 + |s4|] == s4
  {
    SubSlice(b, o, |s|, 0, 4);
    SubSlice(b, o, |s|, 4, 6);
    SubSlice(b, o, |s|, 8, |s|);
    assert s[0..4] == s1;
    assert s[4..6] == s2;
    assert s[8..|s|] == s4;
    assert b[o..o + |s|][6] == s3[0] && b[o..o + |s|][7] == s3[1];
  }

  lemma SubSlice(b: seq<byte>, o: nat, n: nat, i: nat, j: nat)
    requires i <= j <= n && o + n <= |b|
    ensures b[o..o + n][i..j] == b[o + i..o + j]
  {
    var x, y := b[o..o + n][i..j], b[o + i..o + j];
    assert |x| == |y| && forall k :: 0 <= k < |x| ==> x[k] == y[k];
  }

  /** The records `rs` follow one another from `o` exactly to `to`. */
  ghost predicate Tiles(b: seq<byte>, o: nat, rs: seq<Rec>, to: nat)
    decreases |rs|
  {
    if rs == [] then o == to
    else RecAt(b, o, rs[0]) && Tiles(b, o + rs[0].len, rs[1..], to)
  }

  lemma {:induction false} TilesBound(b: seq<byte>, o: nat, rs: seq<Rec>, to: nat)
    requires Tiles(b, o, rs, to)
    ensures o <= to && (rs != [] ==> o < o + rs[0].len <= to <= |b|)
    decreases |rs|
  {
    hide RecAt;
    if rs != [] {
      assert rs[0].len >= 0 && RecAt(b, o, rs[0]);
      RecInside(b, o, rs[0]);
      TilesBound(b, o + rs[0].len, rs[1..], to);
    }
  }

  lemma RecInside(b: seq<byte>, o: nat, r: Rec)
    requires RecAt(b, o, r)
    ensures o + r.len <= |b| && r.len >= HEADER && Encodable(r)
  {
  }

  lemma {:induction false} TilesConcat(b: seq<byte>, o: nat, r1: seq<Rec>, m: nat, r2: seq<Rec>, to: nat)
    requires Tiles(b, o, r1, m) && Tiles(b, m, r2, to)
    ensures Tiles(b, o, r1 + r2, to)
    decreases |r1|
  {
    hide RecAt;
    if r1 == [] {
      assert r1 + r2 == r2;
    } else {
      TilesConcat(b, o + r1[0].len, r1[1..], m, r2, to);
      assert (r1 + r2)[1..] == r1[1..] + r2;
    }
  }

  lemma {:induction false} TilesFrame(b: seq<byte>, b': seq<byte>, o: nat, rs: seq<Rec>, to: nat)
    requires Tiles(b, o, rs, to) && |b| == |b'| && forall k :: o <= k < to && k < |b| ==> b[k] == b'[k]
    ensures Tiles(b', o, rs, to)
    decreases |rs|
  {
    hide RecAt;
    if rs != [] {
      TilesBound(b, o, rs, to);
      RecFrame(b, b', o, rs[0]);
      TilesFrame(b, b', o + rs[0].len, rs[1..], to);
    }
  }

  /** A partial tiling is a prefix of the full one. */
  lemma {:induction false} TilesPrefix(b: seq<byte>, o: nat, pre: seq<Rec>, m: nat, rs: seq<Rec>, to: nat)
    requires Tiles(b, o, pre, m) && Tiles(b, o, rs, to) && m <= to
    ensures |pre| <= |rs| && rs[..|pre|] == pre && Tiles(b, m, rs[|pre|..], to)
    decreases |pre|
  {
    hide RecAt;
    if pre != [] {
      RecInside(b, o, pre[0]);
      TilesBound(b, o, pre, m);
      assert rs != [];
      RecUnique(b, o, pre[0], rs[0]);
      TilesPrefix(b, o + pre[0].len, pre[1..], m, rs[1..], to);
      assert rs[|pre|..] == rs[1..][|pre[1..]|..];
      assert rs[..|pre|] == [rs[0]] + rs[1..][..|pre| - 1];
      assert pre == [pre[0]] + pre[1..];
    } else {
      assert rs[0..] == rs;
    }
  }
}
