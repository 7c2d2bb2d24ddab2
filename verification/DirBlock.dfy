/** Lookup, insertion and removal in one directory block. */
module DirBlock {
  import opened Common
  import opened Bits
  import opened FsErrors
  import opened DirRecords

  ghost predicate Tiled(b: seq<byte>) {
    exists rs :: Tiles(b, 0, rs, |b|)
  }

  /** The records of a tiled block. */
  ghost function Records(b: seq<byte>): (rs: seq<Rec>)
    requires Tiled(b)
    ensures Tiles(b, 0, rs, |b|)
  {
    var rs :| Tiles(b, 0, rs, |b|);
    rs
  }

  lemma RecordsAre(b: seq<byte>, rs: seq<Rec>)
    requires Tiles(b, 0, rs, |b|)
    ensures Tiled(b) && Records(b) == rs
  {
    hide Tiles;
    var qs := Records(b);
    TilesPrefix(b, 0, rs, |b|, qs, |b|);
    NothingLeft(b, |b|, qs[|rs|..]);
    assert qs == qs[..|rs|] + qs[|rs|..];
  }

  lemma NothingLeft(b: seq<byte>, o: nat, rs: seq<Rec>)
    requires Tiles(b, o, rs, o) 
    ensures rs == []
  {
    TilesBound(b, o, rs, o);
  }

  lemma RestFirst(b: seq<byte>, o: nat, rs: seq<Rec>, to: nat)
    requires Tiles(b, o, rs, to) && o < to
    ensures rs != [] && RecAt(b, o, rs[0])
  {
  }

  /** A directory entry, as seen from outside. */
  datatype Item = Item(name: seq<byte>, ino: nat, ftype: byte)

  ghost function ItemOf(r: Rec): multiset<Item> {
    if r.ino == 0 then multiset{} else multiset{Item(r.name, r.ino, r.ftype)}
  }

  /** The entries of a list of records. */
  ghost function Items(rs: seq<Rec>): multiset<Item> {
    if rs == [] then multiset{} else ItemOf(rs[0]) + Items(rs[1..])
  }

  lemma {:induction false} ItemsConcat(r1: seq<Rec>, r2: seq<Rec>)
    ensures Items(r1 + r2) == Items(r1) + Items(r2)
  {
    hide ItemOf;
    if r1 == [] {
      assert r1 + r2 == r2;
    } else {
      ItemsConcat(r1[1..], r2);
      assert (r1 + r2)[1..] == r1[1..] + r2;
      assert ItemOf(r1[0]) + (Items(r1[1..]) + Items(r2)) == (ItemOf(r1[0]) + Items(r1[1..])) + Items(r2);
    }
  }

  lemma ItemsOne(r: Rec)
    ensures Items([r]) == ItemOf(r)
  {
    assert [r][1..] == [];
  }

  /** The entries of a block; none if it is not tiled. */
  ghost function BlockItems(b: seq<byte>): multiset<Item> {
    if Tiled(b) then Items(Records(b)) else multiset{}
  }

  ghost predicate Absent(items: multiset<Item>, name: seq<byte>) {
    forall it <- items :: it.name != name
  }

  predicate Matches(b: seq<byte>, o: nat, h: Header, name: seq<byte>)
    requires o + HEADER + h.nameLen <= |b|
  {
    h.ino != 0 && h.nameLen == |name| && b[o + HEADER..o + HEADER + h.nameLen] == name
  }

  /** The inode of the first entry called `name` from offset `off` on, in any bytes. */
  function Scan(b: seq<byte>, off: nat, name: seq<byte>): Result<Option<nat>>
    decreases |b| - off
  {
    if off >= |b| then Ok(None)
    else
      var e := Parse(b, off);
      if e.Err? then Err(Corrupt)
      else if Matches(b, off, e.value, name) then Ok(Some(e.value.ino))
      else Scan(b, off + e.value.len, name)
  }

  /** Whether a record from offset `off` on has `need` bytes to spare, in any bytes. */
  function Gap(b: seq<byte>, off: nat, need: nat): Result<bool>
    decreases |b| - off
  {
    if off >= |b| then Ok(false)
    else
      var e := Parse(b, off);
      if e.Err? then Err(Corrupt)
      else if e.value.len - Taken(e.value) >= need then Ok(true)
      else Gap(b, off + e.value.len, need)
  }

  /** The bytes of a record that its entry takes. */
  function Taken(h: Header): nat {
    if h.ino == 0 then 0 else Align4(HEADER + h.nameLen)
  }

  lemma ScanOne(b: seq<byte>, off: nat, name: seq<byte>)
    requires off < |b|
    ensures Parse(b, off).Err? ==> Scan(b, off, name) == Err(Corrupt)
    ensures Parse(b, off).Ok? ==>
      var h := Parse(b, off).value;
      && off + HEADER + h.nameLen <= |b|
      && Scan(b, off, name) == if Matches(b, off, h, name) then Ok(Some(h.ino)) else Scan(b, off + h.len, name)
  {
  }

  lemma GapOne(b: seq<byte>, off: nat, need: nat)
    requires off < |b|
    ensures Parse(b, off).Err? ==> Gap(b, off, need) == Err(Corrupt)
    ensures Parse(b, off).Ok? ==>
      var h := Parse(b, off).value;
      Gap(b, off, need) == if h.len - Taken(h) >= need then Ok(true) else Gap(b, off + h.len, need)
  {
  }

  lemma ScanEnd(b: seq<byte>, off: nat, name: seq<byte>, need: nat)
    requires off >= |b|
    ensures Scan(b, off, name) == Ok(None) && Gap(b, off, need) == Ok(false)
  {
  }

  // ---- the scan ---------------------------------------------------------------------------

  /** The scan has reached offset `o` through the records `pre`. */
  ghost predicate Scanned(b: seq<byte>, pre: seq<Rec>, o: nat) {
    o <= |b| && Tiles(b, 0, pre, o)
  }

  lemma ScanStart(b: seq<byte>)
    ensures Scanned(b, [], 0)
  {
  }

  /** One parsed record extends the scan. */
  lemma ScanStep(b: seq<byte>, pre: seq<Rec>, o: nat) returns (r: Rec)
    requires Scanned(b, pre, o) && o < |b| && Parse(b, o).Ok?
    ensures var h := Parse(b, o).value;
            && o + HEADER + h.nameLen <= |b|
            && r == Rec(h.ino, h.len, b[o + HEADER..o + HEADER + h.nameLen], h.ftype)
    ensures RecAt(b, o, r) && Scanned(b, pre + [r], o + r.len) && r.len > 0
    ensures Items(pre + [r]) == Items(pre) + ItemOf(r)
  {
    hide RecAt, Parse;
    ParseIffRec(b, o);
    var h := Parse(b, o).value;
    r := Rec(h.ino, h.len, b[o + HEADER..o + HEADER + h.nameLen], h.ftype);
    RecInside(b, o, r);
    assert Tiles(b, o, [r], o + r.len) by { assert [r][1..] == []; }
    TilesConcat(b, 0, pre, o, [r], o + r.len);
    ItemsConcat(pre, [r]);
    ItemsOne(r);
  }

  /** A scan that stops at a malformed record shows that the block is not tiled. */
  lemma ScanFails(b: seq<byte>, pre: seq<Rec>, o: nat)
    requires Scanned(b, pre, o) && o < |b| && Parse(b, o).Err?
    ensures !Tiled(b)
  {
    hide RecAt, Parse;
    ParseIffRec(b, o);
    if Tiled(b) { RecordFollows(b, pre, o); }
  }

  lemma RecordFollows(b: seq<byte>, pre: seq<Rec>, o: nat)
    requires Scanned(b, pre, o) && o < |b| && Tiled(b)
    ensures exists r :: RecAt(b, o, r)
  {
    hide RecAt;
    var rs := Records(b);
    TilesPrefix(b, 0, pre, o, rs, |b|);
    RestFirst(b, o, rs[|pre|..], |b|);
  }

  /** The rest of a tiled block, after the scan. */
  lemma ScanRest(b: seq<byte>, pre: seq<Rec>, o: nat, r: Rec) returns (post: seq<Rec>)
    requires Scanned(b, pre, o) && RecAt(b, o, r)
    ensures Tiled(b) ==> Records(b) == pre + [r] + post && Tiles(b, o + r.len, post, |b|)
  {
    hide RecAt;
    post := [];
    if Tiled(b) {
      var rs := Records(b);
      RecInside(b, o, r);
      TilesPrefix(b, 0, pre, o, rs, |b|);
      var rest := rs[|pre|..];
      RestFirst(b, o, rest, |b|);
      RecUnique(b, o, r, rest[0]);
      post := rest[1..];
      assert rs == rs[..|pre|] + rest;
      assert rest == [r] + post;
    }
  }

  lemma ScanAll(b: seq<byte>, pre: seq<Rec>)
    requires Scanned(b, pre, |b|)
    ensures Tiled(b) && Records(b) == pre
  {
    RecordsAre(b, pre);
  }

  /** Replacing one record by others that tile the same bytes. */
  lemma Splice(b: seq<byte>, b': seq<byte>, pre: seq<Rec>, o: nat, post: seq<Rec>, to: nat, mid: seq<Rec>)
    requires Tiles(b, 0, pre, o) && Tiles(b, to, post, |b|) && o <= to <= |b|
    requires Tiles(b', o, mid, to) && SameAround(b, b', o, to)
    ensures Tiles(b', 0, pre + mid + post, |b'|)
  {
    hide RecAt;
    TilesFrame(b, b', 0, pre, o);
    TilesFrame(b, b', to, post, |b|);
    TilesConcat(b', 0, pre, o, mid, to);
    TilesConcat(b', 0, pre + mid, to, post, |b|);
  }

  /** On a tiled block the search agrees with the entries. */
  lemma ScanTiled(b: seq<byte>, name: seq<byte>)
    requires Tiled(b)
    ensures Scan(b, 0, name).Ok?
    ensures Scan(b, 0, name).value.None? ==> Absent(BlockItems(b), name)
    ensures Scan(b, 0, name).value.Some? ==> exists ft :: Item(name, Scan(b, 0, name).value.value, ft) in BlockItems(b)
  {
    hide Tiles, RecAt, Parse, Tiled, Items, Scan;
    ScanStart(b);
    EmptyItems();
    ScanFrom(b, [], 0, name);
  }

  lemma {:induction false} ScanFrom(b: seq<byte>, pre: seq<Rec>, o: nat, name: seq<byte>)
    requires Tiled(b) && Scanned(b, pre, o) && Absent(Items(pre), name)
    ensures Scan(b, o, name).Ok?
    ensures Scan(b, o, name).value.None? ==> Absent(BlockItems(b), name)
    ensures Scan(b, o, name).value.Some? ==> exists ft :: Item(name, Scan(b, o, name).value.value, ft) in BlockItems(b)
    decreases |b| - o
  {
    hide Tiles, RecAt, Parse, Tiled, Items, Scan;
    if o < |b| {
      ScanOne(b, o, name);
      ParsesOn(b, pre, o);
      var h := Parse(b, o).value;
      var rec := ScanStep(b, pre, o);
      if Matches(b, o, h, name) {
        FoundItem(b, pre, o, rec);
      } else {
        ScanFrom(b, pre + [rec], o + h.len, name);
      }
    } else {
      ScanEnd(b, o, name, 0);
      ScanAll(b, pre);
    }
  }

  lemma ParsesOn(b: seq<byte>, pre: seq<Rec>, o: nat)
    requires Tiled(b) && Scanned(b, pre, o) && o < |b|
    ensures Parse(b, o).Ok?
  {
    hide Tiles, RecAt, Parse, Tiled;
    ParseIffRec(b, o);
    RecordFollows(b, pre, o);
  }

  /** And so does the search for room. */
  lemma GapTiled(b: seq<byte>, name: seq<byte>)
    requires Tiled(b)
    ensures Gap(b, 0, Need(name)) == Ok(HasRoom(Records(b), name))
  {
    hide Tiles, RecAt, Parse, Tiled, Gap, Need;
    ScanStart(b);
    GapFrom(b, [], 0, name);
  }

  lemma {:induction false} GapFrom(b: seq<byte>, pre: seq<Rec>, o: nat, name: seq<byte>)
    requires Tiled(b) && Scanned(b, pre, o) && !HasRoom(pre, name)
    ensures Gap(b, o, Need(name)) == Ok(HasRoom(Records(b), name))
    decreases |b| - o
  {
    hide Tiles, RecAt, Parse, Tiled, Gap, Items;
    if o < |b| {
      GapOne(b, o, Need(name));
      ParsesOn(b, pre, o);
      var h := Parse(b, o).value;
      var rec := ScanStep(b, pre, o);
      if h.len - Taken(h) >= Need(name) {
        var post := ScanRest(b, pre, o, rec);
        assert rec in Records(b);
      } else {
        assert forall x <- pre + [rec] :: x in pre || x == rec;
        GapFrom(b, pre + [rec], o + h.len, name);
      }
    } else {
      ScanEnd(b, o, name, Need(name));
      ScanAll(b, pre);
    }
  }

  // ---- the two records every directory starts with --------------------------------------------

  const DOT: seq<byte> := [46]
  const DOTDOT: seq<byte> := [46, 46]

  /** The block starts with a used "." record without slack, then a used ".." record. */
  ghost predicate Dotted(rs: seq<Rec>) {
    && |rs| >= 2
    && rs[0].name == DOT && rs[0].ino != 0 && rs[0].len == Need(DOT)
    && rs[1].name == DOTDOT && rs[1].ino != 0
  }

  /** Blocks that start a directory still do. */
  ghost predicate DotsKept(b: seq<byte>, b': seq<byte>) {
    Tiled(b) && Tiled(b') && Dotted(Records(b)) ==> Dotted(Records(b'))
  }

  /** Where a record may be replaced: after ".", and the replacement of ".." starts with it. */
  ghost predicate SparesDots(pre: seq<Rec>, r: Rec, mid: seq<Rec>) {
    |pre| >= 1 && mid != [] && (|pre| == 1 ==> mid[0].ino == r.ino && mid[0].name == r.name)
  }

  lemma DottedSplice(pre: seq<Rec>, r: Rec, post: seq<Rec>, mid: seq<Rec>)
    requires Dotted(pre + [r] + post) && SparesDots(pre, r, mid)
    ensures Dotted(pre + mid + post)
  {
    var rs, rs' := pre + [r] + post, pre + mid + post;
    assert rs[0] == rs'[0] == pre[0];
    if |pre| == 1 {
      assert rs[1] == r && rs'[1] == mid[0];
    } else {
      assert rs[1] == rs'[1] == pre[1];
    }
  }

  /** A record that an insertion picks leaves the dots in place. */
  lemma InsertSparesDots(pre: seq<Rec>, r: Rec, post: seq<Rec>, name: seq<byte>, mid: seq<Rec>)
    requires Slack(r) >= Need(name) && mid != [] && (r.ino != 0 ==> mid[0].ino == r.ino && mid[0].name == r.name)
    ensures Dotted(pre + [r] + post) ==> SparesDots(pre, r, mid)
  {
    var rs := pre + [r] + post;
    assert rs[|pre|] == r;
  }

  // ---- find ----------------------------------------------------------------------------------

  /** The answer of a search without the rest of the entry. */
  function InoOf(r: Result<Option<Item>>): Result<Option<nat>> {
    if r.Err? then Err(r.error) else Ok(if r.value.Some? then Some(r.value.value.ino) else None)
  }

  method FindInBlock(b: seq<byte>, name: seq<byte>) returns (r: Result<Option<Item>>)
    ensures InoOf(r) == Scan(b, 0, name)
    ensures r.Err? ==> r == Err(Corrupt) && !Tiled(b)
    ensures r == Ok(None) ==> Tiled(b) && Absent(BlockItems(b), name)
    ensures r.Ok? && r.value.Some? ==> r.value.value.name == name && (Tiled(b) ==> r.value.value in BlockItems(b))
  {
    hide Tiles, RecAt, Parse, Tiled, Items, Scan;
    var off: nat := 0;
    ghost var pre: seq<Rec> := [];
    ScanStart(b);
    EmptyItems();
    while off < |b|
      invariant Scanned(b, pre, off) && Absent(Items(pre), name) && Scan(b, off, name) == Scan(b, 0, name)
      decreases |b| - off
    {
      var e := Parse(b, off);
      ScanOne(b, off, name);
      if e.Err? {
        ScanFails(b, pre, off);
        return Err(Corrupt);
      }
      ghost var rec := ScanStep(b, pre, off);
      if Matches(b, off, e.value, name) {
        var it := Item(name, e.value.ino, e.value.ftype);
        FoundItem(b, pre, off, rec);
        return Ok(Some(it));
      }
      pre := pre + [rec];
      off := off + e.value.len;
    }
    ScanEnd(b, off, name, 0);
    ScanAll(b, pre);
    return Ok(None);
  }

  lemma EmptyItems()
    ensures Items([]) == multiset{}
  {
  }

  lemma FoundItem(b: seq<byte>, pre: seq<Rec>, o: nat, r: Rec)
    requires Scanned(b, pre, o) && RecAt(b, o, r) && r.ino != 0
    ensures Tiled(b) ==> Item(r.name, r.ino, r.ftype) in BlockItems(b)
  {
    hide Tiles, RecAt, Items;
    var post := ScanRest(b, pre, o, r);
    ItemsConcat(pre, [r]);
    ItemsConcat(pre + [r], post);
    ItemsOne(r);
  }

  // ---- add -----------------------------------------------------------------------------------

  /** Bytes of a record that a new record could take. */
  function Slack(r: Rec): int { r.len - Used(r) }

  ghost predicate HasRoom(rs: seq<Rec>, name: seq<byte>) {
    exists r <- rs :: Slack(r) >= Need(name)
  }

  /** An aligned record is at least as long as its name needs. */
  lemma RecHoldsName(r: Rec)
    requires Encodable(r)
    ensures Need(r.name) <= r.len && 0 <= Slack(r) && Need(r.name) % 4 == 0 && HEADER + |r.name| <= Need(r.name)
  {
  }

  lemma Swap(p: multiset<Item>, r: multiset<Item>, m: multiset<Item>, q: multiset<Item>)
    ensures (p + m + q) + r == (p + r + q) + m
  {
  }

  lemma Cancel(a: multiset<Item>, b: multiset<Item>, r: multiset<Item>, n: multiset<Item>)
    requires a + r == b + (r + n)
    ensures a == b + n
  {
    forall x ensures a[x] == (b + n)[x] { assert (a + r)[x] == (b + (r + n))[x]; }
  }

  /** Rewriting only the length field of a record. */
  lemma SetLen(b: seq<byte>, o: nat, r: Rec, len: nat)
    requires RecAt(b, o, r) && Encodable(r.(len := len)) && o + len <= |b|
    ensures var b' := Write(b, o + 4, Le16(len));
            RecAt(b', o, r.(len := len)) && SameAround(b, b', o + 4, o + 6)
  {
    var b' := Write(b, o + 4, Le16(len));
    Written(b, o + 4, Le16(len));
    Le16Read(b', o + 4, len);
    assert b'[o + HEADER..o + HEADER + |r.name|] == b[o + HEADER..o + HEADER + |r.name|];
  }

  /** Marking a record unused. */
  lemma SetIno(b: seq<byte>, o: nat, r: Rec)
    requires RecAt(b, o, r)
    ensures var b' := Write(b, o, Le32(0));
            RecAt(b', o, r.(ino := 0)) && SameAround(b, b', o, o + 4)
  {
    var b' := Write(b, o, Le32(0));
    Written(b, o, Le32(0));
    Le32Read(b', o, 0);
    assert b'[o + HEADER..o + HEADER + |r.name|] == b[o + HEADER..o + HEADER + |r.name|];
  }

  lemma TilesOne(b: seq<byte>, o: nat, r: Rec)
    requires RecAt(b, o, r)
    ensures Tiles(b, o, [r], o + r.len)
  {
    hide RecAt;
    assert [r][1..] == [];
  }

  /** Putting a record into the slack of a used one: `b1` has the shortened record, `b'` both. */
  lemma SplitRec(b: seq<byte>, o: nat, r: Rec, n: Rec, b1: seq<byte>, b': seq<byte>, r1: Rec)
    requires r1 == r.(len := Need(r.name)) && n.len == r.len - r1.len
    requires RecAt(b1, o, r1) && SameAround(b, b1, o + 4, o + 6) && HEADER <= r1.len <= r.len
    requires RecAt(b', o + r1.len, n) && SameAround(b1, b', o + r1.len, o + r1.len + n.len)
    ensures Tiles(b', o, [r1, n], o + r.len) && SameAround(b, b', o, o + r.len)
  {
    hide RecAt, Need, Tiles, Encodable, SameAround;
    SameAroundTrans(b, b1, b', o + 4, o + 6, o + r1.len, o + r1.len + n.len, o, o + r.len);
    TwoRecs(b1, b', o, r1, n, o + r1.len, o + r.len);
  }

  lemma SplitFacts(b: seq<byte>, o: nat, r: Rec, n: Rec)
    requires RecAt(b, o, r) && r.ino != 0 && Encodable(n) && n.len == Slack(r) && |b| < 0x1_0000
    ensures o + 4 + 2 <= |b| && o + r.len <= |b| && Need(r.name) < 0x1_0000
    ensures Need(r.name) + n.len == r.len && Encodable(r.(len := Need(r.name))) && HEADER <= Need(r.name)
    ensures HEADER + |n.name| <= n.len
  {
    hide Align4;
    RecHoldsName(r);
    RecInside(b, o, r);
  }

  lemma TwoRecs(b1: seq<byte>, b': seq<byte>, o: nat, r1: Rec, n: Rec, m: nat, to: nat)
    requires m == o + r1.len && to == m + n.len && RecAt(b1, o, r1) && RecAt(b', m, n) && SameAround(b1, b', m, m + n.len)
    ensures Tiles(b', o, [r1, n], to)
  {
    hide RecAt, Encodable;
    RecInside(b1, o, r1);
    assert b'[o..o + r1.len] == b1[o..o + r1.len];
    RecFrame(b1, b', o, r1);
    TilesOne(b', o, r1);
    TilesOne(b', o + r1.len, n);
    TilesConcat(b', o, [r1], o + r1.len, [n], o + r1.len + n.len);
    assert [r1] + [n] == [r1, n];
  }

  lemma ReplacedItems(pre: seq<Rec>, r: Rec, mid: seq<Rec>, post: seq<Rec>)
    ensures Items(pre + mid + post) + ItemOf(r) == Items(pre + [r] + post) + Items(mid)
  {
    hide Items, ItemOf;
    ItemsConcat(pre, [r]);
    ItemsConcat(pre + [r], post);
    ItemsConcat(pre, mid);
    ItemsConcat(pre + mid, post);
    ItemsOne(r);
    Swap(Items(pre), ItemOf(r), Items(mid), Items(post));
  }

  lemma ReplacedRecords(b: seq<byte>, b': seq<byte>, pre: seq<Rec>, o: nat, r: Rec, mid: seq<Rec>) returns (post: seq<Rec>)
    requires Scanned(b, pre, o) && RecAt(b, o, r) && Tiles(b', o, mid, o + r.len) && SameAround(b, b', o, o + r.len)
    ensures Tiled(b) ==> Tiled(b') && Records(b) == pre + [r] + post && Records(b') == pre + mid + post
  {
    hide RecAt, Tiles;
    RecInside(b, o, r);
    post := ScanRest(b, pre, o, r);
    if Tiled(b) {
      Splice(b, b', pre, o, post, o + r.len, mid);
      RecordsAre(b', pre + mid + post);
    }
  }

  /** What replacing record `r` by `mid` does to a tiled block. */
  lemma Replaced(b: seq<byte>, b': seq<byte>, pre: seq<Rec>, o: nat, r: Rec, mid: seq<Rec>)
    requires Scanned(b, pre, o) && RecAt(b, o, r) && Tiles(b', o, mid, o + r.len) && SameAround(b, b', o, o + r.len)
    ensures Tiled(b) ==> Tiled(b') && BlockItems(b') + ItemOf(r) == BlockItems(b) + Items(mid)
    ensures Tiled(b) ==> forall x <- mid :: x in Records(b')
    ensures Tiled(b) && (Dotted(Records(b)) ==> SparesDots(pre, r, mid)) ==> DotsKept(b, b')
  {
    hide RecAt, Tiles, Items, ItemOf, Dotted, SparesDots, SameAround, Scanned, Tiled;
    var post := ReplacedRecords(b, b', pre, o, r, mid);
    ReplacedItems(pre, r, mid, post);
    if Tiled(b) && Dotted(Records(b)) && SparesDots(pre, r, mid) { DottedSplice(pre, r, post, mid); }
  }

  /** The two ways a record with enough slack takes a new entry. */
  method InsertAt(b: seq<byte>, off: nat, h: Header, name: seq<byte>, child: nat, ft: byte, ghost pre: seq<Rec>, ghost rec: Rec)
    returns (b': seq<byte>)
    requires |name| <= MAX_NAME && 0 < child < 0x1_0000_0000 && |b| < 0x1_0000
    requires Scanned(b, pre, off) && RecAt(b, off, rec) && Slack(rec) >= Need(name)
    requires h == Header(rec.ino, rec.len, |rec.name|, rec.ftype)
    ensures |b'| == |b|
    ensures Tiled(b) ==>
      && Tiled(b') && HasRoom(Records(b), name)
      && BlockItems(b') == BlockItems(b) + multiset{Item(name, child, ft)} && DotsKept(b, b')
  {
    RecInside(b, off, rec);
    RecHoldsName(rec);
    ghost var post := ScanRest(b, pre, off, rec);
    assert Tiled(b) ==> rec in Records(b);
    if h.ino == 0 {
      b' := InsertFree(b, off, Rec(child, h.len, name, ft), pre, rec);
    } else {
      var used := Align4(HEADER + h.nameLen);
      b' := InsertSlack(b, off, used, Rec(child, h.len - used, name, ft), pre, rec);
    }
  }

  /** The new record takes over an unused one. */
  method InsertFree(b: seq<byte>, off: nat, n: Rec, ghost pre: seq<Rec>, ghost rec: Rec) returns (b': seq<byte>)
    requires |n.name| <= MAX_NAME && 0 < n.ino < 0x1_0000_0000
    requires Scanned(b, pre, off) && RecAt(b, off, rec) && rec.ino == 0 && n.len == rec.len >= Need(n.name)
    ensures |b'| == |b| && (Tiled(b) ==> Tiled(b') && BlockItems(b') == BlockItems(b) + ItemOf(n) && DotsKept(b, b'))
  {
    hide Tiles, RecAt, Tiled, Items, PutDirent, BlockItems, Encodable, Need, SameAround, Dotted, SparesDots, DotsKept;
    RecInside(b, off, rec);
    NewRec(n, rec);
    PutRec(b, off, n);
    b' := PutDirent(b, off, n);
    SameLength(b, b', off, off + n.len);
    TilesOne(b', off, n);
    ghost var post := ScanRest(b, pre, off, rec);
    InsertSparesDots(pre, rec, post, n.name, [n]);
    Replaced(b, b', pre, off, rec, [n]);
    ItemsOne(n);
    if Tiled(b) { Cancel(BlockItems(b'), BlockItems(b), ItemOf(rec), ItemOf(n)); }
  }

  /** The new record takes the slack of a used one. */
  method InsertSlack(b: seq<byte>, off: nat, used: nat, n: Rec, ghost pre: seq<Rec>, ghost rec: Rec) returns (b': seq<byte>)
    requires |n.name| <= MAX_NAME && 0 < n.ino < 0x1_0000_0000 && |b| < 0x1_0000
    requires Scanned(b, pre, off) && RecAt(b, off, rec) && rec.ino != 0 && used == Need(rec.name)
    requires n.len == Slack(rec) >= Need(n.name)
    ensures |b'| == |b| && (Tiled(b) ==> Tiled(b') && BlockItems(b') == BlockItems(b) + ItemOf(n) && DotsKept(b, b'))
  {
    hide Tiles, RecAt, Tiled, Items, ItemOf, PutDirent, BlockItems, Need, Align4, SameAround, Scanned, Write, Le16, Slack, Dotted, SparesDots, DotsKept;
    SlackFacts(b, off, rec, n);
    SetLen(b, off, rec, used);
    var b1 := Write(b, off + 4, Le16(used));
    PutRec(b1, off + used, n);
    b' := PutDirent(b1, off + used, n);
    SplitRec(b, off, rec, n, b1, b', rec.(len := used));
    SlackTaken(b, b', pre, off, rec, n, used);
  }

  /** What the two records that share an old one satisfy. */
  lemma SlackFacts(b: seq<byte>, o: nat, r: Rec, n: Rec)
    requires RecAt(b, o, r) && r.ino != 0 && n.len == Slack(r) >= Need(n.name) && |n.name| <= MAX_NAME && n.ino < 0x1_0000_0000 && |b| < 0x1_0000
    ensures Encodable(n) && n.len > 0
    ensures o + 4 + 2 <= |b| && o + r.len <= |b| && Need(r.name) < 0x1_0000
    ensures Need(r.name) + n.len == r.len && Encodable(r.(len := Need(r.name))) && HEADER <= Need(r.name)
    ensures HEADER + |n.name| <= n.len
  {
    RecInside(b, o, r);
    NewRec(n, r);
    SplitFacts(b, o, r, n);
  }

  lemma SlackTaken(b: seq<byte>, b': seq<byte>, pre: seq<Rec>, off: nat, rec: Rec, n: Rec, used: nat)
    requires Scanned(b, pre, off) && RecAt(b, off, rec) && rec.ino != 0 && Slack(rec) >= Need(n.name)
    requires Tiles(b', off, [rec.(len := used), n], off + rec.len) && SameAround(b, b', off, off + rec.len)
    ensures |b'| == |b| && (Tiled(b) ==> Tiled(b') && BlockItems(b') == BlockItems(b) + ItemOf(n) && DotsKept(b, b'))
  {
    hide Tiles, RecAt, Tiled, Items, BlockItems, Need, SameAround, Scanned, Slack, Dotted, SparesDots, DotsKept;
    var r1 := rec.(len := used);
    SameLength(b, b', off, off + rec.len);
    var post := ScanRest(b, pre, off, rec);
    InsertSparesDots(pre, rec, post, n.name, [r1, n]);
    Replaced(b, b', pre, off, rec, [r1, n]);
    ItemsPair(r1, n);
    assert ItemOf(r1) == ItemOf(rec);
    if Tiled(b) { Cancel(BlockItems(b'), BlockItems(b), ItemOf(rec), ItemOf(n)); }
  }

  lemma SameLength(b: seq<byte>, b': seq<byte>, lo: nat, hi: nat)
    requires SameAround(b, b', lo, hi)
    ensures |b'| == |b|
  {
  }

  lemma NewRec(n: Rec, rec: Rec)
    requires Encodable(rec) && n.len == Slack(rec) >= Need(n.name) && |n.name| <= MAX_NAME && n.ino < 0x1_0000_0000
    ensures Encodable(n) && n.len > 0
  {
  }

  /** Inserts an entry into the first record with enough slack. */
  method AddInBlock(b: seq<byte>, name: seq<byte>, child: nat, ft: byte) returns (r: Result<Option<seq<byte>>>)
    requires |name| <= MAX_NAME && 0 < child < 0x1_0000_0000 && |b| < 0x1_0000
    ensures Gap(b, 0, Need(name)) == if r.Err? then Err(r.error) else Ok(r.value.Some?)
    ensures r.Err? ==> r == Err(Corrupt) && !Tiled(b)
    ensures r == Ok(None) ==> Tiled(b) && !HasRoom(Records(b), name)
    ensures r.Ok? && r.value.Some? ==> |r.value.value| == |b|
    ensures r.Ok? && r.value.Some? && Tiled(b) ==>
      var b' := r.value.value;
      && Tiled(b') && HasRoom(Records(b), name)
      && BlockItems(b') == BlockItems(b) + multiset{Item(name, child, ft)} && DotsKept(b, b')
  {
    hide Tiles, RecAt, Parse, Tiled, Items, PutDirent, Write, Le16, DotsKept, Gap;
    var need := Need(name);
    var off: nat := 0;
    ghost var pre: seq<Rec> := [];
    ScanStart(b);
    while off < |b|
      invariant Scanned(b, pre, off) && !HasRoom(pre, name) && Gap(b, off, need) == Gap(b, 0, need)
      decreases |b| - off
    {
      var e := Parse(b, off);
      GapOne(b, off, need);
      if e.Err? {
        ScanFails(b, pre, off);
        return Err(Corrupt);
      }
      var h := e.value;
      ghost var rec := ScanStep(b, pre, off);
      RecInside(b, off, rec);
      RecHoldsName(rec);
      var used := if h.ino == 0 then 0 else Align4(HEADER + h.nameLen);
      if h.len - used >= need {
        var b' := InsertAt(b, off, h, name, child, ft, pre, rec);
        return Ok(Some(b'));
      }
      assert forall x <- pre + [rec] :: x in pre || x == rec;
      pre := pre + [rec];
      off := off + h.len;
    }
    ScanEnd(b, off, name, need);
    ScanAll(b, pre);
    return Ok(None);
  }

  lemma ItemsPair(r: Rec, n: Rec)
    ensures Items([r, n]) == ItemOf(r) + ItemOf(n)
  {
    ItemsConcat([r], [n]);
    ItemsOne(r);
    ItemsOne(n);
    assert [r] + [n] == [r, n];
  }

  // ---- remove ----------------------------------------------------------------------------------

  /** Absorbing a record into the one before it. */
  lemma MergeRecs(b: seq<byte>, p: nat, rp: Rec, o: nat, r: Rec)
    requires RecAt(b, p, rp) && RecAt(b, o, r) && p + rp.len == o && |b| < 0x1_0000
    ensures rp.len + r.len < 0x1_0000
    ensures var b' := Write(b, p + 4, Le16(rp.len + r.len));
            Tiles(b', p, [rp.(len := rp.len + r.len)], o + r.len) && SameAround(b, b', p, o + r.len)
  {
    RecInside(b, p, rp);
    RecInside(b, o, r);
    var len := rp.len + r.len;
    assert Encodable(rp.(len := len));
    hide RecAt, Write, Encodable, Le16;
    SetLen(b, p, rp, len);
    var b' := Write(b, p + 4, Le16(len));
    SameAroundTrans(b, b', b', p + 4, p + 6, p, p, p, o + r.len);
    TilesOne(b', p, rp.(len := len));
  }

  /** The scan passed `rp` at `p` just before `o`. */
  ghost predicate Last(b: seq<byte>, pre: seq<Rec>, p: nat, o: nat) {
    pre != [] && Scanned(b, pre[..|pre| - 1], p) && RecAt(b, p, pre[|pre| - 1]) && p + pre[|pre| - 1].len == o
  }

  /** Removes the entry called `name`: its record is absorbed by the one before it or, at the
      start of the block, marked unused. Either way the block has room for the name again. */
  method RemoveInBlock(b: seq<byte>, name: seq<byte>) returns (r: Result<Option<(seq<byte>, nat)>>)
    requires |b| < 0x1_0000
    ensures Scan(b, 0, name) == if r.Err? then Err(r.error) else Ok(if r.value.Some? then Some(r.value.value.1) else None)
    ensures r.Err? ==> r == Err(Corrupt) && !Tiled(b)
    ensures r == Ok(None) ==> Tiled(b) && Absent(BlockItems(b), name)
    ensures r.Ok? && r.value.Some? ==> |r.value.value.0| == |b|
    ensures r.Ok? && r.value.Some? && Tiled(b) ==>
      var (b', ino) := r.value.value;
      && Tiled(b') && HasRoom(Records(b'), name)
      && (name != DOT && name != DOTDOT ==> DotsKept(b, b'))
      && exists ft :: BlockItems(b') + multiset{Item(name, ino, ft)} == BlockItems(b)
  {
    hide Tiles, RecAt, Parse, Tiled, Items, Write, Le16, Le32, Rd16, DotsKept, Scan;
    var off: nat := 0;
    var prev: Option<nat> := None;
    ghost var pre: seq<Rec> := [];
    ScanStart(b);
    EmptyItems();
    while off < |b|
      invariant Scanned(b, pre, off) && Absent(Items(pre), name) && Scan(b, off, name) == Scan(b, 0, name)
      invariant if prev.Some? then Last(b, pre, prev.value, off) else pre == []
      decreases |b| - off
    {
      var e := Parse(b, off);
      ScanOne(b, off, name);
      if e.Err? {
        ScanFails(b, pre, off);
        return Err(Corrupt);
      }
      var h := e.value;
      ghost var rec := ScanStep(b, pre, off);
      RecInside(b, off, rec);
      if Matches(b, off, h, name) {
        if prev.Some? {
          var p := prev.value;
          ghost var rp := pre[|pre| - 1];
          MergeRecs(b, p, rp, off, rec);
          LenAt(b, p, rp);
          var b' := Write(b, p + 4, Le16(Rd16(b, p + 4) + h.len));
          Absorbed(b, b', pre, p, rp, off, rec);
          return Ok(Some((b', h.ino)));
        } else {
          SetIno(b, off, rec);
          var b' := Write(b, off, Le32(0));
          Emptied(b, b', pre, off, rec);
          return Ok(Some((b', h.ino)));
        }
      }
      prev := Some(off);
      pre := pre + [rec];
      assert pre[..|pre| - 1] + [rec] == pre;
      off := off + h.len;
    }
    ScanEnd(b, off, name, 0);
    ScanAll(b, pre);
    return Ok(None);
  }

  lemma LenAt(b: seq<byte>, o: nat, r: Rec)
    requires RecAt(b, o, r)
    ensures o + 6 <= |b| && Rd16(b, o + 4) == r.len
  {
  }

  lemma Emptied(b: seq<byte>, b': seq<byte>, pre: seq<Rec>, o: nat, r: Rec)
    requires Scanned(b, pre, o) && RecAt(b, o, r) && r.ino != 0 && pre == [] && RecAt(b', o, r.(ino := 0)) && SameAround(b, b', o, o + 4)
    ensures Tiled(b) ==>
      && Tiled(b') && HasRoom(Records(b'), r.name)
      && BlockItems(b') + multiset{Item(r.name, r.ino, r.ftype)} == BlockItems(b)
      && (r.name != DOT && r.name != DOTDOT ==> DotsKept(b, b'))
  {
    hide RecAt, Tiles, Items;
    RecInside(b, o, r);
    RecHoldsName(r);
    var q := r.(ino := 0);
    TilesOne(b', o, q);
    var post := ScanRest(b, pre, o, r);
    assert (pre + [r] + post)[0] == r;
    Replaced(b, b', pre, o, r, [q]);
    ItemsOne(q);
    assert q in [q];
  }

  lemma AbsorbedItems(front: seq<Rec>, rp: Rec, m: Rec, r: Rec, post: seq<Rec>)
    requires m == rp.(len := m.len)
    ensures Items(front + [m] + post) + ItemOf(r) == Items((front + [rp]) + [r] + post)
  {
    hide Items;
    ItemsConcat(front, [rp]);
    ItemsConcat(front + [rp], [r]);
    ItemsConcat(front + [rp] + [r], post);
    ItemsConcat(front, [m]);
    ItemsConcat(front + [m], post);
    ItemsOne(rp);
    ItemsOne(r);
    ItemsOne(m);
    assert ItemOf(m) == ItemOf(rp);
    hide ItemOf;
    Swap(Items(front) + ItemOf(rp), multiset{}, ItemOf(r), Items(post));
    assert (Items(front) + ItemOf(rp)) + multiset{} == Items(front) + ItemOf(rp);
  }

  lemma MergedSlack(rp: Rec, r: Rec)
    requires Encodable(rp) && Encodable(r)
    ensures Slack(rp.(len := rp.len + r.len)) >= Need(r.name)
  {
    RecHoldsName(rp);
    RecHoldsName(r);
  }

  lemma MergeSparesDots(front: seq<Rec>, rp: Rec, r: Rec, post: seq<Rec>, m: Rec)
    requires m == rp.(len := m.len)
    ensures r.name != DOT && r.name != DOTDOT && Dotted(front + [rp] + [r] + post) ==> Dotted(front + [m] + post)
  {
    var rs := front + [rp] + [r] + post;
    if r.name != DOT && r.name != DOTDOT && Dotted(rs) {
      assert rs[|front| + 1] == r;
      assert front + [rp] + [r] + post == front + [rp] + ([r] + post);
      assert |front| >= 1;
      DottedSplice(front, rp, [r] + post, [m]);
      assert (front + [m] + ([r] + post))[0] == (front + [m] + post)[0];
      assert (front + [m] + ([r] + post))[1] == (front + [m] + post)[1];
    }
  }

  lemma Absorbed(b: seq<byte>, b': seq<byte>, pre: seq<Rec>, p: nat, rp: Rec, o: nat, r: Rec)
    requires pre != [] && Last(b, pre, p, o) && rp == pre[|pre| - 1] && RecAt(b, o, r) && r.ino != 0 && Scanned(b, pre, o)
    requires Tiles(b', p, [rp.(len := rp.len + r.len)], o + r.len) && SameAround(b, b', p, o + r.len)
    ensures Tiled(b) ==>
      && Tiled(b') && HasRoom(Records(b'), r.name)
      && BlockItems(b') + multiset{Item(r.name, r.ino, r.ftype)} == BlockItems(b)
      && (r.name != DOT && r.name != DOTDOT ==> DotsKept(b, b'))
  {
    hide RecAt, Tiles, Items, Need, Encodable, Dotted;
    RecInside(b, p, rp);
    RecInside(b, o, r);
    RecHoldsName(rp);
    RecHoldsName(r);
    var front, m := pre[..|pre| - 1], rp.(len := rp.len + r.len);
    var post := ScanRest(b, pre, o, r);
    if Tiled(b) {
      Splice(b, b', front, p, post, o + r.len, [m]);
      hide SameAround, Scanned, Last;
      RecordsAre(b', front + [m] + post);
      MergeSparesDots(front, rp, r, post, m);
      assert m in front + [m] + post;
      assert pre == front + [rp];
      AbsorbedItems(front, rp, m, r, post);
      MergedSlack(rp, r);
    }
  }

  // ---- emptiness, "..", fresh directories ---------------------------------------------------

  ghost predicate OnlyDots(items: multiset<Item>) {
    forall it <- items :: it.name == DOT || it.name == DOTDOT
  }

  /** Whether a block holds nothing but the two dot entries. */
  method BlockIsEmpty(b: seq<byte>) returns (r: Result<bool>)
    ensures r.Err? ==> r == Err(Corrupt) && !Tiled(b)
    ensures Tiled(b) ==> r == Ok(OnlyDots(BlockItems(b)))
  {
    hide Tiles, RecAt, Parse, Tiled, Items;
    var off: nat := 0;
    ghost var pre: seq<Rec> := [];
    ScanStart(b);
    EmptyItems();
    while off < |b|
      invariant Scanned(b, pre, off) && OnlyDots(Items(pre))
      decreases |b| - off
    {
      var e := Parse(b, off);
      if e.Err? {
        ScanFails(b, pre, off);
        return Err(Corrupt);
      }
      ghost var rec := ScanStep(b, pre, off);
      var h := e.value;
      if h.ino != 0 {
        var n := b[off + HEADER..off + HEADER + h.nameLen];
        if n != DOT && n != DOTDOT {
          FoundItem(b, pre, off, rec);
          return Ok(false);
        }
      }
      pre := pre + [rec];
      off := off + h.len;
    }
    ScanAll(b, pre);
    return Ok(true);
  }

  /** Rewriting only the inode number of a record. */
  lemma Retarget(b: seq<byte>, o: nat, r: Rec, ino: nat)
    requires RecAt(b, o, r) && ino < 0x1_0000_0000
    ensures o + 4 <= |b|
    ensures var b' := Write(b, o, Le32(ino));
            RecAt(b', o, r.(ino := ino)) && SameAround(b, b', o, o + r.len)
  {
    var b' := Write(b, o, Le32(ino));
    Written(b, o, Le32(ino));
    Le32Read(b', o, ino);
    assert b'[o + HEADER..o + HEADER + |r.name|] == b[o + HEADER..o + HEADER + |r.name|];
  }

  /** The first two records of a block, found by parsing. */
  lemma FirstTwo(b: seq<byte>)
    requires Tiled(b) && |Records(b)| >= 2
    ensures var rs := Records(b);
            RecAt(b, 0, rs[0]) && RecAt(b, rs[0].len, rs[1]) && Scanned(b, [rs[0]], rs[0].len)
  {
    hide RecAt;
    var rs := Records(b);
    assert RecAt(b, 0, rs[0]);
    assert Tiles(b, rs[0].len, rs[1..], |b|);
    assert rs[1..][0] == rs[1];
    RecInside(b, 0, rs[0]);
    TilesOne(b, 0, rs[0]);
  }

  /** The ".." entry now names `parent` instead of `up`; all else is the same. */
  ghost predicate ParentMoved(items: multiset<Item>, items': multiset<Item>, up: nat, parent: nat, ft: byte) {
    && Item(DOTDOT, up, ft) in items
    && items' + multiset{Item(DOTDOT, up, ft)} == items + multiset{Item(DOTDOT, parent, ft)}
  }

  /** `dir_set_parent` on the first block: the second record, whatever it is, gets a new inode.
      On a block that starts with the dots this changes exactly the ".." entry. */
  method SetParentInBlock(b: seq<byte>, parent: nat) returns (r: Result<seq<byte>>)
    requires 0 < parent < 0x1_0000_0000
    ensures r.Err? ==> r == Err(Corrupt)
    ensures r.Ok? ==> |r.value| == |b|
    ensures Tiled(b) && Dotted(Records(b)) ==>
      && r.Ok? && Tiled(r.value) && Dotted(Records(r.value))
      && exists up, ft :: ParentMoved(BlockItems(b), BlockItems(r.value), up, parent, ft)
  {
    hide Tiles, RecAt, Parse, Tiled, Items, Write, Le32, Dotted, DotsKept;
    var dot := Parse(b, 0);
    ghost var dots := Tiled(b) && Dotted(Records(b));
    if dots { DotsParse(b); }
    if dot.Err? { return Err(Corrupt); }
    var dotdot := Parse(b, dot.value.len);
    if dotdot.Err? { return Err(Corrupt); }
    var at := dot.value.len;
    ParsedInside(b, at);
    r := Ok(Write(b, at, Le32(parent)));
    if dots { NewParent(b, r.value, at, parent); }
  }

  lemma ParsedInside(b: seq<byte>, o: nat)
    requires Parse(b, o).Ok?
    ensures o + HEADER <= |b|
  {
  }

  lemma DotsParse(b: seq<byte>)
    requires Tiled(b) && Dotted(Records(b))
    ensures Parse(b, 0).Ok? && Parse(b, 0).value.len == Records(b)[0].len && Parse(b, Records(b)[0].len).Ok?
  {
    hide RecAt, Tiles, Parse;
    FirstTwo(b);
    ParseIffRec(b, 0);
    ParseIffRec(b, Records(b)[0].len);
  }

  lemma NewParent(b: seq<byte>, b': seq<byte>, at: nat, parent: nat)
    requires 0 < parent < 0x1_0000_0000 && Tiled(b) && Dotted(Records(b)) && at == Records(b)[0].len
    requires at + 4 <= |b| && b' == Write(b, at, Le32(parent))
    ensures |b'| == |b| && Tiled(b') && Dotted(Records(b'))
    ensures exists up, ft :: ParentMoved(BlockItems(b), BlockItems(b'), up, parent, ft)
  {
    hide RecAt, Tiles, Write, Le32, Items, Scanned;
    var rs := Records(b);
    var q := rs[1].(ino := parent);
    FirstTwo(b);
    Retarget(b, at, rs[1], parent);
    RecInside(b, at, rs[1]);
    TilesOne(b', at, q);
    var post := ReplacedRecords(b, b', [rs[0]], at, rs[1], [q]);
    assert ([rs[0]] + [q] + post)[0] == rs[0] && ([rs[0]] + [q] + post)[1] == q;
    Replaced(b, b', [rs[0]], at, rs[1], [q]);
    ItemsOne(q);
    assert ItemOf(rs[1]) == multiset{Item(DOTDOT, rs[1].ino, rs[1].ftype)};
    assert ItemOf(q) == multiset{Item(DOTDOT, parent, rs[1].ftype)};
    FoundItem(b, [rs[0]], at, rs[1]);
    assert ParentMoved(BlockItems(b), BlockItems(b'), rs[1].ino, parent, rs[1].ftype);
  }

  lemma PlentyOfRoom(r: Rec, name: seq<byte>)
    requires r.name == DOTDOT && r.len >= 1012 && |name| <= MAX_NAME
    ensures Slack(r) >= Need(name)
  {
  }

  lemma RoomInFresh(b: seq<byte>, r1: Rec, r2: Rec)
    requires Tiled(b) && Records(b) == [r1, r2] && r2.name == DOTDOT && r2.len >= 1012
    ensures forall name :: |name| <= MAX_NAME ==> HasRoom(Records(b), name)
  {
    hide Tiled, Slack, Need;
    assert r2 in Records(b);
    forall name: seq<byte> | |name| <= MAX_NAME ensures HasRoom(Records(b), name) { PlentyOfRoom(r2, name); }
  }

  lemma TwoDots(b: seq<byte>, b1: seq<byte>, r1: Rec, r2: Rec)
    requires r1.len == 12 && r2.len == |b| - 12 && r1.name == DOT && r2.name == DOTDOT && r1.ino != 0 && r2.ino != 0 && |b| >= 1024
    requires RecAt(b1, 0, r1) && RecAt(b, 12, r2) && SameAround(b1, b, 12, 12 + r2.len)
    ensures Tiled(b) && Records(b) == [r1, r2] && Dotted(Records(b))
    ensures BlockItems(b) == multiset{Item(DOT, r1.ino, r1.ftype), Item(DOTDOT, r2.ino, r2.ftype)}
  {
    hide RecAt, SameAround, Tiles, Items, Tiled;
    TwoRecs(b1, b, 0, r1, r2, 12, |b|);
    RecordsAre(b, [r1, r2]);
    ItemsPair(r1, r2);
  }

  /** The first block `mkdir` writes; any name fits beside the dots. */
  method FreshDirBlock(bs: nat, self: nat, parent: nat, ft: byte) returns (b: seq<byte>)
    requires bs == 1024 || bs == 2048 || bs == 4096
    requires 0 < self < 0x1_0000_0000 && 0 < parent < 0x1_0000_0000
    ensures |b| == bs && Tiled(b) && Dotted(Records(b))
    ensures BlockItems(b) == multiset{Item(DOT, self, ft), Item(DOTDOT, parent, ft)}
    ensures forall name :: |name| <= MAX_NAME ==> HasRoom(Records(b), name)
  {
    hide RecAt, PutDirent, SameAround, Tiled, Items, Dotted, HasRoom;
    var r1, r2 := Rec(self, 12, DOT, ft), Rec(parent, bs - 12, DOTDOT, ft);
    PutRec(Zeroes(bs), 0, r1);
    var b1 := PutDirent(Zeroes(bs), 0, r1);
    SameLength(Zeroes(bs), b1, 0, 12);
    PutRec(b1, 12, r2);
    b := PutDirent(b1, 12, r2);
    SameLength(b1, b, 12, bs);
    TwoDots(b, b1, r1, r2);
    RoomInFresh(b, r1, r2);
  }
}
