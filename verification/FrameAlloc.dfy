/** The physical frame allocator: a bump cursor over the memory map, reserved ranges, and a free
    list threaded through the freed frames. */
module FrameAlloc {
  import opened Common

  const FRAME: nat := 4096
  const MAX_RESERVED: nat := 32
  const WORD_LIMIT: nat := 0x1_0000_0000_0000_0000
  const FREE_LIST_END: nat := WORD_LIMIT - 1
  /** Physical addresses have 52 bits. */
  const PHYS_LIMIT: nat := 0x10_0000_0000_0000

  datatype Region = Region(base: nat, length: nat, usable: bool)
  datatype Range = Range(start: nat, end: nat)

  function AlignDown(v: nat): (r: nat)
    ensures r <= v < r + FRAME && r % FRAME == 0
  {
    v / FRAME * FRAME
  }

  function AlignUp(v: nat): (r: nat)
    ensures v <= r < v + FRAME && r % FRAME == 0
  {
    AlignDown(v + FRAME - 1)
  }

  // ---- reserved ranges ----------------------------------------------------------------------------

  /** The address lies in the range: the test the allocator makes. */
  predicate Hits(r: Range, p: nat) { r.start <= p < r.end }

  predicate IsReserved(rs: seq<Range>, p: nat) {
    exists r <- rs :: Hits(r, p)
  }

  /** The frame at `p` shares a byte with the range. */
  predicate Meets(r: Range, p: nat) { r.start < r.end && r.start < p + FRAME && p < r.end }

  predicate Touched(rs: seq<Range>, p: nat) {
    exists r <- rs :: Meets(r, p)
  }

  /** The frame in which a range starts. */
  function FirstFrame(r: Range): nat { AlignDown(r.start) }

  /** Testing start addresses keeps off every frame that meets a reserved range exactly if the
      frame in which each non-empty range starts is itself reserved by its start address; page-aligned starts do. */
  lemma StartTestExact(rs: seq<Range>)
    ensures (forall p: nat :: p % FRAME == 0 && Touched(rs, p) ==> IsReserved(rs, p)) <==>
            (forall r <- rs :: r.start < r.end ==> IsReserved(rs, FirstFrame(r)))
  {
    if forall p: nat :: p % FRAME == 0 && Touched(rs, p) ==> IsReserved(rs, p) {
      forall r | r in rs && r.start < r.end ensures IsReserved(rs, FirstFrame(r)) {
        assert Meets(r, FirstFrame(r));
        assert Touched(rs, FirstFrame(r));
      }
    }
    if forall r <- rs :: r.start < r.end ==> IsReserved(rs, FirstFrame(r)) {
      forall p: nat | p % FRAME == 0 && Touched(rs, p) ensures IsReserved(rs, p) {
        var r :| r in rs && Meets(r, p);
        if r.start <= p {
          assert Hits(r, p);
        } else {
          SameFrame(r.start, p);
        }
      }
    }
  }

  lemma SameFrame(a: nat, p: nat)
    requires p % FRAME == 0 && p <= a < p + FRAME
    ensures AlignDown(a) == p
  {
    var q := p / FRAME;
    assert p == q * FRAME;
    assert a / FRAME == q;
  }

  lemma AlignedStarts(rs: seq<Range>)
    requires forall r <- rs :: r.start % FRAME == 0
    ensures forall r <- rs :: r.start < r.end ==> IsReserved(rs, FirstFrame(r))
  {
    forall r | r in rs && r.start < r.end ensures IsReserved(rs, FirstFrame(r)) {
      SameFrame(r.start, r.start);
      assert Hits(r, r.start);
    }
  }

  /** A reservation that starts inside a frame leaves that frame to be handed out. */
  lemma UnalignedStartIgnored()
    ensures var rs := [Range(100, 200)]; Touched(rs, 0) && !IsReserved(rs, 0)
  {
    assert Meets(Range(100, 200), 0);
    assert Range(100, 200) in [Range(100, 200)];
  }

  /** A page below the end of a range, rounded up, is below the end itself. */
  lemma BelowAligned(p: nat, end: nat)
    requires p % FRAME == 0 && p < AlignUp(end)
    ensures p < end
  {
    var u := AlignUp(end);
    assert p / FRAME * FRAME == p && u / FRAME * FRAME == u;
    assert p / FRAME < u / FRAME;
  }

  // ---- the pages of the memory map ------------------------------------------------------------

  predicate Overflows(r: Region) { r.base + r.length >= WORD_LIMIT }

  /** `p` is a frame of usable region `j`. */
  ghost predicate InRegion(memory: seq<Region>, j: nat, p: nat) {
    && j < |memory| && memory[j].usable && !Overflows(memory[j])
    && p % FRAME == 0 && AlignUp(memory[j].base) <= p < AlignDown(memory[j].base + memory[j].length)
  }

  /** A frame that may be handed out. */
  ghost predicate Eligible(memory: seq<Region>, rs: seq<Range>, p: nat) {
    (exists j: nat :: InRegion(memory, j, p)) && !IsReserved(rs, p)
  }

  /** A usable region that wraps around the address space; the search never gets past one. */
  predicate Blocks(memory: seq<Region>, j: nat) {
    j < |memory| && memory[j].usable && Overflows(memory[j])
  }

  ghost predicate Clear(memory: seq<Region>, j: nat) {
    forall i: nat :: i < j ==> !Blocks(memory, i)
  }

  /** A frame that may be handed out and lies before the first region that stops the search. */
  ghost predicate Reachable(memory: seq<Region>, rs: seq<Range>, p: nat) {
    (exists j: nat :: InRegion(memory, j, p) && Clear(memory, j)) && !IsReserved(rs, p)
  }

  ghost predicate Behind(memory: seq<Region>, region: nat, next: nat, p: nat) {
    exists j: nat :: InRegion(memory, j, p) && (j < region || (j == region && p < next))
  }

  /** A frame the cursor has passed. */
  ghost predicate Issued(memory: seq<Region>, rs: seq<Range>, region: nat, next: nat, p: nat) {
    Behind(memory, region, next, p) && !IsReserved(rs, p)
  }

  /** Usable regions fit the address space and do not share frames. */
  ghost predicate MapOk(memory: seq<Region>) {
    && (forall j :: 0 <= j < |memory| && memory[j].usable && !Overflows(memory[j]) ==> memory[j].base + memory[j].length <= PHYS_LIMIT)
    && (forall i: nat, j: nat, p: nat :: InRegion(memory, i, p) && InRegion(memory, j, p) ==> i == j)
  }

  // ---- the free list ----------------------------------------------------------------------------

  function Link(l: seq<nat>, i: nat): nat
    requires i < |l|
  {
    if i + 1 < |l| then l[i + 1] else FREE_LIST_END
  }

  ghost predicate Holds(mem: map<nat, nat>, l: seq<nat>, i: nat)
    requires i < |l|
  {
    l[i] in mem && mem[l[i]] == Link(l, i)
  }

  /** The frames of `l` are threaded through memory in this order. */
  ghost predicate Threaded(mem: map<nat, nat>, head: Option<nat>, l: seq<nat>) {
    && head == (if l == [] then None else Some(l[0]))
    && (forall i :: 0 <= i < |l| ==> Holds(mem, l, i))
    && (forall i :: 0 <= i < |l| ==> l[i] < PHYS_LIMIT)
  }

  lemma Pushed(mem: map<nat, nat>, head: Option<nat>, l: seq<nat>, f: nat)
    requires Threaded(mem, head, l) && Distinct(l) && f !in l && f < PHYS_LIMIT
    ensures var next := if head.Some? then head.value else FREE_LIST_END;
            Threaded(mem[f := next], Some(f), [f] + l) && Distinct([f] + l)
  {
    var next := if head.Some? then head.value else FREE_LIST_END;
    var l', mem' := [f] + l, mem[f := next];
    forall i | 0 <= i < |l'| ensures Holds(mem', l', i) && l'[i] < PHYS_LIMIT {
      if i > 0 {
        var i' := i - 1;
        assert Holds(mem, l, i') && l'[i] == l[i'];
      }
    }
  }

  lemma Popped(mem: map<nat, nat>, head: Option<nat>, l: seq<nat>)
    requires Threaded(mem, head, l) && Distinct(l) && l != []
    ensures head == Some(l[0]) && l[0] in mem && l[0] !in l[1..] && Distinct(l[1..])
    ensures var next := mem[l[0]];
            Threaded(mem, if next == FREE_LIST_END then None else Some(next), l[1..])
  {
    assert Holds(mem, l, 0);
    var t := l[1..];
    forall i | 0 <= i < |t| ensures Holds(mem, t, i) && t[i] < PHYS_LIMIT {
      var i' := i + 1;
      assert Holds(mem, l, i') && l[i'] < PHYS_LIMIT;
    }
    assert |l| > 1 ==> l[1] < PHYS_LIMIT;
  }

  // ---- the allocator ------------------------------------------------------------------------------

  class FrameAllocator {
    const memory: seq<Region>
    var region: nat
    var next: nat
    var reserved: seq<Range>
    var head: Option<nat>
    /** The first word of each physical frame, as seen through the direct map. */
    var mem: map<nat, nat>
    /** The free list, and the frames that are handed out. */
    ghost var free: seq<nat>
    ghost var live: set<nat>

    ghost predicate Valid()
      reads this
    {
      && MapOk(memory) && |reserved| <= MAX_RESERVED && (forall r <- reserved :: r.end + FRAME <= WORD_LIMIT)
      && next % FRAME == 0 && (next != 0 && region < |memory| ==> AlignUp(memory[region].base) <= next)
      && Threaded(mem, head, free) && Distinct(free)
      && (forall p <- free :: p !in live)
      && (forall p: nat :: p in live || p in free <==> Issued(memory, reserved, region, next, p))
      && Clear(memory, region)
    }

    constructor (memory: seq<Region>)
      requires MapOk(memory)
      ensures Valid() && this.memory == memory && free == [] && live == {} && reserved == [] && region == 0 && next == 0
    {
      this.memory := memory;
      region, next, reserved, head, mem, free, live := 0, 0, [], None, map[], [], {};
    }

    /** Must precede the first allocation. */
    method Reserve(start: nat, size: nat)
      requires Valid() && start + size + FRAME <= WORD_LIMIT && |reserved| < MAX_RESERVED
      requires region == 0 && next == 0
      modifies this`reserved
      ensures Valid() && reserved == old(reserved) + [Range(start, start + size)]
    {
      assert forall p: nat :: !Behind(memory, 0, 0, p);
      reserved := reserved + [Range(start, start + size)];
    }

    /** The least frame from `frame` on that no reserved range hits, for ranges in any order. */
    method SkipReserved(frame: nat) returns (f: nat)
      requires frame % FRAME == 0 && forall r <- reserved :: r.end + FRAME <= WORD_LIMIT
      ensures frame <= f && f % FRAME == 0 && !IsReserved(reserved, f)
      ensures forall p: nat :: frame <= p < f && p % FRAME == 0 ==> IsReserved(reserved, p)
    {
      f := frame;
      while true
        invariant frame <= f && f % FRAME == 0
        invariant forall p: nat :: frame <= p < f && p % FRAME == 0 ==> IsReserved(reserved, p)
        decreases WORD_LIMIT - f
      {
        var advanced := false;
        ghost var f0 := f;
        for i := 0 to |reserved|
          invariant f0 <= f && f % FRAME == 0 && (advanced ==> f0 < f <= WORD_LIMIT) && (!advanced ==> f == f0)
          invariant !advanced ==> forall k :: 0 <= k < i ==> !Hits(reserved[k], f)
          invariant forall p: nat :: frame <= p < f && p % FRAME == 0 ==> IsReserved(reserved, p)
        {
          var r := reserved[i];
          if f >= r.start && f < r.end {
            var past := AlignUp(r.end);
            if past > f {
              forall p: nat | f <= p < past && p % FRAME == 0 ensures IsReserved(reserved, p) {
                BelowAligned(p, r.end);
                assert Hits(r, p);
              }
              f := past;
              advanced := true;
            }
          }
        }
        if !advanced { return; }
      }
    }
  
    /** Moves on to a usable region, from whose start the cursor will set out. */
    method NextUsableRegion() returns (r: Option<Region>)
      requires Valid()
      modifies this`region, this`next
      ensures Valid() && region >= old(region)
      ensures r.Some? ==> region < |memory| && memory[region] == r.value && r.value.usable
      ensures r.None? ==> region >= |memory|
    {
      hide Threaded, Distinct, AlignUp, AlignDown, IsReserved;
      while region < |memory|
        invariant Valid() && region >= old(region)
        decreases |memory| - region
      {
        if memory[region].usable { return Some(memory[region]); }
        Passed(memory, reserved, region, next);
        region := region + 1;
        next := 0;
      }
      r := None;
    }

    /** A freed frame if there is one, else the next frame of the map. A frame is handed out only
        while nobody holds it, and only if it is usable and not reserved. There is none exactly
        if all frames before the first region that wraps around the address space are held. */
    method AllocateFrame() returns (r: Option<nat>)
      requires Valid()
      modifies this
      ensures Valid() && reserved == old(reserved) && mem == old(mem)
      ensures r.Some? ==> r.value !in old(live) && live == old(live) + {r.value} && Reachable(memory, reserved, r.value)
      ensures old(free) != [] ==> r == Some(old(free)[0]) && free == old(free)[1..]
      ensures old(free) == [] ==> free == []
      ensures r.None? ==> live == old(live)
      ensures r.None? <==> old(free) == [] && forall p: nat :: Reachable(memory, reserved, p) ==> p in old(live)
    {
      hide Threaded, Distinct, AlignUp, AlignDown, IsReserved, Hits, InRegion, Issued, Reachable;
      var popped := PopFreeFrame();
      if popped.Some? { return popped; }
      while true
        invariant Valid() && free == [] && live == old(live) && reserved == old(reserved) && mem == old(mem)
        decreases |memory| - region
      {
        var found := NextUsableRegion();
        if found.None? || Overflows(found.value) {
          AllPassed(memory, reserved, region, next);
          return None;
        }
        r := BumpRegion();
        if r.Some? { return; }
      }
    }

    /** The next frame of the current region; without one the cursor leaves the region. */
    method BumpRegion() returns (r: Option<nat>)
      requires Valid() && region < |memory| && memory[region].usable && !Overflows(memory[region])
      modifies this`next, this`region, this`live
      ensures Valid()
      ensures r.None? ==> region == old(region) + 1 && live == old(live)
      ensures r.Some? ==> r.value !in old(live) && r.value !in free && live == old(live) + {r.value} && Reachable(memory, reserved, r.value)
    {
      hide Threaded, Distinct, AlignUp, AlignDown, IsReserved, Hits, Issued, MapOk;
      var start, end := AlignUp(memory[region].base), AlignDown(memory[region].base + memory[region].length);
      if next == 0 {
        AtStart(memory, reserved, region, start);
        next := start;
      }
      var f := SkipReserved(next);
      Skipped(memory, reserved, region, next, f);
      next := f;
      if next < end {
        BumpOne(memory, reserved, region, next);
        live := live + {next};
        next := next + FRAME;
        return Some(f);
      }
      Passed(memory, reserved, region, next);
      region := region + 1;
      next := 0;
      r := None;
    }

    method PopFreeFrame() returns (r: Option<nat>)
      requires Valid()
      modifies this`head, this`free, this`live
      ensures Valid()
      ensures old(free) == [] ==> r.None? && free == [] && live == old(live)
      ensures old(free) != [] ==> r == Some(old(free)[0]) && free == old(free)[1..] && live == old(live) + {r.value}
      ensures r.Some? ==> r.value !in old(live) && Reachable(memory, reserved, r.value)
    {
      hide IsReserved, InRegion;
      if head.None? { return None; }
      Popped(mem, head, free);
      var frame := head.value;
      var word := mem[frame];
      head := if word == FREE_LIST_END then None else Some(word);
      assert forall p: nat :: p in free <==> p == frame || p in free[1..];
      free := free[1..];
      live := live + {frame};
      IssuedReachable(memory, reserved, region, next, frame);
      r := Some(frame);
    }

    /** The caller gives up a frame it holds; the link is written inside that frame only. */
    method DeallocateFrame(f: nat)
      requires Valid() && f in live
      modifies this`head, this`free, this`live, this`mem
      ensures Valid() && free == [f] + old(free) && live == old(live) - {f}
      ensures f in mem && mem == old(mem)[f := mem[f]]
    {
      hide IsReserved;
      InPhys(memory, reserved, region, next, f);
      Pushed(mem, head, free, f);
      var word := if head.Some? then head.value else FREE_LIST_END;
      mem := mem[f := word];
      head := Some(f);
      free := [f] + free;
      live := live - {f};
    }

    /** Whatever the holder of a live frame writes into it, the free list is unharmed. */
    method OwnerWrites(f: nat, word: nat)
      requires Valid() && f in live
      modifies this`mem
      ensures Valid() && mem == old(mem)[f := word]
    {
      hide IsReserved, InRegion;
      ghost var mem' := mem[f := word];
      forall i | 0 <= i < |free| ensures Holds(mem', free, i) {
        assert Holds(mem, free, i) && free[i] in free;
      }
      mem := mem[f := word];
    }

    /** The length of the free list. */
    method FreeFrameCount() returns (n: nat)
      requires Valid()
      ensures n == |free|
    {
      hide IsReserved, InRegion;
      n := 0;
      var cur := head;
      while cur.Some?
        invariant n <= |free| && Threaded(mem, cur, free[n..]) && Distinct(free[n..])
        decreases |free| - n
      {
        Popped(mem, cur, free[n..]);
        assert free[n..][1..] == free[n + 1..];
        n := n + 1;
        var word := mem[cur.value];
        cur := if word == FREE_LIST_END then None else Some(word);
      }
    }
  }

  /** Leaving a region without frames ahead loses nothing. */
  lemma Passed(memory: seq<Region>, rs: seq<Range>, region: nat, next: nat)
    requires forall p: nat :: InRegion(memory, region, p) ==> p < next
    ensures forall p: nat :: Issued(memory, rs, region + 1, 0, p) <==> Issued(memory, rs, region, next, p)
  {
    hide InRegion, IsReserved;
    forall p: nat ensures Behind(memory, region + 1, 0, p) <==> Behind(memory, region, next, p) {
      if Behind(memory, region + 1, 0, p) {
        var j: nat :| InRegion(memory, j, p) && (j < region + 1 || (j == region + 1 && p < 0));
        assert j < region || (j == region && p < next);
      }
      if Behind(memory, region, next, p) {
        var j: nat :| InRegion(memory, j, p) && (j < region || (j == region && p < next));
        assert j < region + 1;
      }
    }
  }

  /** Before its first frame nothing of a region has been issued. */
  lemma AtStart(memory: seq<Region>, rs: seq<Range>, region: nat, start: nat)
    requires forall p: nat :: InRegion(memory, region, p) ==> start <= p
    ensures forall p: nat :: Issued(memory, rs, region, start, p) <==> Issued(memory, rs, region, 0, p)
  {
    hide InRegion, IsReserved;
    forall p: nat ensures Behind(memory, region, start, p) <==> Behind(memory, region, 0, p) {
      if Behind(memory, region, start, p) {
        var j: nat :| InRegion(memory, j, p) && (j < region || (j == region && p < start));
        assert j < region;
      }
      if Behind(memory, region, 0, p) {
        var j: nat :| InRegion(memory, j, p) && (j < region || (j == region && p < 0));
        assert j < region;
      }
    }
  }

  /** Skipping reserved frames issues nothing. */
  lemma Skipped(memory: seq<Region>, rs: seq<Range>, region: nat, next: nat, f: nat)
    requires next <= f && forall p: nat :: next <= p < f && p % FRAME == 0 ==> IsReserved(rs, p)
    ensures forall p: nat :: Issued(memory, rs, region, f, p) <==> Issued(memory, rs, region, next, p)
  {
    hide IsReserved;
    forall p: nat ensures Issued(memory, rs, region, f, p) <==> Issued(memory, rs, region, next, p) {
      if Issued(memory, rs, region, f, p) {
        var j: nat :| InRegion(memory, j, p) && (j < region || (j == region && p < f));
        assert j < region || (j == region && p < next);
      }
      if Issued(memory, rs, region, next, p) {
        var j: nat :| InRegion(memory, j, p) && (j < region || (j == region && p < next));
        assert j < region || (j == region && p < f);
      }
    }
  }

  /** Bumping the cursor by one frame issues exactly that frame, which was not issued before. */
  lemma BumpOne(memory: seq<Region>, rs: seq<Range>, region: nat, f: nat)
    requires MapOk(memory) && InRegion(memory, region, f) && !IsReserved(rs, f)
    ensures !Issued(memory, rs, region, f, f) && (Clear(memory, region) ==> Reachable(memory, rs, f))
    ensures forall p: nat :: Issued(memory, rs, region, f + FRAME, p) <==> p == f || Issued(memory, rs, region, f, p)
  {
    hide IsReserved;
    var f' := f + FRAME;
    forall p: nat ensures Behind(memory, region, f', p) <==> p == f || Behind(memory, region, f, p) {
      if Behind(memory, region, f', p) {
        var j: nat :| InRegion(memory, j, p) && (j < region || (j == region && p < f'));
        if j == region { NextFrame(f, p); }
        assert p == f || j < region || (j == region && p < f);
      }
      if Behind(memory, region, f, p) {
        var j: nat :| InRegion(memory, j, p) && (j < region || (j == region && p < f));
        assert j < region || (j == region && p < f');
      }
      if p == f { assert InRegion(memory, region, p) && p < f'; }
    }
    assert forall j: nat :: InRegion(memory, j, f) ==> j == region;
  }

  lemma NextFrame(f: nat, p: nat)
    requires f % FRAME == 0 && p % FRAME == 0 && p < f + FRAME
    ensures p <= f
  {
    assert p / FRAME * FRAME == p && f / FRAME * FRAME == f;
  }

  /** At the end, or at a region that stops the search, every reachable frame has been issued. */
  lemma AllPassed(memory: seq<Region>, rs: seq<Range>, region: nat, next: nat)
    requires region >= |memory| || Blocks(memory, region)
    ensures forall p: nat :: Reachable(memory, rs, p) ==> Issued(memory, rs, region, next, p)
  {
    hide IsReserved;
    forall p: nat | Reachable(memory, rs, p) ensures Issued(memory, rs, region, next, p) {
      var j: nat :| InRegion(memory, j, p) && Clear(memory, j);
      assert j < region by { assert j > region ==> !Blocks(memory, region); }
    }
  }

  lemma IssuedReachable(memory: seq<Region>, rs: seq<Range>, region: nat, next: nat, p: nat)
    requires Issued(memory, rs, region, next, p) && Clear(memory, region)
    ensures Reachable(memory, rs, p)
  {
    hide IsReserved, InRegion;
    var j: nat :| InRegion(memory, j, p) && (j < region || (j == region && p < next));
    assert Clear(memory, j);
  }

  /** A memory map in which a usable, unreserved frame can never be handed out. */
  lemma StoppedSearch()
    ensures var memory := [Region(0xFFFF_FFFF_FFFF_F000, 0x2000, true), Region(0, 4096, true)];
            MapOk(memory) && Eligible(memory, [], 0) && !Reachable(memory, [], 0)
  {
    var memory := [Region(0xFFFF_FFFF_FFFF_F000, 0x2000, true), Region(0, 4096, true)];
    assert InRegion(memory, 1, 0) by { SameFrame(4096, 4096); SameFrame(0, 0); assert AlignUp(0) == AlignDown(4095); SameFrame(4095, 0); }
    assert Blocks(memory, 0);
    assert forall j: nat :: InRegion(memory, j, 0) ==> j == 1;
  }

  lemma InPhys(memory: seq<Region>, rs: seq<Range>, region: nat, next: nat, p: nat)
    requires MapOk(memory) && Issued(memory, rs, region, next, p)
    ensures p < PHYS_LIMIT
  {
    var j: nat :| InRegion(memory, j, p) && (j < region || (j == region && p < next));
  }
}
