/** The allocator of the kernel over its memory: `sbrk`, `morecore`, `malloc` and `free`. */
module KernelHeap {
  import opened Wrappers
  import opened Sbrk
  import opened HeapModel
  import opened HeapOps
  import opened HeapMemory

  // ---------------------------------------------------------------- the walk of `malloc`

  /** The walk of `malloc` that began with heap `h0` has come to place `i` of `h`, right after place `j`,
      before or after growth. */
  ghost predicate Walking(h0: Heap, h: Heap, j: nat, i: nat, grown: bool, need: nat) {
    && Inv(h0) && 0 < need && CoreInRange(h0, CoreUnits(need)) && h.cur < |h.ring|
    && j < |h.ring| && i == Next(j, |h.ring|)
    && (if grown then NextFit(h0.ring, h0.cur, need) == None && Grow(h0, need) == Some(h) else h == h0)
    && Walk(h.ring, h.cur, i, need) == NextFit(h.ring, h.cur, need)
  }

  lemma NeedIsSome(size: nat)
    ensures 0 < NeedFor(size)
  {
  }

  lemma WalkStarts(h: Heap, need: nat)
    requires Inv(h) && 0 < need && CoreInRange(h, CoreUnits(need))
    ensures Walking(h, h, h.cur, Next(h.cur, |h.ring|), false, need)
  {
  }

  /** A block big enough at the next place is the one the operation takes. */
  lemma WalkHits(h0: Heap, h: Heap, j: nat, i: nat, grown: bool, size: nat)
    requires Walking(h0, h, j, i, grown, NeedFor(size)) && Inv(h) && h.ring[i].units >= NeedFor(size)
    ensures i == j + 1 && HeapOps.Malloc(h0, size) == Some(Take(h, i, NeedFor(size)))
  {
    FitPlace(h, NeedFor(size));
    if grown { GrowFits(h0, NeedFor(size)); }
  }

  lemma SameAddress(h: Heap, i: nat, j: nat)
    requires RingOk(h) && i < |h.ring| && j < |h.ring| && h.ring[i].addr == h.ring[j].addr
    ensures i == j
  {
    DistinctAddresses(h, i, j);
  }

  /** The walk comes round to `freep` in vain only before growth, when no block at all is big enough. */
  lemma WalkEnds(h0: Heap, h: Heap, j: nat, i: nat, grown: bool, size: nat)
    requires Walking(h0, h, j, i, grown, NeedFor(size)) && Inv(h)
    requires h.ring[i].units < NeedFor(size) && h.ring[i].addr == h.ring[h.cur].addr
    ensures !grown && h == h0 && NextFit(h0.ring, h0.cur, NeedFor(size)) == None
    ensures match Grow(h0, NeedFor(size))
            case None => HeapOps.Malloc(h0, size) == None
            case Some(h') =>
              h'.cur < |h'.ring| && Walking(h0, h', h'.cur, Next(h'.cur, |h'.ring|), true, NeedFor(size))
  {
    var need := NeedFor(size);
    SameAddress(h, i, h.cur);
    if grown { GrowFits(h0, need); }
    if Grow(h0, need).Some? { GrowInv(h0, need); }
  }

  lemma WalkGoesOn(h0: Heap, h: Heap, j: nat, i: nat, grown: bool, need: nat)
    requires Walking(h0, h, j, i, grown, need)
    requires h.ring[i].units < need && h.ring[i].addr != h.ring[h.cur].addr
    ensures Walking(h0, h, i, Next(i, |h.ring|), grown, need)
    ensures 0 <= Steps(Next(i, |h.ring|), h.cur, |h.ring|) < Steps(i, h.cur, |h.ring|)
  {
  }

  lemma RingInMemory(h: Heap, i: nat)
    requires Inv(h) && i < |h.ring|
    ensures 0 < h.ring[i].addr && h.ring[i].addr + HEADER <= h.end && h.ring[i].End() <= h.end
  {
    if i > 0 { assert InArena(h, h.ring[i]); }
  }

  /** What a visit of the walk reads. */
  lemma RingAt(m: seq<int>, h: Heap, i: nat)
    requires Inv(h) && |m| >= CAP_LIMIT && Linked(m, h.ring) && i < |h.ring|
    ensures 0 < h.ring[i].addr && h.ring[i].addr + HEADER <= |m|
    ensures m[h.ring[i].addr] == h.ring[Next(i, |h.ring|)].addr && m[h.ring[i].addr + 4] == h.ring[i].units
  {
    RingInMemory(h, i);
    assert HasLink(m, h.ring, i);
  }

  // ---------------------------------------------------------------- growing

  lemma ReleaseBase(h: Heap, need: nat)
    requires Inv(h) && 0 < need && CoreInRange(h, CoreUnits(need)) && Grow(h, need).Some?
    ensures Grow(h, need).value.ring[0] == h.ring[0]
  {
    var o := Brk(h.end, h.cap, 8 * CoreUnits(need), false);
    WithChunkInv(h, CoreUnits(need));
    var h1 := WithChunk(h, CoreUnits(need), o.end, o.cap);
    LiveBelongs(h1, |h.live|);
    AbsorbAscending(h1.ring, Gap(h1.ring, h.end), h1.live[|h.live|]);
  }

  /** What was the allocator's own before growth is so after it. */
  lemma GrowOwns(h: Heap, need: nat, a: int)
    requires Inv(h) && 0 < need && CoreInRange(h, CoreUnits(need)) && Grow(h, need).Some? && Own(h, a)
    ensures Own(Grow(h, need).value, a)
  {
    GrowInv(h, need);
    WithChunkInv(h, CoreUnits(need));
    AbsorbSums(h.ring, Gap(h.ring, h.end), Block(h.end, CoreUnits(need)), a);
    ReleaseBase(h, need);
  }

  /** Only the allocator's own cells differ. */
  ghost predicate Private(m: seq<int>, m': seq<int>, h: Heap) {
    |m'| == |m| && forall a {:trigger Own(h, a)} :: Word(m', a) != Word(m, a) ==> Own(h, a)
  }

  lemma PrivateChain(m0: seq<int>, m: seq<int>, v: int, m': seq<int>, h: Heap, need: nat)
    requires Inv(h) && 0 < need && CoreInRange(h, CoreUnits(need)) && Grow(h, need).Some?
    requires Private(m0, m, h) && h.end + 4 < |m| && Own(Grow(h, need).value, h.end + 4)
    requires Private(m[h.end + 4 := v], m', Grow(h, need).value)
    ensures Private(m0, m', Grow(h, need).value)
  {
    hide Inv, Own, Grow, CoreUnits, CoreInRange;
    var h' := Grow(h, need).value;
    forall a | Word(m', a) != Word(m0, a) ensures Own(h', a) {
      if Word(m, a) != Word(m0, a) {
        GrowOwns(h, need, a);
      } else if a != h.end + 4 {
        assert Word(m[h.end + 4 := v], a) == Word(m, a);
      }
    }
  }

  /** Only the allocator's own cells and the newest live block differ. */
  ghost predicate PrivateOrNew(m: seq<int>, m': seq<int>, h: Heap) {
    |m'| == |m| && h.live != [] &&
    forall a {:trigger Own(h, a)} :: Word(m', a) != Word(m, a) ==> Own(h, a) || h.live[|h.live| - 1].Has(a)
  }

  /** Writing the size of a fresh chunk disturbs nothing and makes it a live block. */
  lemma ChunkHeader(m: seq<int>, h: Heap, units: nat)
    requires Inv(h) && |m| >= CAP_LIMIT && Linked(m, h.ring) && Sized(m, h.live)
    requires h.end + 8 * units < CAP_LIMIT && 0 < units
    ensures var m' := m[h.end + 4 := units];
            Linked(m', h.ring) && Sized(m', h.live + [Block(h.end, units)])
  {
    var m' := m[h.end + 4 := units];
    forall i ensures HasLink(m', h.ring, i) {
      assert HasLink(m, h.ring, i);
      if 0 <= i < |h.ring| { RingInMemory(h, i); }
    }
    forall k | 0 <= k < |h.live| ensures Word(m', h.live[k].addr + 4) == h.live[k].units {
      assert InArena(h, h.live[k]);
    }
  }

  /** The state in which `morecore` calls `free`. */
  lemma ChunkInMemory(m: seq<int>, h: Heap, units: nat)
    requires Inv(h) && |m| >= CAP_LIMIT && Linked(m, h.ring) && Sized(m, h.live)
    requires 0 < units && CoreInRange(h, units) && Brk(h.end, h.cap, 8 * units, false).Granted?
    ensures var o := Brk(h.end, h.cap, 8 * units, false);
            && o.start == h.end && h.end + 4 < |m|
            && var h1, m1 := WithChunk(h, units, o.end, o.cap), m[h.end + 4 := units];
               Inv(h1) && Linked(m1, h1.ring) && Sized(m1, h1.live)
  {
    WithChunkInv(h, units);
    ChunkHeader(m, h, units);
  }

  lemma ReleasedIsOwn(h: Heap, k: nat, a: int)
    requires Inv(h) && k < |h.live| && h.live[k].Has(a)
    ensures h.ring[0].addr < h.live[k].addr && Own(Release(h, k), a)
  {
    ReleaseInv(h, k);
    AbsorbSums(h.ring, Gap(h.ring, h.live[k].addr), h.live[k], a);
    SumOne(h.live[k], a);
  }

  lemma GrowHalts(h: Heap, nu: nat)
    requires Inv(h) && 0 < nu && CoreInRange(h, CoreUnits(nu))
    ensures Grow(h, nu).Some? <==> Brk(h.end, h.cap, 8 * CoreUnits(nu), false).Granted?
  {
  }

  lemma GrowUnfolds(h: Heap, nu: nat)
    requires Inv(h) && 0 < nu && CoreInRange(h, CoreUnits(nu))
    requires Brk(h.end, h.cap, 8 * CoreUnits(nu), false).Granted?
    ensures var o := Brk(h.end, h.cap, 8 * CoreUnits(nu), false);
            var h1 := WithChunk(h, CoreUnits(nu), o.end, o.cap);
            && Inv(h1) && |h1.live| == |h.live| + 1 && |h1.ring| > 0 && h1.ring == h.ring
            && h1.live[|h.live|] == Block(h.end, CoreUnits(nu)) && h.ring[0].addr < h.end
            && Grow(h, nu) == Some(Release(h1, |h.live|))
  {
    var o := Brk(h.end, h.cap, 8 * CoreUnits(nu), false);
    WithChunkInv(h, CoreUnits(nu));
    var h1 := WithChunk(h, CoreUnits(nu), o.end, o.cap);
    ReleaseInv(h1, |h.live|);
    hide Inv, Brk, Absorb, Gap;
  }

  lemma CapIsCap(h: Heap)
    requires Inv(h)
    ensures IsCap(h.cap)
  {
  }

  lemma CoreIsSome(nu: nat)
    ensures CoreUnits(nu) > 0
  {
  }

  lemma HasItsHeader(a: int, units: nat)
    requires units > 0
    ensures Block(a, units).Has(a + 4)
  {
  }

  /** What that call makes of it. */
  lemma GrowIsRelease(h: Heap, nu: nat)
    requires Inv(h) && 0 < nu && CoreInRange(h, CoreUnits(nu))
    requires Brk(h.end, h.cap, 8 * CoreUnits(nu), false).Granted?
    ensures var o := Brk(h.end, h.cap, 8 * CoreUnits(nu), false);
            var h1 := WithChunk(h, CoreUnits(nu), o.end, o.cap);
            && h1.live[|h.live|] == Block(h.end, CoreUnits(nu)) && h.ring[0].addr < h.end
            && Grow(h, nu) == Some(Release(h1, |h.live|)) && Own(Release(h1, |h.live|), h.end + 4)
  {
    hide *;
    CapIsCap(h);
    GrowUnfolds(h, nu);
    var o := Brk(h.end, h.cap, 8 * CoreUnits(nu), false);
    var h1 := WithChunk(h, CoreUnits(nu), o.end, o.cap);
    CoreIsSome(nu);
    HasItsHeader(h.end, CoreUnits(nu));
    ReleasedIsOwn(h1, |h.live|, h.end + 4);
  }

  lemma RingSpread(m: seq<int>, h: Heap)
    requires Inv(h) && |m| >= CAP_LIMIT
    ensures Spread(h.ring, 0, |m|) && Headed(h.ring) && Ascending(h.ring)
  {
    forall i | 1 <= i < |h.ring| ensures InArena(h, h.ring[i]) {}
    RingInMemory(h, 0);
    SortedIsSpread(h.ring, 0, 0, 0, |m|);
  }

  // ---------------------------------------------------------------- taking a block

  /** A cell of the allocator's before taking is the allocator's or the new block's after it. */
  lemma TakeOwn(h: Heap, i: nat, need: nat, a: int)
    requires 1 <= i < |h.ring| && 0 < need <= h.ring[i].units && Own(h, a) && h.ring[0].units == 0
    ensures Own(Take(h, i, need), a) || Given(h.ring[i], need).Has(a)
  {
    TakeSums(h.ring, i, need, a);
    SumOne(Given(h.ring[i], need), a);
  }

  /** The stores of taking go to cells of the allocator's. */
  lemma TakeCellsOwn(m: seq<int>, h: Heap, i: nat, need: nat, a: int)
    requires Inv(h) && 1 <= i < |h.ring| && 0 < need <= h.ring[i].units
    requires Spread(h.ring, 0, |m|) && h.ring[i].End() <= |m|
    requires Word(TakeIn(m, h.ring, i, need), a) != Word(m, a)
    ensures Own(h, a)
  {
    TakeInCells(m, h.ring, i, need);
    if h.ring[i].units == need {
      if i > 1 {
        assert InArena(h, h.ring[i - 1]);
        HoldersAt(h.ring, i - 1, a);
      }
    } else {
      HoldersAt(h.ring, i, a);
    }
  }

  lemma TakeIsPrivate(m0: seq<int>, m: seq<int>, h: Heap, i: nat, need: nat)
    requires Inv(h) && 1 <= i < |h.ring| && 0 < need <= h.ring[i].units && Private(m0, m, h)
    requires Spread(h.ring, 0, |m|) && h.ring[i].End() <= |m|
    ensures PrivateOrNew(m0, TakeIn(m, h.ring, i, need), Take(h, i, need))
  {
    var m', h' := TakeIn(m, h.ring, i, need), Take(h, i, need);
    TakeInCells(m, h.ring, i, need);
    forall a | Word(m', a) != Word(m0, a) ensures Own(h', a) || Given(h.ring[i], need).Has(a) {
      if Word(m', a) != Word(m, a) { TakeCellsOwn(m, h, i, need, a); }
      TakeOwn(h, i, need, a);
    }
  }

  lemma TakeKeepsSizes(m: seq<int>, h: Heap, i: nat, need: nat)
    requires Inv(h) && 1 <= i < |h.ring| && 0 < need <= h.ring[i].units && Sized(m, h.live) && Linked(m, h.ring)
    requires Spread(h.ring, 0, |m|) && h.ring[i].End() <= |m|
    ensures Sized(TakeIn(m, h.ring, i, need), Take(h, i, need).live)
  {
    var m', h' := TakeIn(m, h.ring, i, need), Take(h, i, need);
    forall k | 0 <= k < |h'.live| ensures Word(m', h'.live[k].addr + 4) == h'.live[k].units {
      if k < |h.live| {
        var a := h.live[k].addr + 4;
        assert InArena(h, h.live[k]);
        if Word(m', a) != Word(m, a) {
          TakeCellsOwn(m, h, i, need, a);
          OwnIsPrivate(h, a);
        }
      } else {
        TakeInCells(m, h.ring, i, need);
        assert HasLink(m, h.ring, i);
        SpreadAt(h.ring, 0, |m|, i - 1, i);
      }
    }
  }

  /** Where the block to take from and its predecessor lie, before and after. */
  lemma TakePlaces(m: seq<int>, h: Heap, i: nat, need: nat)
    requires Inv(h) && 1 <= i < |h.ring| && 0 < need <= h.ring[i].units
    requires |m| >= CAP_LIMIT && Linked(m, h.ring)
    ensures Spread(h.ring, 0, |m|) && Ascending(h.ring) && h.ring[i].End() <= |m|
    ensures var p, prevp := h.ring[i].addr, h.ring[i - 1].addr;
            && 0 < prevp < |m| && 0 <= p < |m| - 4 && m[p + 4] == h.ring[i].units
            && p + 8 * (h.ring[i].units - need) + 4 < |m|
            && TakeIn(m, h.ring, i, need) == Carved(m, prevp, p, need) && |Carved(m, prevp, p, need)| == |m|
            && var h' := Take(h, i, need);
               && h'.ring == RingWithout(h.ring, i, need) && |h'.ring| > 0 && h'.ring[0] == h.ring[0]
               && h'.cur < |h'.ring| && h'.ring[h'.cur].addr == prevp
               && |h'.live| > 0 && h'.live[|h'.live| - 1].addr == p + 8 * (h.ring[i].units - need)
  {
    hide Linked, Spread, Ascending, Headed;
    RingSpread(m, h);
    RingAt(m, h, i);
    RingAt(m, h, i - 1);
    RingInMemory(h, i);
    WithoutAt(h.ring, i, need);
  }

  /** What taking `need` units from `ring[i]` stores makes memory agree with the new heap value. */
  lemma TakeInMemory(m0: seq<int>, m: seq<int>, h: Heap, i: nat, need: nat)
    requires Inv(h) && 1 <= i < |h.ring| && 0 < need <= h.ring[i].units
    requires |m| >= CAP_LIMIT && Linked(m, h.ring) && Sized(m, h.live) && Private(m0, m, h)
    ensures var p, prevp := h.ring[i].addr, h.ring[i - 1].addr;
            && 0 < prevp < |m| && 0 <= p < |m| - 4 && m[p + 4] == h.ring[i].units
            && p + 8 * (h.ring[i].units - need) + 4 < |m|
            && var m', h' := Carved(m, prevp, p, need), Take(h, i, need);
               && |m'| == |m| && Inv(h') && Linked(m', h'.ring) && Sized(m', h'.live) && PrivateOrNew(m0, m', h')
               && h'.ring[0] == h.ring[0] && h'.ring[h'.cur].addr == prevp
               && h'.live[|h'.live| - 1].addr == p + 8 * (m[p + 4] - need)
  {
    hide *;
    TakePlaces(m, h, i, need);
    TakeLinked(m, h.ring, i, need);
    TakeInv(h, i, need);
    TakeKeepsSizes(m, h, i, need);
    TakeIsPrivate(m0, m, h, i, need);
  }

  // ---------------------------------------------------------------- what no call touches

  /** Nothing in these blocks, header and payload, and in these tables has changed. */
  ghost predicate Untouched(m: seq<int>, m': seq<int>, blocks: seq<Block>, tables: seq<Region>) {
    && (forall k, a {:trigger blocks[k].Has(a)} :: 0 <= k < |blocks| && blocks[k].Has(a) ==> Word(m', a) == Word(m, a))
    && (forall t, a {:trigger tables[t].Has(a)} :: 0 <= t < |tables| && tables[t].Has(a) ==> Word(m', a) == Word(m, a))
  }

  /** The byte at `a` is in none of them. */
  ghost predicate NotIn(a: int, blocks: seq<Block>, tables: seq<Region>) {
    && (forall k :: 0 <= k < |blocks| ==> !blocks[k].Has(a))
    && (forall t :: 0 <= t < |tables| ==> !tables[t].Has(a))
  }

  lemma ChangedOutside(m: seq<int>, m': seq<int>, blocks: seq<Block>, tables: seq<Region>)
    requires forall a {:trigger NotIn(a, blocks, tables)} :: Word(m', a) != Word(m, a) ==> NotIn(a, blocks, tables)
    ensures Untouched(m, m', blocks, tables)
  {
    forall k, a | 0 <= k < |blocks| && blocks[k].Has(a)
      ensures Word(m', a) == Word(m, a)
    {
      assert !NotIn(a, blocks, tables);
    }
    forall t, a | 0 <= t < |tables| && tables[t].Has(a)
      ensures Word(m', a) == Word(m, a)
    {
      assert !NotIn(a, blocks, tables);
    }
  }

  /** A call that stores only into the allocator's own cells alters no live block and no table. */
  lemma PrivateUntouched(m: seq<int>, m': seq<int>, h: Heap)
    requires Inv(h) && Private(m, m', h)
    ensures Untouched(m, m', h.live, h.tables)
  {
    forall a | Word(m', a) != Word(m, a)
      ensures NotIn(a, h.live, h.tables)
    {
      assert Own(h, a);
      OwnIsPrivate(h, a);
    }
    ChangedOutside(m, m', h.live, h.tables);
  }

  lemma TableBytes(h: Heap, b: Block, k: nat, a: int)
    requires Inv(h) && k < |h.live| && h.live[k] == b && b.Has(a)
    ensures forall t :: 0 <= t < |h.tables| ==> !h.tables[t].Has(a)
  {
    HoldersOfApart(h.chunks, a);
    HoldersAt(h.live, k, a);
    forall t | 0 <= t < |h.tables| && h.tables[t].Has(a) ensures false {
      forall c | 0 <= c < |h.chunks| ensures !h.chunks[c].Has(a) {
        assert Clear(h.chunks[c], h.tables[t]);
      }
    }
  }

  lemma NewIsApart(h: Heap, live: seq<Block>, a: int)
    requires Inv(h) && |h.live| == |live| + 1 && h.live[..|live|] == live && h.live[|live|].Has(a)
    ensures forall k :: 0 <= k < |live| ==> !live[k].Has(a)
    ensures forall t :: 0 <= t < |h.tables| ==> !h.tables[t].Has(a)
  {
    forall k | 0 <= k < |live| ensures !live[k].Has(a) {
      assert live[k] == h.live[..|live|][k] == h.live[k] && Apart(h.live[k], h.live[|live|]);
    }
    TableBytes(h, h.live[|live|], |live|, a);
  }

  lemma MallocUntouched(m: seq<int>, m': seq<int>, h0: Heap, h: Heap, size: nat)
    requires Inv(h0) && size < WORD && CoreInRange(h0, CoreUnits(NeedFor(size)))
    requires HeapOps.Malloc(h0, size) == Some(h) && PrivateOrNew(m, m', h)
    ensures Untouched(m, m', h0.live, h0.tables)
  {
    hide HeapOps.Malloc, Inv, Own, Word;
    MallocInv(h0, size);
    forall a | Word(m', a) != Word(m, a)
      ensures NotIn(a, h0.live, h0.tables)
    {
      assert Own(h, a) || h.live[|h.live| - 1].Has(a);
      if Own(h, a) {
        OwnIsPrivate(h, a);
        assert forall k :: 0 <= k < |h0.live| ==> h0.live[k] == h.live[..|h0.live|][k] == h.live[k];
      } else {
        NewIsApart(h, h0.live, a);
      }
    }
    ChangedOutside(m, m', h0.live, h0.tables);
  }

  // ---------------------------------------------------------------- giving a block back

  lemma BlockRoom(m: seq<int>, h: Heap, g: nat, b: Block)
    requires Inv(h) && |m| >= CAP_LIMIT && Belongs(h.ring, g, b) && InArena(h, b)
    ensures RoomFor(m, h.ring, g, b) && b.End() <= |m|
  {
    forall i | 1 <= i < |h.ring| ensures h.ring[i].End() <= |m| { RingInMemory(h, i); }
    RingInMemory(h, 0);
    BelongsRoom(m, h.ring, g, b);
  }

  lemma FreeIsPrivate(m: seq<int>, h: Heap, k: nat)
    requires k < |h.live| && |h.ring| > 0 && h.ring[0].addr < h.live[k].addr && 0 < h.live[k].units
    requires var g := Gap(h.ring, h.live[k].addr); RoomFor(m, h.ring, g, h.live[k])
    requires Headed(h.ring) && Release(h, k).ring[0] == h.ring[0] && 0 < |Release(h, k).ring|
    ensures Private(m, AbsorbIn(m, h.ring, Gap(h.ring, h.live[k].addr), h.live[k]), Release(h, k))
  {
    hide RoomFor, AbsorbIn, Absorb;
    var b := h.live[k];
    var g := Gap(h.ring, b.addr);
    var m', h' := AbsorbIn(m, h.ring, g, b), Release(h, k);
    AbsorbCells(m, h.ring, g, b, 0);
    forall a | Word(m', a) != Word(m, a) ensures Own(h', a) {
      AbsorbCells(m, h.ring, g, b, a);
      AbsorbSums(h.ring, g, b, a);
      SumOne(b, a);
      if g > 0 && h.ring[g].Has(a) { HoldersAt(h.ring, g, a); }
    }
  }

  lemma FreeKeepsSizes(m: seq<int>, m': seq<int>, h: Heap, k: nat)
    requires k < |h.live| && |h.ring| > 0 && h.ring[0].addr < h.live[k].addr
    requires Sized(m, h.live) && Inv(Release(h, k)) && Private(m, m', Release(h, k))
    ensures Sized(m', Release(h, k).live)
  {
    hide Absorb, Gap, Holders, RingOk;
    var h' := Release(h, k);
    forall j | 0 <= j < |h'.live| ensures Word(m', h'.live[j].addr + 4) == h'.live[j].units {
      var a := h'.live[j].addr + 4;
      assert InArena(h', h'.live[j]);
      if Own(h', a) { OwnIsPrivate(h', a); }
      assert h'.live[j] == h.live[if j < k then j else j + 1];
    }
  }

  /** What `free` of the live block `k` stores makes memory agree with the new heap value, and
      changes only cells that are the allocator's own afterwards. */
  lemma FreeInMemory(m: seq<int>, h: Heap, k: nat)
    requires Inv(h) && k < |h.live| && |m| >= CAP_LIMIT && Linked(m, h.ring) && Sized(m, h.live)
    ensures h.ring[0].addr < h.live[k].addr
    ensures var p, bp := h.ring[Gap(h.ring, h.live[k].addr)].addr, h.live[k].addr;
            && 0 <= p < |m| - 4 && 0 <= bp < |m| - 4 && 0 <= m[p] < |m| - 4 && (p + 8 <= bp || bp + 8 <= p)
            && var m', h' := Joined(m, p, bp), Release(h, k);
               && Private(m, m', h') && Inv(h') && Linked(m', h'.ring) && Sized(m', h'.live)
               && h'.ring[h'.cur].addr == p && h'.ring[0] == h.ring[0]
  {
    var b := h.live[k];
    LiveBelongs(h, k);
    assert InArena(h, b) && Word(m, b.addr + 4) == b.units && Headed(h.ring);
    hide RoomFor, AbsorbIn, Absorb, Private, Joined, Sized;
    var g := Gap(h.ring, b.addr);
    BlockRoom(m, h, g, b);
    JoinedIsAbsorb(m, h.ring, g, b);
    AbsorbLinked(m, h.ring, g, b);
    assert HasLink(m, h.ring, g);
    RingInMemory(h, Next(g, |h.ring|));
    RingInMemory(h, g);
    ReleaseInv(h, k);
    AbsorbAscending(h.ring, g, b);
    FreeIsPrivate(m, h, k);
    var m' := AbsorbIn(m, h.ring, g, b);
    FreeKeepsSizes(m, m', h, k);
    BelongsOrder(h.ring, g, b, g);
  }

  /** The search of `free` stops at place `i` exactly when that is the gap. */
  lemma StopsAtGap(ring: seq<Block>, i: nat, g: nat, b: Block)
    requires Belongs(ring, g, b) && i < |ring|
    ensures var p, q := ring[i].addr, ring[Next(i, |ring|)].addr;
            i == g <==> (b.addr > p && b.addr < q) || (p >= q && (b.addr > p || b.addr < q))
  {
    BelongsOrder(ring, g, b, i);
    BelongsOrder(ring, g, b, Next(i, |ring|));
    if i + 1 < |ring| { assert ring[i].End() < ring[i + 1].addr; }
    if i > 0 { assert ring[0].End() < ring[i].addr; }
  }

  // ---------------------------------------------------------------- the kernel

  class Kernel {
    const mem: array<int>  // physical memory: the 32-bit word at each 4-aligned byte address
    const base: int        // the address of the static header the free list starts from
    var freep: int         // 0 is NULL
    var heapEnd: nat
    var heapCap: nat
    ghost var h: Heap

    ghost predicate Valid()
      reads this, mem
    {
      && Inv(h) && h.end == heapEnd && h.cap == heapCap && h.ring[0].addr == base
      && mem.Length >= CAP_LIMIT
      && (if freep == 0 then h.ring == [Block(base, 0)] && h.live == []
          else freep == h.ring[h.cur].addr && Linked(mem[..], h.ring) && Sized(mem[..], h.live))
    }

    constructor (memory: array<int>, base: int, kernelEnd: nat)
      requires memory.Length >= CAP_LIMIT
      requires 0 < base && base % 4 == 0 && base + HEADER <= kernelEnd < CAP_FIRST && kernelEnd % 4 == 0
      ensures Valid() && mem == memory && h == Initial(base, kernelEnd)
      ensures freep == 0 && heapEnd == kernelEnd && heapCap == 0x100_0000
    {
      mem, this.base, freep := memory, base, 0;
      heapEnd, heapCap := kernelEnd, CAP_FIRST;
      h := Initial(base, kernelEnd);
      InitialInv(base, kernelEnd);
    }

    /** `sbrk`; None is the halt in `_crash`. */
    method Sbrk(size: nat, pageAlign: bool) returns (r: Option<nat>)
      requires IsCap(heapCap)
      modifies this`heapEnd, this`heapCap
      ensures match Brk(old(heapEnd), old(heapCap), size, pageAlign)
              case Crashed => r == None
              case Granted(start, end, cap) => r == Some(start) && heapEnd == end && heapCap == cap
      decreases CAP_LIMIT - heapCap
    {
      if pageAlign && heapEnd % PAGE != 0 {
        heapEnd := heapEnd - heapEnd % PAGE + PAGE;
      }
      if (heapEnd + size) % WORD < heapCap {
        var start := heapEnd;
        heapEnd := (heapEnd + size) % WORD;
        return Some(start);
      } else {
        if heapCap * 2 > CAP_LIMIT {
          return None;
        }
        heapCap := heapCap + heapCap;
        r := Sbrk(size, pageAlign);
      }
    }

    /** The search of `free`: the block on the ring after which the block at `bp` belongs. */
    method Seek(bp: int, ghost b: Block) returns (p: int)
      requires Valid() && freep != 0 && bp == b.addr
      requires h.ring[0].addr < b.addr && Belongs(h.ring, Gap(h.ring, b.addr), b)
      ensures p == h.ring[Gap(h.ring, b.addr)].addr
    {
      ghost var m := mem[..];
      ghost var ring := h.ring;
      ghost var g := Gap(ring, b.addr);
      p := freep;
      ghost var i: nat := h.cur;
      RingInMemory(h, i);
      while !(bp > p && bp < mem[p])
        invariant mem[..] == m && i < |ring| && p == ring[i].addr && 0 < p && p + HEADER <= mem.Length
        modifies {}
        decreases Steps(i, g, |ring|)
      {
        assert HasLink(m, ring, i);
        if p >= mem[p] && (bp > p || bp < mem[p]) {
          break;
        }
        StopsAtGap(ring, i, g, b);
        p := mem[p];
        i := Next(i, |ring|);
        RingInMemory(h, i);
      }
      assert HasLink(m, ring, i);
      StopsAtGap(ring, i, g, b);
    }

    /** The tail of `free`: link the block at `bp` in after `p`, merging it with what it touches. */
    method Join(p: int, bp: int)
      requires 0 <= p < mem.Length - 4 && 0 <= bp < mem.Length - 4 && 0 <= mem[p] < mem.Length - 4
      requires p + 8 <= bp || bp + 8 <= p
      modifies mem
      ensures mem[..] == Joined(old(mem[..]), p, bp)
    {
      ghost var m := mem[..];
      if bp + 8 * mem[bp + 4] == mem[p] {
        var q := mem[p];
        mem[bp + 4] := mem[bp + 4] + mem[q + 4];
        mem[bp] := mem[q];
      } else {
        mem[bp] := mem[p];
      }
      if p + 8 * mem[p + 4] == bp {
        mem[p + 4] := mem[p + 4] + mem[bp + 4];
        mem[p] := mem[bp];
      } else {
        mem[p] := bp;
      }
    }

    /** `free` of the live block `k`, whose payload starts at `ap`. */
    method Free(ap: int, ghost k: nat)
      requires Valid() && freep != 0
      requires k < |h.live| && ap == h.live[k].addr + HEADER
      modifies this`freep, this`h, mem
      ensures Valid() && freep != 0
      ensures old(h.ring[0].addr < h.live[k].addr) && h == Release(old(h), k)
      ensures Private(old(mem[..]), mem[..], h)
      ensures Untouched(old(mem[..]), mem[..], h.live, h.tables)
    {
      ghost var m := mem[..];
      LiveBelongs(h, k);
      FreeInMemory(mem[..], h, k);
      var bp := ap - HEADER;
      var p := Seek(bp, h.live[k]);
      Join(p, bp);
      freep := p;
      h := Release(h, k);
      PrivateUntouched(m, mem[..], h);
    }

    /** The first half of `morecore`: a chunk from `sbrk`, made to look like a live block. Its test of what `sbrk`
        returns against -1 never succeeds: `sbrk` halts instead. */
    method NewChunk(units: nat) returns (r: Option<nat>)
      requires Valid() && freep != 0 && 0 < units && CoreInRange(h, units)
      modifies this`heapEnd, this`heapCap, this`h, mem
      ensures match Brk(old(heapEnd), old(heapCap), 8 * units, false)
              case Crashed => r == None
              case Granted(start, end, cap) =>
                && r == Some(start) && start == old(heapEnd) && start + 4 < mem.Length && start != MINUS_ONE
                && Valid() && h == WithChunk(old(h), units, end, cap)
                && mem[..] == old(mem[..])[start + 4 := units]
    {
      assert CoreBytes(units) == 8 * units;
      NeverMinusOne(heapEnd, heapCap, 8 * units, false);
      r := Sbrk(units * HEADER % WORD, false);
      if r != None {
        ghost var m := mem[..];
        ChunkInMemory(m, h, units);
        mem[r.value + 4] := units;
        assert mem[..] == m[r.value + 4 := units];
        h := WithChunk(h, units, heapEnd, heapCap);
      }
    }

    /** `morecore`: at least NALLOC units from `sbrk`, freed into the ring; None is the halt in `_crash`. */
    method Morecore(nu: nat, ghost m0: seq<int>) returns (r: Option<int>)
      requires Valid() && freep != 0 && 0 < nu && CoreInRange(h, CoreUnits(nu)) && Private(m0, mem[..], h)
      modifies this, mem
      ensures r.Some? <==> Grow(old(h), nu).Some?
      ensures r.Some? ==> Valid() && Grow(old(h), nu) == Some(h) && freep != 0 && r == Some(freep)
      ensures r.Some? ==> heapEnd == old(heapEnd) + 8 * if nu < 1024 then 1024 else nu
      ensures r.Some? ==> Private(m0, mem[..], h)
    {
      hide Inv, Linked, Sized, Private, Grow, Release, Own;
      var units := if nu < NALLOC then NALLOC else nu;
      ghost var h0, m := h, mem[..];
      GrowHalts(h, nu);
      GrowTakes(h, nu);
      var up := NewChunk(units);
      if up == None {
        return None;
      }
      GrowIsRelease(h0, nu);
      Free(up.value + HEADER, |h0.live|);
      PrivateChain(m0, m, units, mem[..], h0, nu);
      return Some(freep);
    }

    /** The stores of `malloc` that take `nunits` units from the block at `p`, whose predecessor is `prevp`. */
    method Carve(prevp: int, p: int, nunits: nat) returns (r: int)
      requires 0 <= prevp < mem.Length && 0 <= p < mem.Length - 4
      requires 0 < nunits <= mem[p + 4] && p + 8 * (mem[p + 4] - nunits) + 4 < mem.Length
      modifies mem
      ensures r == p + 8 * (old(mem[p + 4]) - nunits)
      ensures mem[..] == Carved(old(mem[..]), prevp, p, nunits)
    {
      r := p;
      if mem[p + 4] == nunits {
        mem[prevp] := mem[p];
      } else {
        mem[p + 4] := mem[p + 4] - nunits;
        r := p + 8 * mem[p + 4];
        mem[r + 4] := nunits;
      }
    }

    /** The hit of `malloc`: take `nunits` units from the block at `p`, the `i`-th of the ring. */
    method Hit(prevp: int, p: int, nunits: nat, ghost i: nat, ghost m0: seq<int>) returns (r: int)
      requires Valid() && freep != 0 && 1 <= i < |h.ring| && p == h.ring[i].addr && prevp == h.ring[i - 1].addr
      requires 0 < nunits <= h.ring[i].units && Private(m0, mem[..], h)
      modifies this`freep, this`h, mem
      ensures Valid() && freep != 0 && h == Take(old(h), i, nunits)
      ensures h.live != [] && r == h.live[|h.live| - 1].addr + HEADER
      ensures PrivateOrNew(m0, mem[..], h)
    {
      TakeInMemory(m0, mem[..], h, i, nunits);
      var q := Carve(prevp, p, nunits);
      freep := prevp;
      h := Take(h, i, nunits);
      return q + HEADER;
    }

    /** The set-up of the first `malloc`: the base header, linked to itself. */
    method Start()
      requires Valid() && freep == 0
      modifies this`freep, mem
      ensures Valid() && freep != 0 && Private(old(mem[..]), mem[..], h)
    {
      RingInMemory(h, 0);
      mem[base] := base;
      freep := base;
      mem[base + 4] := 0;
      assert HasLink(mem[..], h.ring, 0);
      assert forall a :: 0 <= a < mem.Length && a != base && a != base + 4 ==> mem[a] == old(mem[a]);
    }

    /** What a visit of the walk reads, and where the walk begins and ends. */
    lemma Reading(i: nat)
      requires Valid() && freep != 0 && (i < |h.ring| || i == h.cur)
      ensures Inv(h) && h.cur < |h.ring| && freep == h.ring[h.cur].addr && Next(i, |h.ring|) < |h.ring|
      ensures 0 < h.ring[i].addr && h.ring[i].addr + 4 < mem.Length
      ensures mem[h.ring[i].addr] == h.ring[Next(i, |h.ring|)].addr && mem[h.ring[i].addr + 4] == h.ring[i].units
    {
      RingAt(mem[..], h, i);
    }

    /** The loop of `malloc`, for `nunits` units. */
    method Search(size: nat, nunits: nat, ghost m0: seq<int>) returns (r: Option<int>)
      requires Valid() && freep != 0 && nunits == NeedFor(size) && CoreInRange(h, CoreUnits(nunits))
      requires Private(m0, mem[..], h)
      modifies this, mem
      ensures r.Some? <==> HeapOps.Malloc(old(h), size).Some?
      ensures r.Some? ==> Valid() && HeapOps.Malloc(old(h), size) == Some(h) && freep != 0
      ensures r.Some? ==> h.live != [] && r.value == h.live[|h.live| - 1].addr + HEADER
      ensures r.Some? ==> PrivateOrNew(m0, mem[..], h)
    {
      hide *;
      ghost var h0 := h;
      Reading(h.cur);
      NeedIsSome(size);
      ghost var j: nat, i: nat, grown := h.cur, Next(h.cur, |h.ring|), false;  // prevp and p in the ring
      WalkStarts(h, nunits);
      var prevp, p := freep, mem[freep];
      while true
        invariant Valid() && freep != 0 && Private(m0, mem[..], h)
        invariant j < |h.ring| && i < |h.ring| && h.cur < |h.ring| && Walking(h0, h, j, i, grown, nunits)
        invariant prevp == h.ring[j].addr && p == h.ring[i].addr
        decreases !grown, Steps(i, h.cur, |h.ring|)
      {
        Reading(i);
        if mem[p + 4] >= nunits {
          WalkHits(h0, h, j, i, grown, size);
          var q := Hit(prevp, p, nunits, i, m0);
          return Some(q);
        }
        if p == freep {
          WalkEnds(h0, h, j, i, grown, size);
          var q := Morecore(nunits, m0);
          if q == None {
            return None;
          }
          p := q.value;
          grown, j := true, h.cur;
          Reading(h.cur);
        } else {
          WalkGoesOn(h0, h, j, i, grown, nunits);
          j := i;
        }
        prevp, p := p, mem[p];
        i := Next(j, |h.ring|);
      }
    }

    /** `malloc`; None is the halt in `_crash`. */
    method Malloc(size: nat) returns (r: Option<int>)
      requires Valid() && size < WORD && CoreInRange(h, CoreUnits(NeedFor(size)))
      modifies this, mem
      ensures r.Some? <==> HeapOps.Malloc(old(h), size).Some?
      ensures r.Some? ==> Valid() && HeapOps.Malloc(old(h), size) == Some(h) && freep != 0
      ensures r.Some? ==> h.live != [] && r.value == h.live[|h.live| - 1].addr + HEADER
      ensures r.Some? ==> PrivateOrNew(old(mem[..]), mem[..], h)
      ensures r.Some? ==> Untouched(old(mem[..]), mem[..], old(h.live), old(h.tables))
    {
      var nunits := (size + HEADER - 1) % WORD / HEADER + 1;
      if freep == 0 {
        Start();
      }
      ghost var h0 := h;
      r := Search(size, nunits, old(mem[..]));
      if r.Some? {
        MallocUntouched(old(mem[..]), mem[..], h0, h, size);
      }
    }
  }
}
