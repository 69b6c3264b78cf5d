/** What `malloc`, `free`, `morecore` and a direct page-aligned `sbrk` do to the heap as a value,
    and the proof that every run of them keeps the invariant. */
module HeapOps {
  import opened Wrappers
  import opened Sbrk
  import opened HeapModel

  // ---------------------------------------------------------------- the walk round the ring

  function Next(i: nat, n: nat): nat
    requires i < n
  {
    if i + 1 == n then 0 else i + 1
  }

  /** The steps along the ring from place `i` to place `j`. */
  function Steps(i: nat, j: nat, n: nat): int {
    if i <= j then j - i else j - i + n
  }

  /** The walk of `malloc` from place `i`, which gives up after `cur`. */
  function Walk(ring: seq<Block>, cur: nat, i: nat, need: nat): Option<nat>
    requires cur < |ring| && i < |ring|
    decreases Steps(i, cur, |ring|)
  {
    if ring[i].units >= need then Some(i)
    else if i == cur then None
    else Walk(ring, cur, Next(i, |ring|), need)
  }

  function NextFit(ring: seq<Block>, cur: nat, need: nat): Option<nat>
    requires cur < |ring|
  {
    Walk(ring, cur, Next(cur, |ring|), need)
  }

  lemma {:induction false} WalkFinds(ring: seq<Block>, cur: nat, i: nat, need: nat)
    requires cur < |ring| && i < |ring|
    ensures match Walk(ring, cur, i, need)
            case Some(j) =>
              && j < |ring| && ring[j].units >= need
              && (forall k :: 0 <= k < |ring| && Steps(i, k, |ring|) < Steps(i, j, |ring|) ==> ring[k].units < need)
            case None =>
              forall k :: 0 <= k < |ring| && Steps(i, k, |ring|) <= Steps(i, cur, |ring|) ==> ring[k].units < need
    decreases Steps(i, cur, |ring|)
  {
    var n := |ring|;
    if ring[i].units < need && i != cur {
      var i' := Next(i, n);
      WalkFinds(ring, cur, i', need);
      assert forall k :: 0 <= k < n && k != i ==> Steps(i', k, n) == Steps(i, k, n) - 1;
    }
  }

  /** Next fit: the first block after `freep`, in ring order, that is big enough; it fails only
      when every block of the ring, `freep` included, is too small. */
  lemma NextFitFinds(ring: seq<Block>, cur: nat, need: nat)
    requires cur < |ring|
    ensures match NextFit(ring, cur, need)
            case Some(j) =>
              && j < |ring| && ring[j].units >= need
              && var first := Next(cur, |ring|);
              forall k :: 0 <= k < |ring| && Steps(first, k, |ring|) < Steps(first, j, |ring|) ==>
                ring[k].units < need
            case None => forall k :: 0 <= k < |ring| ==> ring[k].units < need
  {
    WalkFinds(ring, cur, Next(cur, |ring|), need);
  }

  // ---------------------------------------------------------------- taking a block off the ring

  /** The block handed out when `need` units are taken from `b`: all of it, or its tail end. */
  function Given(b: Block, need: nat): Block
    requires need <= b.units
  {
    Block(b.addr + 8 * (b.units - need), need)
  }

  function RingWithout(ring: seq<Block>, i: nat, need: nat): seq<Block>
    requires i < |ring| && need <= ring[i].units
  {
    if ring[i].units == need then ring[..i] + ring[i + 1..]
    else ring[i := Block(ring[i].addr, ring[i].units - need)]
  }

  function Take(h: Heap, i: nat, need: nat): Heap
    requires 1 <= i < |h.ring| && need <= h.ring[i].units
  {
    h.(ring := RingWithout(h.ring, i, need), cur := i - 1, live := h.live + [Given(h.ring[i], need)])
  }

  /** What taking does: the block handed out is the end of the one it is taken from, which stays where it is with the
      units left, or leaves the ring when there are none; `freep` is then the block before it. */
  lemma TakeMeans(h: Heap, i: nat, need: nat)
    requires 1 <= i < |h.ring| && 0 < need <= h.ring[i].units
    ensures var h', p := Take(h, i, need), h.ring[i];
            && h'.live == h.live + [Block(p.addr + 8 * p.units - 8 * need, need)]
            && h'.cur < |h'.ring| && h'.ring[h'.cur] == h.ring[i - 1]
            && (if p.units == need then h'.ring == h.ring[..i] + h.ring[i + 1..]
                else h'.ring == h.ring[..i] + [Block(p.addr, p.units - need)] + h.ring[i + 1..])
            && h'.chunks == h.chunks && h'.tables == h.tables && h'.end == h.end && h'.cap == h.cap
  {
  }

  /** Block `k` of the new ring lies within block `k`, or `k + 1`, of the old one, and starts where it does. */
  lemma TakeShape(ring: seq<Block>, i: nat, need: nat, k: nat)
    requires i < |ring| && 0 < need <= ring[i].units && k < |RingWithout(ring, i, need)|
    ensures var r := RingWithout(ring, i, need);
            var k' := if k < i || |r| == |ring| then k else k + 1;
            && r[k].addr == ring[k'].addr && 0 <= ring[k'].units - r[k].units
            && (0 < ring[k'].units ==> 0 < r[k].units)
  {
    if ring[i].units == need {
      assert RingWithout(ring, i, need)[k] == ring[if k < i then k else k + 1];
    }
  }

  lemma TakePair(ring: seq<Block>, i: nat, need: nat, k: nat, l: nat)
    requires Ascending(ring) && i < |ring| && 0 < need <= ring[i].units && k < l < |RingWithout(ring, i, need)|
    ensures RingWithout(ring, i, need)[k].End() < RingWithout(ring, i, need)[l].addr
  {
    var d := |ring| - |RingWithout(ring, i, need)|;
    TakeShape(ring, i, need, k);
    TakeShape(ring, i, need, l);
    hide RingWithout;
    assert ring[if k < i then k else k + d].End() < ring[if l < i then l else l + d].addr;
  }

  lemma TakeRing(h: Heap, i: nat, need: nat)
    requires RingOk(h) && 1 <= i < |h.ring| && 0 < need <= h.ring[i].units
    ensures RingOk(Take(h, i, need))
  {
    var h' := Take(h, i, need);
    var r, d := h'.ring, |h.ring| - |h'.ring|;
    assert r[0] == h.ring[0];
    forall k | 1 <= k < |r| ensures InArena(h', r[k]) {
      TakeShape(h.ring, i, need, k);
      assert InArena(h, h.ring[if k < i then k else k + d]);
    }
    forall k, l | 0 <= k < l < |r| ensures r[k].End() < r[l].addr {
      TakePair(h.ring, i, need, k, l);
    }
  }

  lemma TakeOff(h: Heap, i: nat, need: nat, x: Block)
    requires RingOk(h) && 1 <= i < |h.ring| && 0 < need <= h.ring[i].units
    requires OffRing(h.ring, x) && 0 < x.units
    ensures OffRing(RingWithout(h.ring, i, need), x) && Apart(Given(h.ring[i], need), x)
  {
    var r := RingWithout(h.ring, i, need);
    assert Apart(h.ring[i], x);
    forall k | 1 <= k < |r| ensures Apart(r[k], x) {
      if h.ring[i].units == need { assert r[k] == h.ring[if k < i then k else k + 1]; }
    }
  }

  /** The block handed out is off what is left of the ring. */
  lemma TakeGiven(h: Heap, i: nat, need: nat)
    requires RingOk(h) && 1 <= i < |h.ring| && 0 < need <= h.ring[i].units
    ensures OffRing(RingWithout(h.ring, i, need), Given(h.ring[i], need))
  {
    var r := RingWithout(h.ring, i, need);
    forall k | 1 <= k < |r| ensures Apart(r[k], Given(h.ring[i], need)) {
      if h.ring[i].units == need { assert r[k] == h.ring[if k < i then k else k + 1]; }
      var k' := if k < i || |r| == |h.ring| then k else k + 1;
      assert k' < i ==> h.ring[k'].End() < h.ring[i].addr;
      assert i < k' ==> h.ring[i].End() < h.ring[k'].addr;
    }
  }

  lemma TakeSums(ring: seq<Block>, i: nat, need: nat, a: int)
    requires i < |ring| && need <= ring[i].units
    ensures Holders(RingWithout(ring, i, need), a) + Holders([Given(ring[i], need)], a) == Holders(ring, a)
    ensures Units(RingWithout(ring, i, need)) + need == Units(ring)
  {
    SumWithout(ring, i, a);
    SumOne(ring[i], a);
    SumOne(Given(ring[i], need), a);
    if ring[i].units != need {
      var r := RingWithout(ring, i, need);
      SumWithout(r, i, a);
      assert r[..i] + r[i + 1..] == ring[..i] + ring[i + 1..];
      SumOne(r[i], a);
    }
  }

  lemma TakeLive(h: Heap, i: nat, need: nat)
    requires Inv(h) && 1 <= i < |h.ring| && 0 < need <= h.ring[i].units
    ensures LiveOk(Take(h, i, need))
  {
    hide ChunksOk, TablesOk, Partition, Ascending, RingWithout;
    var h' := Take(h, i, need);
    var b := Given(h.ring[i], need);
    assert InArena(h, h.ring[i]);
    forall k | 0 <= k < |h'.live| ensures InArena(h', h'.live[k]) && OffRing(h'.ring, h'.live[k]) {
      if k < |h.live| {
        assert InArena(h, h.live[k]);
        assert OffRing(h.ring, h.live[k]);
        TakeOff(h, i, need, h.live[k]);
      } else {
        TakeGiven(h, i, need);
      }
    }
    forall j, k | 0 <= j < k < |h'.live| ensures Apart(h'.live[j], h'.live[k]) {
      if k < |h.live| {
        assert Apart(h.live[j], h.live[k]);
      } else {
        assert InArena(h, h.live[j]);
        assert OffRing(h.ring, h.live[j]);
        TakeOff(h, i, need, h.live[j]);
      }
    }
  }

  lemma ArenaGrows(h: Heap, h': Heap, s: seq<Block>, from: nat)
    requires AllInArena(h, s, from) && h'.floor == h.floor && h.end <= h'.end
    ensures AllInArena(h', s, from)
  {
    forall i | from <= i < |s| ensures InArena(h', s[i]) {
      assert InArena(h, s[i]);
    }
  }

  lemma TakeInv(h: Heap, i: nat, need: nat)
    requires Inv(h) && 1 <= i < |h.ring| && 0 < need <= h.ring[i].units
    ensures Inv(Take(h, i, need))
  {
    var h' := Take(h, i, need);
    TakeRing(h, i, need);
    TakeLive(h, i, need);
    ArenaGrows(h, h', h.chunks, 0);
    assert ChunksOk(h') && TablesOk(h');
    forall a ensures Holders(h'.ring, a) + Holders(h'.live, a) == Holders(h'.chunks, a) {
      TakeSums(h.ring, i, need, a);
      SumConcat(h.live, [Given(h.ring[i], need)], a);
    }
    TakeSums(h.ring, i, need, 0);
    SumConcat(h.live, [Given(h.ring[i], need)], 0);
    SumOne(Given(h.ring[i], need), 0);
  }

  // ---------------------------------------------------------------- giving a block back

  function Release(h: Heap, k: nat): Heap
    requires k < |h.live| && |h.ring| > 0 && h.ring[0].addr < h.live[k].addr
  {
    var g := Gap(h.ring, h.live[k].addr);
    h.(ring := Absorb(h.ring, g, h.live[k]), cur := g, live := h.live[..k] + h.live[k + 1..])
  }

  lemma LiveBelongs(h: Heap, k: nat)
    requires Inv(h) && k < |h.live|
    ensures h.ring[0].addr + HEADER <= h.live[k].addr
    ensures Belongs(h.ring, Gap(h.ring, h.live[k].addr), h.live[k])
  {
    assert InArena(h, h.live[k]);
    GapIsGap(h.ring, h.live[k].addr);
    assert OffRing(h.ring, h.live[k]);
    forall i | 1 <= i < |h.ring| ensures 0 < h.ring[i].units && h.ring[0].addr + HEADER <= h.ring[i].addr {
      assert InArena(h, h.ring[i]);
    }
  }

  lemma AbsorbKeepsGap(ring: seq<Block>, g: nat, b: Block)
    requires g < |ring|
    ensures g < |Absorb(ring, g, b)| && Absorb(ring, g, b)[g].addr == ring[g].addr
  {
    var r1 := Insert(ring, g + 1, b);
    var r2 := MergeAt(r1, g + 1);
    assert r2[g] == ring[g];
  }

  lemma GapIsLast(ring: seq<Block>, g: nat, b: Block, i: nat)
    requires Belongs(ring, g, b) && i < |ring| && ring[i].addr < b.addr
    ensures ring[i].addr <= ring[g].addr
  {
    if i < g { assert ring[i].End() < ring[g].addr; }
  }

  /** What `free` does to `freep`: it is then the last block below the one given back, possibly merged with it. */
  lemma ReleaseMeans(h: Heap, k: nat)
    requires Inv(h) && k < |h.live|
    ensures h.ring[0].addr < h.live[k].addr
    ensures var h', b := Release(h, k), h.live[k];
            && h'.live == h.live[..k] + h.live[k + 1..]
            && h'.chunks == h.chunks && h'.end == h.end && h'.tables == h.tables
            && h'.cur < |h'.ring| && h'.ring[h'.cur].addr < b.addr
            && (exists i :: 0 <= i < |h.ring| && h.ring[i].addr == h'.ring[h'.cur].addr)
            && (forall i :: 0 <= i < |h.ring| && h.ring[i].addr < b.addr ==> h.ring[i].addr <= h'.ring[h'.cur].addr)
  {
    hide Absorb, Gap, LiveOk, ChunksOk, TablesOk, Partition, Belongs;
    LiveBelongs(h, k);
    var b := h.live[k];
    var g := Gap(h.ring, b.addr);
    AbsorbKeepsGap(h.ring, g, b);
    forall i | 0 <= i < |h.ring| && h.ring[i].addr < b.addr ensures h.ring[i].addr <= h.ring[g].addr {
      GapIsLast(h.ring, g, b, i);
    }
  }

  lemma ReleaseLive(h: Heap, k: nat)
    requires Inv(h) && k < |h.live| && h.ring[0].addr < h.live[k].addr
    ensures LiveOk(Release(h, k))
  {
    hide Absorb, Gap, Belongs, Ascending;
    var b := h.live[k];
    var g := Gap(h.ring, b.addr);
    var h' := Release(h, k);
    LiveBelongs(h, k);
    forall j | 0 <= j < |h'.live|
      ensures InArena(h', h'.live[j]) && OffRing(h'.ring, h'.live[j])
    {
      var j' := if j < k then j else j + 1;
      assert h'.live[j] == h.live[j'] && InArena(h, h.live[j']);
      assert Apart(h.live[if j < k then j else k], h.live[if j < k then k else j']);
      assert OffRing(h.ring, h.live[j']);
      AbsorbOff(h.ring, g, b, h.live[j']);
    }
    forall i, j | 0 <= i < j < |h'.live| ensures Apart(h'.live[i], h'.live[j]) {
      assert Apart(h.live[if i < k then i else i + 1], h.live[if j < k then j else j + 1]);
    }
  }

  lemma ReleaseInv(h: Heap, k: nat)
    requires Inv(h) && k < |h.live|
    ensures h.ring[0].addr < h.live[k].addr && Inv(Release(h, k))
  {
    LiveBelongs(h, k);
    var b := h.live[k];
    var g := Gap(h.ring, b.addr);
    var h' := Release(h, k);
    AbsorbAscending(h.ring, g, b);
    assert InArena(h, b);
    AbsorbInArena(h, h.ring, g, b);
    ArenaGrows(h, h', h'.ring, 1);
    ReleaseLive(h, k);
    ArenaGrows(h, h', h.chunks, 0);
    assert RingOk(h') && ChunksOk(h') && TablesOk(h');
    forall a ensures Holders(h'.ring, a) + Holders(h'.live, a) == Holders(h'.chunks, a) {
      AbsorbSums(h.ring, g, b, a);
      SumWithout(h.live, k, a);
    }
    AbsorbSums(h.ring, g, b, 0);
    SumWithout(h.live, k, 0);
  }

  // ---------------------------------------------------------------- more core

  /** Units asked for by `malloc(size)`, header included; 32-bit arithmetic. */
  function NeedFor(size: nat): nat {
    (size + HEADER - 1) % WORD / HEADER + 1
  }

  function CoreUnits(need: nat): nat {
    if need < NALLOC then NALLOC else need
  }

  /** A fresh chunk, before it is freed into the ring. */
  function WithChunk(h: Heap, units: nat, end: nat, cap: nat): Heap {
    var c := Block(h.end, units);
    h.(end := end, cap := cap, live := h.live + [c], chunks := h.chunks + [c])
  }

  /** `sbrk` for `units` units does not run past the 32-bit address space. */
  predicate CoreInRange(h: Heap, units: nat) {
    h.end + 8 * units < WORD
  }

  lemma ChunkApart(h: Heap, s: seq<Block>, c: Block)
    requires AllInArena(h, s, 0) && AllApart(s) && c.addr == h.end
    ensures AllApart(s + [c])
  {
    forall i, j | 0 <= i < j < |s + [c]| ensures Apart((s + [c])[i], (s + [c])[j]) {
      assert InArena(h, s[i]);
    }
  }

  /** A chunk that starts at the break is off everything there is. */
  lemma ChunkIsFresh(h: Heap, c: Block)
    requires RingOk(h) && LiveOk(h) && ChunksOk(h) && c.addr == h.end
    ensures AllApart(h.live + [c]) && AllApart(h.chunks + [c]) && OffRing(h.ring, c)
  {
    ChunkApart(h, h.live, c);
    ChunkApart(h, h.chunks, c);
    forall i | 1 <= i < |h.ring| ensures Apart(h.ring[i], c) {
      assert InArena(h, h.ring[i]);
    }
  }

  lemma WithChunkSums(h: Heap, c: Block)
    requires Partition(h)
    ensures Partition(h.(live := h.live + [c], chunks := h.chunks + [c]))
  {
    forall a ensures Holders(h.ring, a) + Holders(h.live + [c], a) == Holders(h.chunks + [c], a) {
      SumConcat(h.live, [c], a);
      SumConcat(h.chunks, [c], a);
    }
    SumConcat(h.live, [c], 0);
    SumConcat(h.chunks, [c], 0);
  }

  lemma WithChunkLists(h: Heap, h': Heap, c: Block)
    requires LiveOk(h) && ChunksOk(h) && TablesOk(h) && c.addr == h.end && InArena(h', c)
    requires h'.ring == h.ring && h'.tables == h.tables && h'.live == h.live + [c] && h'.chunks == h.chunks + [c]
    requires AllApart(h.live + [c]) && AllApart(h.chunks + [c]) && OffRing(h.ring, c)
    requires AllInArena(h', h.live, 0) && AllInArena(h', h.chunks, 0)
    ensures LiveOk(h') && ChunksOk(h')
  {
    forall k | 0 <= k < |h'.live| ensures OffRing(h'.ring, h'.live[k]) && InArena(h', h'.live[k]) {
      assert h'.live[k] == if k < |h.live| then h.live[k] else c;
    }
    forall i | 0 <= i < |h'.chunks| ensures InArena(h', h'.chunks[i]) {
      assert h'.chunks[i] == if i < |h.chunks| then h.chunks[i] else c;
    }
    forall i, t | 0 <= i < |h'.chunks| && 0 <= t < |h'.tables| ensures Clear(h'.chunks[i], h'.tables[t]) {
      assert h'.chunks[i] == if i < |h.chunks| then h.chunks[i] else c;
    }
  }

  lemma WithChunkKeeps(h: Heap, units: nat, end: nat, cap: nat)
    requires Inv(h) && 0 < units && end == h.end + 8 * units < cap && IsCap(cap)
    ensures Inv(WithChunk(h, units, end, cap))
  {
    var h' := WithChunk(h, units, end, cap);
    var c := Block(h.end, units);
    ChunkIsFresh(h, c);
    ArenaGrows(h, h', h.ring, 1);
    ArenaGrows(h, h', h.live, 0);
    ArenaGrows(h, h', h.chunks, 0);
    WithChunkLists(h, h', c);
    assert Partition(h') by { WithChunkSums(h, c); }
  }

  lemma WithChunkInv(h: Heap, units: nat)
    requires Inv(h) && 0 < units && CoreInRange(h, units)
    requires Brk(h.end, h.cap, 8 * units, false).Granted?
    ensures var o := Brk(h.end, h.cap, 8 * units, false);
            o.start == h.end && o.end == h.end + 8 * units && Inv(WithChunk(h, units, o.end, o.cap))
  {
    BrkMeaning(h.end, h.cap, 8 * units, false);
    var o := Brk(h.end, h.cap, 8 * units, false);
    WithChunkKeeps(h, units, o.end, o.cap);
  }

  /** `morecore`: a chunk of at least NALLOC units from `sbrk`, freed into the ring. */
  ghost function Grow(h: Heap, need: nat): Option<Heap>
    requires Inv(h) && 0 < need && CoreInRange(h, CoreUnits(need))
  {
    match Brk(h.end, h.cap, 8 * CoreUnits(need), false)
    case Crashed => None
    case Granted(_, e, c) =>
      WithChunkInv(h, CoreUnits(need));
      ReleaseInv(WithChunk(h, CoreUnits(need), e, c), |h.live|);
      Some(Release(WithChunk(h, CoreUnits(need), e, c), |h.live|))
  }

  /** What growth takes from `sbrk`, in plain numbers: one chunk at the old break, of the units needed but at least 1024
      of them; the break moves past it, and nothing else is taken or given back. */
  lemma GrowTakes(h: Heap, need: nat)
    requires Inv(h) && 0 < need && CoreInRange(h, CoreUnits(need))
    ensures var units: nat := if need < 1024 then 1024 else need;
            match Grow(h, need)
            case None => h.end + 8 * units >= 0x400_0000
            case Some(h') =>
              h'.chunks == h.chunks + [Block(h.end, units)] && h'.end == h.end + 8 * units < 0x400_0000
  {
    BrkMeaning(h.end, h.cap, 8 * CoreUnits(need), false);
    if Grow(h, need).Some? {
      WithChunkInv(h, CoreUnits(need));
    }
  }

  lemma GrowInv(h: Heap, need: nat)
    requires Inv(h) && 0 < need && CoreInRange(h, CoreUnits(need)) && Grow(h, need).Some?
    ensures var h' := Grow(h, need).value; Inv(h') && h'.live == h.live && h'.tables == h.tables
  {
    var o := Brk(h.end, h.cap, 8 * CoreUnits(need), false);
    WithChunkInv(h, CoreUnits(need));
    var h1 := WithChunk(h, CoreUnits(need), o.end, o.cap);
    ReleaseInv(h1, |h.live|);
    assert h1.live[..|h.live|] + h1.live[|h.live| + 1..] == h.live;
  }

  lemma AbsorbHolds(ring: seq<Block>, g: nat, b: Block)
    requires g < |ring|
    ensures exists j :: 0 <= j < |Absorb(ring, g, b)| && Absorb(ring, g, b)[j].units >= b.units
  {
    var r1 := Insert(ring, g + 1, b);
    var r2 := MergeAt(r1, g + 1);
    assert r2[g + 1].units >= b.units;
    var r := Absorb(ring, g, b);
    assert r == MergeAt(r2, g);
    if r2[g].End() == r2[g + 1].addr {
      assert Absorb(ring, g, b)[g].units >= b.units;
    } else {
      assert Absorb(ring, g, b)[g + 1].units >= b.units;
    }
  }

  /** A place found by the walk, as `Take` wants it. */
  lemma FitPlace(h: Heap, need: nat)
    requires RingOk(h) && 0 < need && NextFit(h.ring, h.cur, need).Some?
    ensures var i := NextFit(h.ring, h.cur, need).value; 1 <= i < |h.ring| && need <= h.ring[i].units
  {
    NextFitFinds(h.ring, h.cur, need);
  }

  /** After growth the walk cannot come back empty-handed, merged chunk or not. */
  lemma GrowFits(h: Heap, need: nat)
    requires Inv(h) && 0 < need && CoreInRange(h, CoreUnits(need)) && Grow(h, need).Some?
    ensures var h' := Grow(h, need).value;
            && Inv(h')
            && NextFit(h'.ring, h'.cur, need).Some?
            && 1 <= NextFit(h'.ring, h'.cur, need).value < |h'.ring|
            && h'.ring[NextFit(h'.ring, h'.cur, need).value].units >= need
  {
    GrowInv(h, need);
    var h' := Grow(h, need).value;
    var c := Block(h.end, CoreUnits(need));
    WithChunkInv(h, CoreUnits(need));
    AbsorbHolds(h.ring, Gap(h.ring, h.end), c);
    assert h'.ring == Absorb(h.ring, Gap(h.ring, h.end), c);
    NextFitFinds(h'.ring, h'.cur, need);
    assert NextFit(h'.ring, h'.cur, need).Some?;
    FitPlace(h', need);
  }

  // ---------------------------------------------------------------- the operations and their runs

  ghost function Malloc(h: Heap, size: nat): Option<Heap>
    requires Inv(h) && CoreInRange(h, CoreUnits(NeedFor(size)))
  {
    var need := NeedFor(size);
    match NextFit(h.ring, h.cur, need)
    case Some(i) =>
      FitPlace(h, need);
      Some(Take(h, i, need))
    case None =>
      match Grow(h, need)
      case None => None
      case Some(h') =>
        GrowFits(h, need);
        Some(Take(h', NextFit(h'.ring, h'.cur, need).value, need))
  }

  /** The units asked for have room for `size` bytes exactly when rounding up does not wrap. */
  lemma NeedHasRoom(size: nat)
    requires size < WORD
    ensures size <= 8 * (NeedFor(size) - 1) <==> size + HEADER - 1 < WORD
    ensures 8 * (NeedFor(size) - 1) < size + HEADER
  {
  }

  lemma MallocHits(h: Heap, size: nat)
    requires Inv(h) && CoreInRange(h, CoreUnits(NeedFor(size))) && Malloc(h, size).Some?
    ensures var h' := Malloc(h, size).value;
            && Inv(h') && |h'.live| == |h.live| + 1 && h'.live[..|h.live|] == h.live && h'.tables == h.tables
            && h'.live[|h.live|].units == NeedFor(size)
  {
    var need := NeedFor(size);
    if NextFit(h.ring, h.cur, need).Some? {
      FitPlace(h, need);
      TakeInv(h, NextFit(h.ring, h.cur, need).value, need);
    } else {
      GrowFits(h, need);
      GrowInv(h, need);
      var h' := Grow(h, need).value;
      TakeInv(h', NextFit(h'.ring, h'.cur, need).value, need);
    }
  }

  /** Place `i` is the first after place `cur`, in ring order, whose block has the units; `cur` itself comes last. */
  ghost predicate FirstAfter(cur: nat, i: nat, ring: seq<Block>, need: nat) {
    && i < |ring| && ring[i].units >= need
    && (forall k :: 0 <= k < |ring| && (if cur < i then cur < k < i else cur < k || k < i) ==> ring[k].units < need)
  }

  lemma OneIsFirst(cur: nat, i: nat, j: nat, ring: seq<Block>, need: nat)
    requires FirstAfter(cur, i, ring, need) && FirstAfter(cur, j, ring, need)
    ensures i == j
  {
  }

  lemma FitIsFirst(ring: seq<Block>, cur: nat, need: nat)
    requires cur < |ring| && NextFit(ring, cur, need).Some?
    ensures FirstAfter(cur, NextFit(ring, cur, need).value, ring, need)
  {
    hide NextFit;
    NextFitFinds(ring, cur, need);
    var j := NextFit(ring, cur, need).value;
    forall k | 0 <= k < |ring| && (if cur < j then cur < k < j else cur < k || k < j)
      ensures ring[k].units < need
    {
      assert Steps(Next(cur, |ring|), k, |ring|) < Steps(Next(cur, |ring|), j, |ring|);
    }
  }

  /** Which block `malloc` takes, and how much of it: of the ring as it is, the first after `freep` that has the units
      for the size, an 8-byte header included. */
  lemma MallocTakes(h: Heap, size: nat, i: nat)
    requires Inv(h) && size < WORD && CoreInRange(h, CoreUnits(NeedFor(size)))
    requires FirstAfter(h.cur, i, h.ring, (size + 7) % 0x1_0000_0000 / 8 + 1)
    ensures 1 <= i && Malloc(h, size) == Some(Take(h, i, (size + 7) % 0x1_0000_0000 / 8 + 1))
  {
    var need := NeedFor(size);
    NextFitFinds(h.ring, h.cur, need);
    FitPlace(h, need);
    FitIsFirst(h.ring, h.cur, need);
    OneIsFirst(h.cur, i, NextFit(h.ring, h.cur, need).value, h.ring, need);
  }

  /** Only when no block has them does it take more memory, and then the first block of the ring after growth. */
  lemma MallocGrows(h: Heap, size: nat)
    requires Inv(h) && size < WORD && CoreInRange(h, CoreUnits(NeedFor(size)))
    requires forall k :: 0 <= k < |h.ring| ==> h.ring[k].units < NeedFor(size)
    ensures match Grow(h, NeedFor(size))
            case None => Malloc(h, size) == None
            case Some(h') =>
              exists i {:trigger FirstAfter(h'.cur, i, h'.ring, NeedFor(size))} ::
                && 1 <= i && FirstAfter(h'.cur, i, h'.ring, NeedFor(size))
                && Malloc(h, size) == Some(Take(h', i, NeedFor(size)))
  {
    var need := NeedFor(size);
    NextFitFinds(h.ring, h.cur, need);
    if Grow(h, need).Some? {
      var h' := Grow(h, need).value;
      GrowFits(h, need);
      FitIsFirst(h'.ring, h'.cur, need);
    }
  }

  /** `malloc` keeps the invariant, keeps every live block, and hands out one more. It has room for `size` bytes
      exactly when rounding the size up does not wrap. */
  lemma MallocInv(h: Heap, size: nat)
    requires Inv(h) && size < WORD && CoreInRange(h, CoreUnits(NeedFor(size))) && Malloc(h, size).Some?
    ensures var h' := Malloc(h, size).value;
            && Inv(h') && |h'.live| == |h.live| + 1 && h'.live[..|h.live|] == h.live && h'.tables == h.tables
            && (size <= 8 * (h'.live[|h.live|].units - 1) <==> size + HEADER - 1 < WORD)
            && 8 * (h'.live[|h.live|].units - 1) < size + HEADER
  {
    NeedHasRoom(size);
    MallocHits(h, size);
  }

  lemma NeedWraps()
    ensures NeedFor(0xFFFF_FFFF) == 1 && 0xFFFF_FFFF < WORD
  {
  }

  /** The largest size: it wraps, and the block handed out is a header alone. */
  lemma MallocHuge(h: Heap)
    requires Inv(h) && CoreInRange(h, CoreUnits(NeedFor(0xFFFF_FFFF))) && Malloc(h, 0xFFFF_FFFF).Some?
    ensures var h' := Malloc(h, 0xFFFF_FFFF).value;
            Inv(h') && |h'.live| == |h.live| + 1 && h'.live[|h.live|].units == 1
  {
    hide *;
    NeedWraps();
    MallocHits(h, 0xFFFF_FFFF);
  }

  /** A page-aligned `sbrk` outside the allocator. */
  function TakeTable(h: Heap, size: nat): Option<Heap>
    requires IsCap(h.cap)
  {
    match Brk(h.end, h.cap, size, true)
    case Crashed => None
    case Granted(s, e, c) => Some(h.(end := e, cap := c, tables := h.tables + [Region(s, s + size)]))
  }

  lemma PageIsWords(a: nat)
    requires a % PAGE == 0
    ensures a % 4 == 0
  {
    assert a == 4 * (a / PAGE * 0x400);
  }

  lemma TableRegion(end: nat, cap: nat, size: nat)
    requires IsCap(cap) && end % 4 == 0 && size % 4 == 0 && PageUp(end) + size < WORD
    requires Brk(end, cap, size, true).Granted?
    ensures var o := Brk(end, cap, size, true);
            && end <= o.start && o.start % PAGE == 0 && o.end == o.start + size && o.end % 4 == 0
            && o.end < o.cap && IsCap(o.cap)
  {
    hide Brk, PageUp;
    BrkMeaning(end, cap, size, true);
    PageIsWords(PageUp(end));
  }

  lemma TakeTableLists(h: Heap, h': Heap, r: Region)
    requires ChunksOk(h) && TablesOk(h) && h.floor <= h.end <= r.lo <= r.hi <= h'.end && r.lo % PAGE == 0
    requires h'.floor == h.floor && h'.chunks == h.chunks && h'.tables == h.tables + [r]
    requires AllInArena(h', h.chunks, 0)
    ensures ChunksOk(h') && TablesOk(h')
  {
    forall c, t | 0 <= c < |h'.chunks| && 0 <= t < |h'.tables| ensures Clear(h'.chunks[c], h'.tables[t]) {
      assert InArena(h, h.chunks[c]);
      if t < |h.tables| { assert Clear(h.chunks[c], h.tables[t]); }
    }
    forall t | 0 <= t < |h'.tables|
      ensures h'.floor <= h'.tables[t].lo <= h'.tables[t].hi <= h'.end && h'.tables[t].lo % PAGE == 0
    {
      if t < |h.tables| { assert h.tables[t].hi <= h.end; }
    }
  }

  lemma TakeTableKeeps(h: Heap, r: Region, end: nat, cap: nat)
    requires Inv(h) && h.end <= r.lo <= r.hi == end < cap && IsCap(cap) && end % 4 == 0 && r.lo % PAGE == 0
    ensures Inv(h.(end := end, cap := cap, tables := h.tables + [r]))
  {
    var h' := h.(end := end, cap := cap, tables := h.tables + [r]);
    ArenaGrows(h, h', h.ring, 1);
    ArenaGrows(h, h', h.live, 0);
    ArenaGrows(h, h', h.chunks, 0);
    TakeTableLists(h, h', r);
    assert Partition(h');
  }

  lemma TakeTableInv(h: Heap, size: nat)
    requires Inv(h) && size % 4 == 0 && PageUp(h.end) + size < WORD && TakeTable(h, size).Some?
    ensures var h' := TakeTable(h, size).value;
            && Inv(h') && h'.ring == h.ring && h'.live == h.live
            && h.end <= h'.tables[|h.tables|].lo
  {
    var o := Brk(h.end, h.cap, size, true);
    TableRegion(h.end, h.cap, size);
    hide Inv, Brk, PageUp;
    var r := Region(o.start, o.start + size);
    TakeTableKeeps(h, r, o.end, o.cap);
    assert TakeTable(h, size).value == h.(end := o.end, cap := o.cap, tables := h.tables + [r]);
  }

  datatype Op = OpMalloc(size: nat) | OpFree(k: nat) | OpTable(size: nat)

  /** What the callers owe: sizes of 32 bits and no wrap of the break, only live blocks freed, whole words of tables. */
  predicate Legal(h: Heap, op: Op) {
    match op
    case OpMalloc(size) => size < WORD && CoreInRange(h, CoreUnits(NeedFor(size)))
    case OpFree(k) => k < |h.live|
    case OpTable(size) => size % 4 == 0 && PageUp(h.end) + size < WORD
  }

  /** One operation; None when the machine halts. */
  ghost function Step(h: Heap, op: Op): Option<Heap>
    requires Inv(h) && Legal(h, op)
  {
    match op
    case OpMalloc(size) => Malloc(h, size)
    case OpFree(k) => ReleaseInv(h, k); Some(Release(h, k))
    case OpTable(size) => TakeTable(h, size)
  }

  lemma StepInv(h: Heap, op: Op)
    requires Inv(h) && Legal(h, op) && Step(h, op).Some?
    ensures Inv(Step(h, op).value)
  {
    match op
    case OpMalloc(size) => MallocInv(h, size);
    case OpFree(k) => ReleaseInv(h, k);
    case OpTable(size) => TakeTableInv(h, size);
  }

  /** `h'` is where the legal operations `ops` lead from `h`. */
  ghost predicate Leads(h: Heap, ops: seq<Op>, h': Heap)
    decreases |ops|
  {
    if ops == [] then h' == h
    else Inv(h) && Legal(h, ops[0]) && Step(h, ops[0]).Some? && Leads(Step(h, ops[0]).value, ops[1..], h')
  }

  lemma {:induction false} LeadsInv(h: Heap, ops: seq<Op>, h': Heap)
    requires Inv(h) && Leads(h, ops, h')
    ensures Inv(h')
    decreases |ops|
  {
    if ops != [] {
      StepInv(h, ops[0]);
      LeadsInv(Step(h, ops[0]).value, ops[1..], h');
    }
  }

  lemma {:induction false} HoldersOfApart(s: seq<Block>, a: int)
    requires AllApart(s)
    ensures Holders(s, a) == if exists i :: 0 <= i < |s| && s[i].Has(a) then 1 else 0
  {
    if s != [] {
      assert AllApart(s[1..]) by {
        forall i, j | 0 <= i < j < |s[1..]| ensures Apart(s[1..][i], s[1..][j]) { assert Apart(s[i + 1], s[j + 1]); }
      }
      HoldersOfApart(s[1..], a);
      assert forall i :: 0 <= i < |s[1..]| ==> s[1..][i] == s[i + 1];
      if s[0].Has(a) {
        forall i | 0 <= i < |s[1..]| ensures !s[1..][i].Has(a) { assert Apart(s[0], s[i + 1]); }
      } else if i :| 0 <= i < |s| && s[i].Has(a) {
        assert s[1..][i - 1].Has(a);
      }
    }
  }

  /** In every reachable state: each byte `morecore` ever obtained lies in exactly one block, free or
      live, and no other byte lies in any; units are conserved; no table byte lies in a block; and no
      two free blocks touch. */
  lemma RunsKeepPartition(base: nat, floor: nat, ops: seq<Op>, h: Heap)
    requires 0 < base && base % 4 == 0 && base + HEADER <= floor < CAP_FIRST && floor % 4 == 0
    requires Leads(Initial(base, floor), ops, h)
    ensures forall a :: Holders(h.ring, a) + Holders(h.live, a) ==
                        if exists c :: 0 <= c < |h.chunks| && h.chunks[c].Has(a) then 1 else 0
    ensures Units(h.ring) + Units(h.live) == Units(h.chunks)
    ensures forall t, a :: 0 <= t < |h.tables| && h.tables[t].Has(a) ==> Holders(h.ring, a) + Holders(h.live, a) == 0
    ensures forall i, j :: 1 <= i < |h.ring| && 1 <= j < |h.ring| ==> h.ring[i].End() != h.ring[j].addr
    ensures h.end < h.cap <= CAP_LIMIT
  {
    InitialInv(base, floor);
    LeadsInv(Initial(base, floor), ops, h);
    forall a ensures Holders(h.ring, a) + Holders(h.live, a) ==
                     if exists c :: 0 <= c < |h.chunks| && h.chunks[c].Has(a) then 1 else 0 {
      HoldersOfApart(h.chunks, a);
    }
    forall t, a | 0 <= t < |h.tables| && h.tables[t].Has(a) ensures Holders(h.ring, a) + Holders(h.live, a) == 0 {
      forall c | 0 <= c < |h.chunks| ensures !h.chunks[c].Has(a) { assert Clear(h.chunks[c], h.tables[t]); }
    }
    forall i, j | 1 <= i < |h.ring| && 1 <= j < |h.ring| ensures h.ring[i].End() != h.ring[j].addr {
      assert InArena(h, h.ring[i]) && InArena(h, h.ring[j]);
      if j < i { assert h.ring[j].End() < h.ring[i].addr; }
    }
  }
}
