/** The heap as a value: what the free ring, the live blocks and the regions obtained from `sbrk`
    are, what each allocator operation makes of them, and the invariant they keep. */
module HeapModel {
  import opened Sbrk

  const NALLOC := 1024

  /** A block of `units` header-sized units; the first one is its header. */
  datatype Block = Block(addr: int, units: nat) {
    function End(): int { addr + 8 * units }

    predicate Has(a: int) { addr <= a < End() }
  }

  /** A stretch of bytes taken from `sbrk` directly, as the page tables are. */
  datatype Region = Region(lo: int, hi: int) {
    predicate Has(a: int) { lo <= a < hi }
  }

  /** `ring` is the free list in address order, with the zero-size header `base` first; the list is
      circular, and `freep` is `ring[cur]`.  `live` are the blocks handed out, `chunks` what
      `morecore` obtained, `tables` what was taken from `sbrk` directly; all are above `floor`. */
  datatype Heap = Heap(ring: seq<Block>, cur: nat, live: seq<Block>, chunks: seq<Block>, tables: seq<Region>,
                       floor: nat, end: nat, cap: nat)

  // ---------------------------------------------------------------- bytes and units

  /** How many blocks of `s` the byte at address `a` lies in. */
  function Holders(s: seq<Block>, a: int): nat {
    if s == [] then 0 else (if s[0].Has(a) then 1 else 0) + Holders(s[1..], a)
  }

  function Units(s: seq<Block>): nat {
    if s == [] then 0 else s[0].units + Units(s[1..])
  }

  lemma {:induction false} SumConcat(s: seq<Block>, t: seq<Block>, a: int)
    ensures Holders(s + t, a) == Holders(s, a) + Holders(t, a)
    ensures Units(s + t) == Units(s) + Units(t)
  {
    if s == [] {
      assert s + t == t;
    } else {
      assert (s + t)[1..] == s[1..] + t;
      SumConcat(s[1..], t, a);
    }
  }

  lemma SumOne(b: Block, a: int)
    ensures Holders([b], a) == if b.Has(a) then 1 else 0
    ensures Units([b]) == b.units
  {
    assert [b][1..] == [];
  }

  /** Taking the element at `i` out of a sequence takes away just its share of bytes and units. */
  lemma SumWithout(s: seq<Block>, i: nat, a: int)
    requires i < |s|
    ensures Holders(s, a) == Holders(s[..i] + s[i + 1..], a) + Holders([s[i]], a)
    ensures Units(s) == Units(s[..i] + s[i + 1..]) + s[i].units
  {
    assert s == s[..i] + ([s[i]] + s[i + 1..]);
    SumConcat(s[..i], [s[i]] + s[i + 1..], a);
    SumConcat([s[i]], s[i + 1..], a);
    SumConcat(s[..i], s[i + 1..], a);
    SumOne(s[i], a);
  }

  // ---------------------------------------------------------------- the invariant

  ghost predicate Apart(b: Block, c: Block) {
    b.End() <= c.addr || c.End() <= b.addr
  }

  ghost predicate AllApart(s: seq<Block>) {
    forall i, j {:trigger Apart(s[i], s[j])} :: 0 <= i < j < |s| ==> Apart(s[i], s[j])
  }

  /** In address order without overlap; blocks may touch only a direct neighbour, and only
      at the places lo <= i < hi. */
  ghost predicate Sorted(ring: seq<Block>, lo: int, hi: int) {
    forall i, j {:trigger ring[i].End(), ring[j].addr} :: 0 <= i < j < |ring| ==>
      ring[i].End() <= ring[j].addr && (ring[i].End() == ring[j].addr ==> lo <= i < hi && j == i + 1)
  }

  /** In address order, and no two blocks touch: the ring is fully coalesced. */
  ghost predicate Ascending(ring: seq<Block>) {
    Sorted(ring, 0, 0)
  }

  /** A ring starts with the zero-size header; all its other blocks hold something. */
  ghost predicate Headed(ring: seq<Block>) {
    && 0 < |ring| && ring[0].units == 0
    && (forall i :: 1 <= i < |ring| ==> 0 < ring[i].units && ring[0].addr + HEADER <= ring[i].addr)
  }

  ghost predicate InArena(h: Heap, b: Block) {
    0 < b.units && h.floor <= b.addr && b.End() <= h.end && b.addr % 4 == 0
  }

  ghost predicate AllInArena(h: Heap, s: seq<Block>, from: nat) {
    forall i {:trigger InArena(h, s[i])} :: from <= i < |s| ==> InArena(h, s[i])
  }

  ghost predicate RingOk(h: Heap) {
    && h.cur < |h.ring|
    && h.ring[0].units == 0 && 0 < h.ring[0].addr && h.ring[0].addr % 4 == 0
    && h.ring[0].addr + HEADER <= h.floor
    && Ascending(h.ring)
    && AllInArena(h, h.ring, 1)
  }

  /** `b` is off every proper block of the ring. */
  ghost predicate OffRing(ring: seq<Block>, b: Block) {
    forall i {:trigger Apart(ring[i], b)} :: 1 <= i < |ring| ==> Apart(ring[i], b)
  }

  ghost predicate LiveOk(h: Heap) {
    && AllInArena(h, h.live, 0) && AllApart(h.live)
    && (forall k {:trigger OffRing(h.ring, h.live[k])} :: 0 <= k < |h.live| ==> OffRing(h.ring, h.live[k]))
  }

  ghost predicate Clear(b: Block, t: Region) {
    b.End() <= t.lo || t.hi <= b.addr
  }

  ghost predicate ChunksOk(h: Heap) {
    && AllInArena(h, h.chunks, 0) && AllApart(h.chunks)
    && (forall c, t {:trigger Clear(h.chunks[c], h.tables[t])} ::
          0 <= c < |h.chunks| && 0 <= t < |h.tables| ==> Clear(h.chunks[c], h.tables[t]))
  }

  ghost predicate TablesOk(h: Heap) {
    && (forall t :: 0 <= t < |h.tables| ==>
          h.floor <= h.tables[t].lo <= h.tables[t].hi <= h.end && h.tables[t].lo % PAGE == 0)
    && (forall s, t :: 0 <= s < t < |h.tables| ==> h.tables[s].hi <= h.tables[t].lo)
  }

  /** Free and live blocks tile exactly what `morecore` obtained, byte for byte and unit for unit. */
  ghost predicate Partition(h: Heap) {
    && (forall a :: Holders(h.ring, a) + Holders(h.live, a) == Holders(h.chunks, a))
    && Units(h.ring) + Units(h.live) == Units(h.chunks)
  }

  ghost predicate Inv(h: Heap) {
    && IsCap(h.cap) && h.floor <= h.end < h.cap && h.end % 4 == 0
    && RingOk(h) && LiveOk(h) && ChunksOk(h) && TablesOk(h) && Partition(h)
  }

  function Initial(base: nat, floor: nat): Heap {
    Heap([Block(base, 0)], 0, [], [], [], floor, floor, CAP_FIRST)
  }

  lemma InitialInv(base: nat, floor: nat)
    requires 0 < base && base % 4 == 0 && base + HEADER <= floor < CAP_FIRST && floor % 4 == 0
    ensures Inv(Initial(base, floor))
  {
    var h := Initial(base, floor);
    forall a ensures Holders(h.ring, a) == 0 {
      SumOne(h.ring[0], a);
    }
    SumOne(h.ring[0], 0);
  }

  // ---------------------------------------------------------------- putting a block on the ring

  /** The place after which address `a` belongs: the last ring index whose address is below `a`. */
  function Gap(ring: seq<Block>, a: int): (g: nat)
    requires |ring| > 0 && ring[0].addr < a
    ensures g < |ring| && ring[g].addr < a
  {
    if ring[|ring| - 1].addr < a then |ring| - 1 else Gap(ring[..|ring| - 1], a)
  }

  lemma {:induction false} GapIsGap(ring: seq<Block>, a: int)
    requires |ring| > 0 && ring[0].addr < a && Ascending(ring)
    ensures forall i :: 0 <= i < |ring| ==> (i <= Gap(ring, a) <==> ring[i].addr < a)
  {
    var n := |ring| - 1;
    if ring[n].addr < a {
      assert forall i :: 0 <= i < n ==> ring[i].End() <= ring[n].addr;
    } else {
      assert Ascending(ring[..n]);
      GapIsGap(ring[..n], a);
      assert forall i :: 0 <= i < n ==> ring[i] == ring[..n][i];
    }
  }

  function Insert(ring: seq<Block>, i: nat, b: Block): seq<Block>
    requires i <= |ring|
  {
    ring[..i] + [b] + ring[i..]
  }

  /** Merge the blocks at `i` and `i + 1` when they touch. */
  function MergeAt(ring: seq<Block>, i: nat): seq<Block> {
    if i + 1 < |ring| && ring[i].End() == ring[i + 1].addr then
      ring[..i] + [Block(ring[i].addr, ring[i].units + ring[i + 1].units)] + ring[i + 2..]
    else
      ring
  }

  lemma PairReplaced(s: seq<Block>, i: nat, x: Block)
    requires i + 1 < |s|
    ensures var r := s[..i] + [x] + s[i + 2..];
            && |r| == |s| - 1 && r[i] == x
            && (forall k :: 0 <= k < |r| && k != i ==> r[k] == s[if k < i then k else k + 1])
  {
  }

  lemma MergedAt(ring: seq<Block>, i: nat)
    requires i + 1 < |ring| && ring[i].End() == ring[i + 1].addr
    ensures var r := MergeAt(ring, i);
            && |r| == |ring| - 1 && r[i] == Block(ring[i].addr, ring[i].units + ring[i + 1].units)
            && r[i].End() == ring[i + 1].End()
            && (forall k :: 0 <= k < |r| && k != i ==> r[k] == ring[if k < i then k else k + 1])
  {
    PairReplaced(ring, i, Block(ring[i].addr, ring[i].units + ring[i + 1].units));
  }

  /** Put `b` after `ring[g]`, then merge it with the upper and the lower neighbour. */
  function Absorb(ring: seq<Block>, g: nat, b: Block): seq<Block>
    requires g < |ring|
  {
    MergeAt(MergeAt(Insert(ring, g + 1, b), g + 1), g)
  }

  /** `b` overlaps nothing on the ring, and its place by address is right after `ring[g]`. */
  ghost predicate Belongs(ring: seq<Block>, g: nat, b: Block) {
    && Headed(ring) && Ascending(ring) && g < |ring|
    && 0 < b.units && ring[0].addr + HEADER <= b.addr && OffRing(ring, b)
    && (forall i :: 0 <= i < |ring| ==> (i <= g <==> ring[i].addr < b.addr))
  }

  lemma BelongsOrder(ring: seq<Block>, g: nat, b: Block, i: nat)
    requires Belongs(ring, g, b) && i < |ring|
    ensures i <= g ==> ring[i].End() <= b.addr && (ring[i].End() == b.addr ==> i == g)
    ensures g < i ==> b.End() <= ring[i].addr && (b.End() == ring[i].addr ==> i == g + 1)
  {
    if 1 <= i { assert Apart(ring[i], b); }
    if i < g { assert ring[i].End() < ring[g].addr; }
    if g + 1 < i {
      assert Apart(ring[g + 1], b);
      assert ring[g + 1].End() < ring[i].addr;
    }
  }

  lemma InsertAt(ring: seq<Block>, i: nat, b: Block)
    requires i <= |ring|
    ensures |Insert(ring, i, b)| == |ring| + 1
    ensures forall k :: 0 <= k < |ring| + 1 ==>
              Insert(ring, i, b)[k] == if k < i then ring[k] else if k == i then b else ring[k - 1]
  {
  }

  lemma InsertHeaded(ring: seq<Block>, g: nat, b: Block)
    requires Headed(ring) && g < |ring| && 0 < b.units && ring[0].addr + HEADER <= b.addr
    ensures Headed(Insert(ring, g + 1, b))
  {
    InsertAt(ring, g + 1, b);
  }

  lemma InsertPair(ring: seq<Block>, g: nat, b: Block, i: nat, j: nat)
    requires Belongs(ring, g, b) && i < j < |ring| + 1
    ensures var r := Insert(ring, g + 1, b);
            r[i].End() <= r[j].addr && (r[i].End() == r[j].addr ==> g <= i < g + 2 && j == i + 1)
  {
    InsertAt(ring, g + 1, b);
    if j == g + 1 {
      BelongsOrder(ring, g, b, i);
    } else if i == g + 1 {
      BelongsOrder(ring, g, b, j - 1);
    }
  }

  lemma InsertSorted(ring: seq<Block>, g: nat, b: Block)
    requires Belongs(ring, g, b)
    ensures Headed(Insert(ring, g + 1, b)) && Sorted(Insert(ring, g + 1, b), g, g + 2)
  {
    var r := Insert(ring, g + 1, b);
    InsertHeaded(ring, g, b);
    forall i, j | 0 <= i < j < |r|
      ensures r[i].End() <= r[j].addr && (r[i].End() == r[j].addr ==> g <= i < g + 2 && j == i + 1)
    {
      InsertPair(ring, g, b, i, j);
    }
  }

  lemma MergeSorted(ring: seq<Block>, lo: int, i: nat)
    requires Headed(ring) && Sorted(ring, lo, i + 1) && lo <= i
    ensures Headed(MergeAt(ring, i)) && Sorted(MergeAt(ring, i), lo, i)
  {
    var r := MergeAt(ring, i);
    if i + 1 < |ring| && ring[i].End() == ring[i + 1].addr {
      assert i > 0;
      assert forall k :: 0 <= k < i ==> r[k] == ring[k];
      assert r[i].addr == ring[i].addr && r[i].End() == ring[i + 1].End();
      assert forall k :: i < k < |r| ==> r[k] == ring[k + 1];
      forall k, l | 0 <= k < l < |r|
        ensures r[k].End() <= r[l].addr && (r[k].End() == r[l].addr ==> lo <= k < i && l == k + 1)
      {
        var k' := if k < i then k else k + 1;
        var l' := if l <= i then l else l + 1;
        assert ring[k'].End() <= ring[l'].addr && r[k].End() == ring[k'].End() && r[l].addr == ring[l'].addr;
      }
    }
  }

  lemma HeadStays(ring: seq<Block>, i: nat)
    requires Headed(ring) && Sorted(ring, i, i + 1) && i < |ring|
    ensures var r := MergeAt(ring, i); i < |r| && r[..i] == ring[..i] && r[i].addr == ring[i].addr && r[0] == ring[0]
  {
    var r := MergeAt(ring, i);
    if i == 0 {
      assert |ring| > 1 ==> ring[0].End() < ring[1].addr;
    } else {
      assert r[..i] == ring[..i];
      assert r[0] == r[..i][0];
    }
  }

  /** The new ring is in order and fully coalesced, the base still heads it, and the block that
      precedes `b` keeps its place and address. */
  lemma AbsorbAscending(ring: seq<Block>, g: nat, b: Block)
    requires Belongs(ring, g, b)
    ensures var r := Absorb(ring, g, b);
            && Headed(r) && Ascending(r) && g < |r|
            && r[..g] == ring[..g] && r[g].addr == ring[g].addr && r[0] == ring[0]
  {
    var r1 := Insert(ring, g + 1, b);
    var r2 := MergeAt(r1, g + 1);
    InsertSorted(ring, g, b);
    InsertAt(ring, g + 1, b);
    MergeSorted(r1, g, g + 1);
    MergeSorted(r2, g, g);
    assert r2[..g + 1] == r1[..g + 1];
    assert r2[..g + 1] == ring[..g + 1];
    hide MergeAt, Insert, Sorted;
    assert r2[g] == r2[..g + 1][g] == ring[g];
    assert r2[..g] == r2[..g + 1][..g] == ring[..g];
    HeadStays(r2, g);
  }

  lemma MergeSums(ring: seq<Block>, i: nat, a: int)
    ensures Holders(MergeAt(ring, i), a) == Holders(ring, a) && Units(MergeAt(ring, i)) == Units(ring)
  {
    if i + 1 < |ring| && ring[i].End() == ring[i + 1].addr {
      var m := Block(ring[i].addr, ring[i].units + ring[i + 1].units);
      var pair := [ring[i], ring[i + 1]];
      assert ring == ring[..i] + (pair + ring[i + 2..]);
      SumConcat(ring[..i], pair + ring[i + 2..], a);
      SumConcat(pair, ring[i + 2..], a);
      assert pair == [ring[i]] + [ring[i + 1]];
      SumConcat([ring[i]], [ring[i + 1]], a);
      SumOne(ring[i], a);
      SumOne(ring[i + 1], a);
      SumOne(m, a);
      assert MergeAt(ring, i) == ring[..i] + ([m] + ring[i + 2..]);
      SumConcat(ring[..i], [m] + ring[i + 2..], a);
      SumConcat([m], ring[i + 2..], a);
    }
  }

  /** The new ring holds the bytes and units of the old one and of `b`, each as often. */
  lemma AbsorbSums(ring: seq<Block>, g: nat, b: Block, a: int)
    requires g < |ring|
    ensures Holders(Absorb(ring, g, b), a) == Holders(ring, a) + Holders([b], a)
    ensures Units(Absorb(ring, g, b)) == Units(ring) + b.units
  {
    var r1 := Insert(ring, g + 1, b);
    SumWithout(r1, g + 1, a);
    assert r1[..g + 1] + r1[g + 2..] == ring;
    MergeSums(r1, g + 1, a);
    MergeSums(MergeAt(r1, g + 1), g, a);
  }

  lemma MergeOff(ring: seq<Block>, i: nat, x: Block)
    requires Headed(ring) && OffRing(ring, x) && 0 < x.units && 0 < i
    ensures OffRing(MergeAt(ring, i), x)
  {
    var r := MergeAt(ring, i);
    if i + 1 < |ring| && ring[i].End() == ring[i + 1].addr {
      forall k | 1 <= k < |r| ensures Apart(r[k], x) {
        assert k != i ==> r[k] == ring[if k < i then k else k + 1];
        assert Apart(ring[i], x) && Apart(ring[i + 1], x);
      }
    }
  }

  /** What was off the ring and off `b` is off the new ring. */
  lemma AbsorbOff(ring: seq<Block>, g: nat, b: Block, x: Block)
    requires Belongs(ring, g, b)
    requires 0 < x.units && Apart(b, x) && OffRing(ring, x)
    ensures OffRing(Absorb(ring, g, b), x)
  {
    var r1 := Insert(ring, g + 1, b);
    var r2 := MergeAt(r1, g + 1);
    InsertSorted(ring, g, b);
    InsertAt(ring, g + 1, b);
    MergeSorted(r1, g, g + 1);
    MergeOff(r1, g + 1, x);
    if g > 0 {
      MergeOff(r2, g, x);
    } else {
      assert r2[0] == ring[0] && r2[0].End() != r2[1].addr;
    }
  }

  lemma MergeInArena(h: Heap, ring: seq<Block>, i: nat)
    requires AllInArena(h, ring, 1) && 0 < i
    ensures AllInArena(h, MergeAt(ring, i), 1)
  {
    var r := MergeAt(ring, i);
    if i + 1 < |ring| && ring[i].End() == ring[i + 1].addr {
      forall k | 1 <= k < |r| ensures InArena(h, r[k]) {
        assert k != i ==> r[k] == ring[if k < i then k else k + 1];
        assert InArena(h, ring[i]) && InArena(h, ring[i + 1]);
      }
    }
  }

  lemma AbsorbInArena(h: Heap, ring: seq<Block>, g: nat, b: Block)
    requires Belongs(ring, g, b)
    requires AllInArena(h, ring, 1) && InArena(h, b)
    ensures AllInArena(h, Absorb(ring, g, b), 1)
  {
    var r1 := Insert(ring, g + 1, b);
    var r2 := MergeAt(r1, g + 1);
    InsertSorted(ring, g, b);
    InsertAt(ring, g + 1, b);
    MergeSorted(r1, g, g + 1);
    MergeInArena(h, r1, g + 1);
    if g > 0 {
      MergeInArena(h, r2, g);
    } else {
      assert r2[0] == ring[0] && r2[0].End() != r2[1].addr;
    }
  }
}
