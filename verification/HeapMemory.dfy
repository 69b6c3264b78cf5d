/** How a heap value lies in memory: block headers threaded into a circular list.  Memory is a
    sequence indexed by byte address; the 32-bit word at a 4-aligned address is the cell there. */
module HeapMemory {
  import opened Sbrk
  import opened HeapModel
  import opened HeapOps

  function Word(m: seq<int>, a: int): int {
    if 0 <= a < |m| then m[a] else 0
  }

  /** The header of `ring[i]` holds the address of the next block round the ring, and its own size. */
  ghost predicate HasLink(m: seq<int>, ring: seq<Block>, i: int) {
    0 <= i < |ring| ==>
      && Word(m, ring[i].addr) == ring[Next(i, |ring|)].addr
      && Word(m, ring[i].addr + 4) == ring[i].units
  }

  ghost predicate Linked(m: seq<int>, ring: seq<Block>) {
    forall i {:trigger HasLink(m, ring, i)} :: HasLink(m, ring, i)
  }

  ghost predicate Sized(m: seq<int>, live: seq<Block>) {
    forall k :: 0 <= k < |live| ==> Word(m, live[k].addr + 4) == live[k].units
  }

  /** All headers of the ring lie within [lo, hi), and no two overlap. */
  ghost predicate Spread(ring: seq<Block>, lo: int, hi: int) {
    && (forall i :: 0 <= i < |ring| ==> lo <= ring[i].addr && ring[i].addr + HEADER <= hi)
    && (forall i, j :: 0 <= i < j < |ring| ==> ring[i].addr + HEADER <= ring[j].addr)
  }

  lemma SortedIsSpread(ring: seq<Block>, lo: int, hi: int, bottom: int, top: int)
    requires Headed(ring) && Sorted(ring, lo, hi)
    requires bottom <= ring[0].addr && ring[0].addr + HEADER <= top
    requires forall i :: 1 <= i < |ring| ==> ring[i].End() <= top
    ensures Spread(ring, bottom, top)
  {
    forall i, j | 0 <= i < j < |ring| ensures ring[i].addr + HEADER <= ring[j].addr {
      if i > 0 { assert ring[i].End() <= ring[j].addr; }
    }
  }

  // ---------------------------------------------------------------- following the list

  /** Where `t` steps along the `ptr` fields lead from address `a`. */
  function Follow(m: seq<int>, a: int, t: nat): int {
    if t == 0 then a else Word(m, Follow(m, a, t - 1))
  }

  lemma {:induction false} FollowRing(m: seq<int>, ring: seq<Block>, cur: nat, t: nat)
    requires Linked(m, ring) && cur < |ring| && t <= |ring|
    ensures Follow(m, ring[cur].addr, t) == ring[if cur + t < |ring| then cur + t else cur + t - |ring|].addr
  {
    if t > 0 {
      FollowRing(m, ring, cur, t - 1);
      var i := if cur + t - 1 < |ring| then cur + t - 1 else cur + t - 1 - |ring|;
      assert HasLink(m, ring, i);
    }
  }

  lemma DistinctAddresses(h: Heap, i: nat, j: nat)
    requires RingOk(h) && i < |h.ring| && j < |h.ring|
    ensures i < j ==> h.ring[i].addr < h.ring[j].addr
    ensures j < i ==> h.ring[j].addr < h.ring[i].addr
  {
    if i < j { assert h.ring[i].End() < h.ring[j].addr; }
    if j < i { assert h.ring[j].End() < h.ring[i].addr; }
  }

  /** Following `ptr` from `freep` for as many steps as there are blocks comes back to `freep`; on the
      way it meets each block, the base included, at exactly one step. */
  lemma RingIsOneCycle(m: seq<int>, h: Heap, i: nat)
    requires Inv(h) && Linked(m, h.ring) && i < |h.ring|
    ensures var a := h.ring[h.cur].addr;
            var s := if h.cur <= i then i - h.cur else i - h.cur + |h.ring|;
            && Follow(m, a, |h.ring|) == a
            && s < |h.ring| && Follow(m, a, s) == h.ring[i].addr
            && forall t :: 0 <= t < |h.ring| && Follow(m, a, t) == h.ring[i].addr ==> t == s
  {
    var n := |h.ring|;
    var a := h.ring[h.cur].addr;
    var s := if h.cur <= i then i - h.cur else i - h.cur + n;
    FollowRing(m, h.ring, h.cur, n);
    FollowRing(m, h.ring, h.cur, s);
    forall t | 0 <= t < n && Follow(m, a, t) == h.ring[i].addr ensures t == s {
      FollowRing(m, h.ring, h.cur, t);
      var j := if h.cur + t < n then h.cur + t else h.cur + t - n;
      DistinctAddresses(h, i, j);
    }
  }

  /** Round the ring, addresses rise at every link but exactly one: the link back to the base. */
  lemma OneDescent(m: seq<int>, h: Heap, i: nat)
    requires Inv(h) && Linked(m, h.ring) && i < |h.ring|
    ensures Word(m, h.ring[i].addr) <= h.ring[i].addr <==> i == |h.ring| - 1
  {
    assert HasLink(m, h.ring, i);
    if i + 1 < |h.ring| { DistinctAddresses(h, i, i + 1); } else { DistinctAddresses(h, 0, i); }
  }

  // ---------------------------------------------------------------- linking and merging

  /** Linking `b` in after `ring[g]`: two stores. */
  function LinkIn(m: seq<int>, ring: seq<Block>, g: nat, b: Block): seq<int>
    requires g < |ring| && 0 <= b.addr < |m| && 0 <= ring[g].addr < |m|
  {
    m[b.addr := ring[Next(g, |ring|)].addr][ring[g].addr := b.addr]
  }

  lemma LinkInCells(m: seq<int>, ring: seq<Block>, g: nat, b: Block)
    requires g < |ring| && 0 <= b.addr < |m| && 0 <= ring[g].addr < |m| && b.addr != ring[g].addr
    ensures var m' := LinkIn(m, ring, g, b);
            && Word(m', b.addr) == ring[Next(g, |ring|)].addr && Word(m', ring[g].addr) == b.addr
            && forall a :: a != b.addr && a != ring[g].addr ==> Word(m', a) == Word(m, a)
  {
  }

  lemma SpreadAt(ring: seq<Block>, lo: int, hi: int, i: nat, j: nat)
    requires Spread(ring, lo, hi) && i < |ring| && j < |ring|
    ensures lo <= ring[i].addr && ring[i].addr + HEADER <= hi
    ensures i < j ==> ring[i].addr + HEADER <= ring[j].addr
    ensures j < i ==> ring[j].addr + HEADER <= ring[i].addr
  {
  }

  lemma LinkInLinks(m: seq<int>, ring: seq<Block>, g: nat, b: Block, i: nat)
    requires g < |ring| && Linked(m, ring) && Word(m, b.addr + 4) == b.units
    requires Spread(Insert(ring, g + 1, b), 0, |m|) && i < |ring| + 1
    ensures 0 <= b.addr < |m| && 0 <= ring[g].addr < |m|
    ensures HasLink(LinkIn(m, ring, g, b), Insert(ring, g + 1, b), i)
  {
    hide Spread;
    var r := Insert(ring, g + 1, b);
    InsertAt(ring, g + 1, b);
    SpreadAt(r, 0, |m|, i, g);
    SpreadAt(r, 0, |m|, i, g + 1);
    SpreadAt(r, 0, |m|, g, g + 1);
    SpreadAt(r, 0, |m|, g + 1, i);
    LinkInCells(m, ring, g, b);
    if i != g + 1 {
      assert HasLink(m, ring, if i <= g then i else i - 1);
    }
  }

  lemma LinkInLinked(m: seq<int>, ring: seq<Block>, g: nat, b: Block)
    requires g < |ring| && Linked(m, ring) && Word(m, b.addr + 4) == b.units
    requires Spread(Insert(ring, g + 1, b), 0, |m|)
    ensures 0 <= b.addr < |m| && 0 <= ring[g].addr < |m|
    ensures Linked(LinkIn(m, ring, g, b), Insert(ring, g + 1, b))
  {
    LinkInLinks(m, ring, g, b, 0);
    InsertAt(ring, g + 1, b);
    var m', r := LinkIn(m, ring, g, b), Insert(ring, g + 1, b);
    forall i ensures HasLink(m', r, i) {
      if 0 <= i < |ring| + 1 { LinkInLinks(m, ring, g, b, i); }
    }
  }

  /** Merging `ring[i + 1]` into `ring[i]`: two stores into the header of the latter. */
  function MergeIn(m: seq<int>, ring: seq<Block>, i: nat): seq<int>
    requires i < |ring| && 0 <= ring[i].addr && ring[i].addr + 4 < |m|
  {
    if i + 1 < |ring| && ring[i].End() == ring[i + 1].addr then
      m[ring[i].addr + 4 := ring[i].units + ring[i + 1].units][ring[i].addr := Word(m, ring[i + 1].addr)]
    else
      m
  }

  lemma MergeInCells(m: seq<int>, ring: seq<Block>, i: nat)
    requires i + 1 < |ring| && ring[i].End() == ring[i + 1].addr && 0 <= ring[i].addr && ring[i].addr + 4 < |m|
    ensures var m' := MergeIn(m, ring, i);
            && Word(m', ring[i].addr) == Word(m, ring[i + 1].addr)
            && Word(m', ring[i].addr + 4) == ring[i].units + ring[i + 1].units
            && forall a :: a != ring[i].addr && a != ring[i].addr + 4 ==> Word(m', a) == Word(m, a)
  {
  }

  lemma MergeInLinks(m: seq<int>, ring: seq<Block>, i: nat, k: nat)
    requires i + 1 < |ring| && ring[i].End() == ring[i + 1].addr && k < |ring| - 1
    requires Linked(m, ring) && Spread(ring, 0, |m|)
    ensures 0 <= ring[i].addr && ring[i].addr + 4 < |m|
    ensures HasLink(MergeIn(m, ring, i), MergeAt(ring, i), k)
  {
    hide Spread, MergeAt, MergeIn;
    var k' := if k <= i then k else k + 1;
    SpreadAt(ring, 0, |m|, i, k');
    SpreadAt(ring, 0, |m|, k', i + 1);
    MergedAt(ring, i);
    assert HasLink(m, ring, k') && HasLink(m, ring, i + 1);
    MergeInCells(m, ring, i);
  }

  lemma MergeInLinked(m: seq<int>, ring: seq<Block>, i: nat)
    requires i < |ring| && Linked(m, ring) && Spread(ring, 0, |m|)
    ensures 0 <= ring[i].addr && ring[i].addr + 4 < |m|
    ensures Linked(MergeIn(m, ring, i), MergeAt(ring, i))
  {
    SpreadAt(ring, 0, |m|, i, i);
    if i + 1 < |ring| && ring[i].End() == ring[i + 1].addr {
      MergedAt(ring, i);
      var m', r := MergeIn(m, ring, i), MergeAt(ring, i);
      forall k ensures HasLink(m', r, k) {
        if 0 <= k < |ring| - 1 { MergeInLinks(m, ring, i, k); }
      }
    }
  }

  /** The ring with `b` inserted, and with `b` merged upwards, lie apart in memory. */
  ghost predicate RoomFor(m: seq<int>, ring: seq<Block>, g: nat, b: Block) {
    && g < |ring|
    && Spread(Insert(ring, g + 1, b), 0, |m|)
    && Spread(MergeAt(Insert(ring, g + 1, b), g + 1), 0, |m|)
  }

  lemma RoomAt(m: seq<int>, ring: seq<Block>, g: nat, b: Block)
    requires RoomFor(m, ring, g, b)
    ensures 0 <= b.addr && b.addr + HEADER <= |m| && 0 <= ring[g].addr && ring[g].addr + HEADER <= |m|
    ensures var r2 := MergeAt(Insert(ring, g + 1, b), g + 1);
            g + 1 < |r2| && r2[g] == ring[g] && r2[g + 1].addr == b.addr
  {
    var r1 := Insert(ring, g + 1, b);
    InsertAt(ring, g + 1, b);
    SpreadAt(r1, 0, |m|, g, g + 1);
    SpreadAt(r1, 0, |m|, g + 1, g);
    if g + 2 < |r1| && r1[g + 1].End() == r1[g + 2].addr { MergedAt(r1, g + 1); }
  }

  /** All that `free` stores, as linking in and two merges. */
  ghost function AbsorbIn(m: seq<int>, ring: seq<Block>, g: nat, b: Block): seq<int>
    requires RoomFor(m, ring, g, b)
  {
    RoomAt(m, ring, g, b);
    InsertAt(ring, g + 1, b);
    var r1 := Insert(ring, g + 1, b);
    MergeIn(MergeIn(LinkIn(m, ring, g, b), r1, g + 1), MergeAt(r1, g + 1), g)
  }

  lemma AbsorbLinked(m: seq<int>, ring: seq<Block>, g: nat, b: Block)
    requires RoomFor(m, ring, g, b) && Linked(m, ring) && Word(m, b.addr + 4) == b.units
    ensures Linked(AbsorbIn(m, ring, g, b), Absorb(ring, g, b))
  {
    assert Spread(Insert(ring, g + 1, b), 0, |m|) && Spread(MergeAt(Insert(ring, g + 1, b), g + 1), 0, |m|);
    hide Spread, Linked, MergeAt, MergeIn, Insert, LinkIn;
    RoomAt(m, ring, g, b);
    var r1 := Insert(ring, g + 1, b);
    InsertAt(ring, g + 1, b);
    LinkInLinked(m, ring, g, b);
    var m1 := LinkIn(m, ring, g, b);
    MergeInLinked(m1, r1, g + 1);
    MergeInLinked(MergeIn(m1, r1, g + 1), MergeAt(r1, g + 1), g);
  }

  lemma MergeEnds(ring: seq<Block>, i: nat, top: int)
    requires 0 < |ring| && 0 < i && forall k :: 1 <= k < |ring| ==> ring[k].End() <= top
    ensures var r := MergeAt(ring, i);
            0 < |r| && r[0] == ring[0] && forall k :: 1 <= k < |r| ==> r[k].End() <= top
  {
    if i + 1 < |ring| && ring[i].End() == ring[i + 1].addr { MergedAt(ring, i); }
  }

  lemma BelongsRoom(m: seq<int>, ring: seq<Block>, g: nat, b: Block)
    requires Belongs(ring, g, b) && 0 <= ring[0].addr && b.End() <= |m| && ring[0].addr + HEADER <= |m|
    requires forall i :: 1 <= i < |ring| ==> ring[i].End() <= |m|
    ensures RoomFor(m, ring, g, b)
  {
    var r1 := Insert(ring, g + 1, b);
    InsertSorted(ring, g, b);
    InsertAt(ring, g + 1, b);
    SortedIsSpread(r1, g, g + 2, 0, |m|);
    MergeSorted(r1, g, g + 1);
    MergeEnds(r1, g + 1, |m|);
    SortedIsSpread(MergeAt(r1, g + 1), g, g + 1, 0, |m|);
  }

  /** Merging, whether it happens or not, stores into one header only. */
  lemma MergeInCell(m: seq<int>, ring: seq<Block>, i: nat, a: int)
    requires i < |ring| && 0 <= ring[i].addr && ring[i].addr + 4 < |m|
    ensures |MergeIn(m, ring, i)| == |m|
    ensures Word(MergeIn(m, ring, i), a) != Word(m, a) ==> a == ring[i].addr || a == ring[i].addr + 4
  {
    if i + 1 < |ring| && ring[i].End() == ring[i + 1].addr {
      MergeInCells(m, ring, i);
    }
  }

  lemma LinkInCell(m: seq<int>, ring: seq<Block>, g: nat, b: Block, a: int)
    requires g < |ring| && 0 <= b.addr < |m| && 0 <= ring[g].addr < |m|
    ensures |LinkIn(m, ring, g, b)| == |m|
    ensures Word(LinkIn(m, ring, g, b), a) != Word(m, a) ==> a == b.addr || a == ring[g].addr
  {
  }

  lemma AbsorbCells(m: seq<int>, ring: seq<Block>, g: nat, b: Block, a: int)
    requires RoomFor(m, ring, g, b)
    ensures |AbsorbIn(m, ring, g, b)| == |m|
    ensures Word(AbsorbIn(m, ring, g, b), a) != Word(m, a) ==>
              a == b.addr || a == b.addr + 4 || a == ring[g].addr || a == ring[g].addr + 4
  {
    RoomAt(m, ring, g, b);
    InsertAt(ring, g + 1, b);
    var r1 := Insert(ring, g + 1, b);
    var m1, r2 := LinkIn(m, ring, g, b), MergeAt(r1, g + 1);
    hide RoomFor, Word, LinkIn, MergeIn, MergeAt, Insert;
    LinkInCell(m, ring, g, b, a);
    MergeInCell(m1, r1, g + 1, a);
    MergeInCell(MergeIn(m1, r1, g + 1), r2, g, a);
  }

  /** Memory after the first test of `free`: the block at `bp` gets its link, over the block at `q` if they touch. */
  function JoinedUp(m: seq<int>, q: int, bp: int): seq<int>
    requires 0 <= bp < |m| - 4
  {
    if bp + 8 * m[bp + 4] == q then m[bp + 4 := m[bp + 4] + Word(m, q + 4)][bp := Word(m, q)]
    else m[bp := q]
  }

  /** Memory after the second test: the block at `p` gets its link, over the block at `bp` if they touch. */
  function JoinedDown(m: seq<int>, p: int, bp: int): seq<int>
    requires 0 <= p < |m| - 4 && 0 <= bp < |m| - 4
  {
    if p + 8 * m[p + 4] == bp then m[p + 4 := m[p + 4] + m[bp + 4]][p := m[bp]]
    else m[p := bp]
  }

  function Joined(m: seq<int>, p: int, bp: int): seq<int>
    requires 0 <= p < |m| - 4 && 0 <= bp < |m| - 4
  {
    JoinedDown(JoinedUp(m, m[p], bp), p, bp)
  }

  lemma JoinedUpIsMerge(m: seq<int>, ring: seq<Block>, r1: seq<Block>, g: nat, b: Block)
    requires g < |ring| && |r1| == |ring| + 1 && r1[g + 1] == b && (g + 1 < |ring| ==> r1[g + 2] == ring[g + 1])
    requires 0 <= ring[g].addr && ring[g].addr + HEADER <= b.addr && b.addr + HEADER <= |m| && ring[0].addr < b.addr
    requires m[ring[g].addr] == ring[Next(g, |ring|)].addr && m[b.addr + 4] == b.units
    requires g + 1 < |ring| ==>
               Word(m, ring[g + 1].addr + 4) == ring[g + 1].units && b.addr + HEADER <= ring[g + 1].addr
    ensures MergeIn(LinkIn(m, ring, g, b), r1, g + 1) == JoinedUp(m, m[ring[g].addr], b.addr)[ring[g].addr := b.addr]
  {
    var p, q, bp := ring[g].addr, m[ring[g].addr], b.addr;
    if g + 1 < |ring| && b.End() == q {
      var u, v := b.units + ring[g + 1].units, Word(m, q);
      assert MergeIn(LinkIn(m, ring, g, b), r1, g + 1) == m[bp := q][p := bp][bp + 4 := u][bp := v];
      assert JoinedUp(m, q, bp) == m[bp + 4 := u][bp := v];
      assert m[bp := q][p := bp][bp + 4 := u][bp := v] == m[bp + 4 := u][bp := v][p := bp];
    }
  }

  lemma JoinedDownIsMerge(m: seq<int>, r2: seq<Block>, g: nat, p: int, bp: int)
    requires g + 1 < |r2| && r2[g].addr == p && r2[g + 1].addr == bp
    requires 0 <= p && p + HEADER <= bp && bp + HEADER <= |m|
    requires m[p + 4] == r2[g].units && m[bp + 4] == r2[g + 1].units
    ensures MergeIn(m[p := bp], r2, g) == JoinedDown(m, p, bp)
  {
    if r2[g].End() == bp {
      var u, v := m[p + 4] + m[bp + 4], m[bp];
      assert MergeIn(m[p := bp], r2, g) == m[p := bp][p + 4 := u][p := v];
      assert m[p := bp][p + 4 := u][p := v] == m[p + 4 := u][p := v];
    }
  }

  /** What the headers around the gap hold before anything is stored. */
  lemma HeadersAtGap(m: seq<int>, ring: seq<Block>, g: nat, b: Block)
    requires RoomFor(m, ring, g, b) && Linked(m, ring) && Word(m, b.addr + 4) == b.units
    ensures 0 <= ring[g].addr && ring[g].addr + HEADER <= b.addr && b.addr + HEADER <= |m|
    ensures m[ring[g].addr] == ring[Next(g, |ring|)].addr && m[b.addr + 4] == b.units
    ensures g + 1 < |ring| ==> Word(m, ring[g + 1].addr + 4) == ring[g + 1].units && b.addr + HEADER <= ring[g + 1].addr
    ensures var r1 := Insert(ring, g + 1, b);
            |r1| == |ring| + 1 && r1[g + 1] == b && (g + 1 < |ring| ==> r1[g + 2] == ring[g + 1])
  {
    var r1 := Insert(ring, g + 1, b);
    assert Spread(r1, 0, |m|);
    assert HasLink(m, ring, g);
    assert g + 1 < |ring| ==> HasLink(m, ring, g + 1);
    hide Spread, Linked, Insert, RoomFor;
    InsertAt(ring, g + 1, b);
    SpreadAt(r1, 0, |m|, g, g + 1);
    SpreadAt(r1, 0, |m|, g + 1, g + 1);
    if g + 1 < |ring| {
      SpreadAt(r1, 0, |m|, g + 1, g + 2);
    }
  }

  /** What they hold after linking in and merging upwards. */
  lemma HeadersMerged(m: seq<int>, ring: seq<Block>, g: nat, b: Block)
    requires RoomFor(m, ring, g, b) && Linked(m, ring) && Word(m, b.addr + 4) == b.units
    ensures 0 <= ring[g].addr < |m| && 0 <= b.addr < |m| && g + 1 < |Insert(ring, g + 1, b)|
    ensures 0 <= Insert(ring, g + 1, b)[g + 1].addr && Insert(ring, g + 1, b)[g + 1].addr + 4 < |m|
    ensures var r1 := Insert(ring, g + 1, b);
            var m2, r2 := MergeIn(LinkIn(m, ring, g, b), r1, g + 1), MergeAt(r1, g + 1);
            && |m2| == |m| && g + 1 < |r2| && r2[g].addr == ring[g].addr && r2[g + 1].addr == b.addr
            && Word(m2, ring[g].addr + 4) == r2[g].units && Word(m2, b.addr + 4) == r2[g + 1].units
  {
    var r1 := Insert(ring, g + 1, b);
    RoomAt(m, ring, g, b);
    InsertAt(ring, g + 1, b);
    assert Spread(r1, 0, |m|);
    hide Spread, RoomFor;
    SpreadAt(r1, 0, |m|, g + 1, g + 1);
    LinkInLinked(m, ring, g, b);
    MergeInLinked(LinkIn(m, ring, g, b), r1, g + 1);
    var m2, r2 := MergeIn(LinkIn(m, ring, g, b), r1, g + 1), MergeAt(r1, g + 1);
    hide LinkIn, MergeAt, Insert;
    assert HasLink(m2, r2, g) && HasLink(m2, r2, g + 1);
  }

  lemma JoinedIsMerges(m: seq<int>, ring: seq<Block>, r1: seq<Block>, r2: seq<Block>, g: nat, b: Block)
    requires g < |ring| && |r1| == |ring| + 1 && r1[g + 1] == b && (g + 1 < |ring| ==> r1[g + 2] == ring[g + 1])
    requires 0 <= ring[g].addr && ring[g].addr + HEADER <= b.addr && b.addr + HEADER <= |m| && ring[0].addr < b.addr
    requires m[ring[g].addr] == ring[Next(g, |ring|)].addr && m[b.addr + 4] == b.units
    requires g + 1 < |ring| ==>
               Word(m, ring[g + 1].addr + 4) == ring[g + 1].units && b.addr + HEADER <= ring[g + 1].addr
    requires g + 1 < |r2| && r2[g].addr == ring[g].addr && r2[g + 1].addr == b.addr
    requires var m2 := MergeIn(LinkIn(m, ring, g, b), r1, g + 1);
             m2[ring[g].addr + 4] == r2[g].units && m2[b.addr + 4] == r2[g + 1].units
    ensures Joined(m, ring[g].addr, b.addr) == MergeIn(MergeIn(LinkIn(m, ring, g, b), r1, g + 1), r2, g)
  {
    var u := JoinedUp(m, m[ring[g].addr], b.addr);
    JoinedUpIsMerge(m, ring, r1, g, b);
    JoinedDownIsMerge(u, r2, g, ring[g].addr, b.addr);
  }

  /** Those stores are linking in and merging with either neighbour. */
  lemma JoinedIsAbsorb(m: seq<int>, ring: seq<Block>, g: nat, b: Block)
    requires RoomFor(m, ring, g, b) && Linked(m, ring) && Word(m, b.addr + 4) == b.units && ring[0].addr < b.addr
    ensures 0 <= b.addr && b.addr + HEADER <= |m| && 0 <= ring[g].addr && ring[g].addr + HEADER <= |m|
    ensures Joined(m, ring[g].addr, b.addr) == AbsorbIn(m, ring, g, b)
  {
    hide RoomFor, Linked, MergeAt, MergeIn, Insert, LinkIn, Joined;
    HeadersAtGap(m, ring, g, b);
    HeadersMerged(m, ring, g, b);
    var r1 := Insert(ring, g + 1, b);
    JoinedIsMerges(m, ring, r1, MergeAt(r1, g + 1), g, b);
  }

  // ---------------------------------------------------------------- unlinking and splitting

  /** Memory after `malloc` takes `need` units from the block at `p`, whose predecessor is at `prevp`. */
  function Carved(m: seq<int>, prevp: int, p: int, need: nat): seq<int>
    requires 0 <= prevp < |m| && 0 <= p < |m| - 4 && 0 < need <= m[p + 4] && p + 8 * (m[p + 4] - need) + 4 < |m|
  {
    if m[p + 4] == need then m[prevp := m[p]]
    else m[p + 4 := m[p + 4] - need][p + 8 * (m[p + 4] - need) + 4 := need]
  }

  /** What `malloc` stores when it takes `need` units from `ring[i]`. */
  function TakeIn(m: seq<int>, ring: seq<Block>, i: nat, need: nat): seq<int>
    requires 1 <= i < |ring| && need <= ring[i].units && Spread(ring, 0, |m|) && ring[i].End() <= |m| && 0 < need
  {
    SpreadAt(ring, 0, |m|, i, i - 1);
    SpreadAt(ring, 0, |m|, i - 1, i);
    if ring[i].units == need then m[ring[i - 1].addr := Word(m, ring[i].addr)]
    else m[ring[i].addr + 4 := ring[i].units - need][Given(ring[i], need).addr + 4 := need]
  }

  lemma TakeInCells(m: seq<int>, ring: seq<Block>, i: nat, need: nat)
    requires 1 <= i < |ring| && need <= ring[i].units && Spread(ring, 0, |m|) && ring[i].End() <= |m| && 0 < need
    ensures var m' := TakeIn(m, ring, i, need);
            && |m'| == |m|
            && (ring[i].units == need ==>
                  && Word(m', ring[i - 1].addr) == Word(m, ring[i].addr)
                  && forall a :: a != ring[i - 1].addr ==> Word(m', a) == Word(m, a))
            && (ring[i].units != need ==>
                  && Word(m', ring[i].addr + 4) == ring[i].units - need
                  && Word(m', Given(ring[i], need).addr + 4) == need
                  && forall a :: a != ring[i].addr + 4 && a != Given(ring[i], need).addr + 4 ==>
                       Word(m', a) == Word(m, a))
  {
    SpreadAt(ring, 0, |m|, i, i - 1);
    SpreadAt(ring, 0, |m|, i - 1, i);
  }

  lemma WithoutAt(ring: seq<Block>, i: nat, need: nat)
    requires i < |ring| && need <= ring[i].units
    ensures var r := RingWithout(ring, i, need);
            if ring[i].units == need then
              |r| == |ring| - 1 && forall k :: 0 <= k < |r| ==> r[k] == ring[if k < i then k else k + 1]
            else
              |r| == |ring| && r[i] == Block(ring[i].addr, ring[i].units - need)
              && forall k :: 0 <= k < |r| && k != i ==> r[k] == ring[k]
  {
  }

  lemma UnlinkLinks(m: seq<int>, ring: seq<Block>, i: nat, need: nat, k: nat)
    requires 1 <= i < |ring| && 0 < need == ring[i].units
    requires Linked(m, ring) && Spread(ring, 0, |m|) && ring[i].End() <= |m| && k < |ring| - 1
    ensures HasLink(TakeIn(m, ring, i, need), RingWithout(ring, i, need), k)
  {
    TakeInCells(m, ring, i, need);
    WithoutAt(ring, i, need);
    var k' := if k < i then k else k + 1;
    SpreadAt(ring, 0, |m|, k', i - 1);
    SpreadAt(ring, 0, |m|, i - 1, k');
    assert HasLink(m, ring, k') && HasLink(m, ring, i);
  }

  lemma SplitLinks(m: seq<int>, ring: seq<Block>, i: nat, need: nat, k: nat)
    requires Ascending(ring) && 1 <= i < |ring| && 0 < need < ring[i].units
    requires Linked(m, ring) && Spread(ring, 0, |m|) && ring[i].End() <= |m| && k < |ring|
    ensures HasLink(TakeIn(m, ring, i, need), RingWithout(ring, i, need), k)
  {
    TakeInCells(m, ring, i, need);
    WithoutAt(ring, i, need);
    SpreadAt(ring, 0, |m|, k, i);
    SpreadAt(ring, 0, |m|, i, k);
    assert i < k ==> ring[i].End() < ring[k].addr;
    assert HasLink(m, ring, k);
    var x, m' := ring[k].addr, TakeIn(m, ring, i, need);
    assert Word(m', x) == Word(m, x);
    assert k != i ==> Word(m', x + 4) == Word(m, x + 4);
    assert RingWithout(ring, i, need)[Next(k, |ring|)].addr == ring[Next(k, |ring|)].addr;
  }

  lemma TakeLinked(m: seq<int>, ring: seq<Block>, i: nat, need: nat)
    requires Ascending(ring) && 1 <= i < |ring| && 0 < need <= ring[i].units
    requires Linked(m, ring) && Spread(ring, 0, |m|) && ring[i].End() <= |m|
    ensures Linked(TakeIn(m, ring, i, need), RingWithout(ring, i, need))
  {
    var m', r := TakeIn(m, ring, i, need), RingWithout(ring, i, need);
    forall k ensures HasLink(m', r, k) {
      if 0 <= k < |r| {
        if ring[i].units == need { UnlinkLinks(m, ring, i, need, k); } else { SplitLinks(m, ring, i, need, k); }
      }
    }
  }

  // ---------------------------------------------------------------- what stays untouched

  lemma HoldersAt(s: seq<Block>, i: nat, a: int)
    requires i < |s| && s[i].Has(a)
    ensures Holders(s, a) >= 1
  {
    SumWithout(s, i, a);
    SumOne(s[i], a);
  }

  /** The cell at `a` belongs to the allocator: the base header or a free block. */
  ghost predicate Own(h: Heap, a: int) {
    |h.ring| > 0 && (h.ring[0].addr <= a < h.ring[0].addr + HEADER || Holders(h.ring, a) >= 1)
  }

  /** The allocator's own cells are in no live block and in no table. */
  lemma OwnIsPrivate(h: Heap, a: int)
    requires Inv(h) && Own(h, a)
    ensures forall k :: 0 <= k < |h.live| ==> !h.live[k].Has(a)
    ensures forall t :: 0 <= t < |h.tables| ==> !h.tables[t].Has(a)
  {
    HoldersOfApart(h.chunks, a);
    forall k | 0 <= k < |h.live| ensures !h.live[k].Has(a) {
      assert InArena(h, h.live[k]);
      if h.live[k].Has(a) { HoldersAt(h.live, k, a); }
    }
    forall t | 0 <= t < |h.tables| ensures !h.tables[t].Has(a) {
      forall c | 0 <= c < |h.chunks| && h.tables[t].Has(a) ensures !h.chunks[c].Has(a) {
        assert Clear(h.chunks[c], h.tables[t]);
      }
    }
  }
}
