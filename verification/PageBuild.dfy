/** The second half of `mm_create_mmap`, over the kernel's memory: page directory and tables taken from `sbrk`. */
module PageBuild {
  import opened Wrappers

  import opened HeapMemory
  import opened HeapModel
  import opened HeapOps
  import opened KernelHeap
  import opened MemoryMap
  import opened PageTables
  import opened Sbrk

  // ---------------------------------------------------------------- when there is room for them

  /** A 4 MiB stretch with a marked MiB among those below `upto`. */
  ghost predicate Marked(phys: seq<nat>, upto: nat, d: int) {
    exists m :: 4 * d <= m < 4 * d + 4 && 0 <= m < upto && m < |phys| && phys[m] != 0
  }

  /** The stretches that need a table. */
  ghost function Stretches(phys: seq<nat>, upto: nat): set<int> {
    set d | 0 <= d < 1024 && Marked(phys, upto, d)
  }

  /** The break after the directory at `dir` and `n` tables. */
  function EndAfter(dir: nat, n: nat): nat {
    if n == 0 then dir + DIRECTORY_SIZE else PageUp(dir + DIRECTORY_SIZE) + TABLE_SIZE * n
  }

  /** Building for these marks halts, from this break on: it does not fit below the greatest cap. */
  ghost predicate Halts(end: nat, phys: seq<nat>) {
    var dir, n := PageUp(end), |Stretches(phys, SLOTS)|;
    dir + DIRECTORY_SIZE >= CAP_LIMIT || (n > 0 && PageUp(dir + DIRECTORY_SIZE) + TABLE_SIZE * n >= CAP_LIMIT)
  }

  /** The same in plain numbers, for a directory of 8196 bytes and tables of 4096, all below 64 MiB. */
  lemma HaltsInNumbers(end: nat, phys: seq<nat>)
    ensures var dir, n := (end + 4095) / 4096 * 4096, |Stretches(phys, 4096)|;
            Halts(end, phys) <==> dir + 8196 >= 0x400_0000 || (n > 0 && dir + 3 * 4096 + 4096 * n >= 0x400_0000)
  {
    PageUpIsCeiling(end);
    PageUpIsCeiling(PageUp(end) + 8196);
  }

  lemma StretchesMeans(phys: seq<nat>, d: int)
    requires |phys| == 4096
    ensures d in Stretches(phys, 4096) <==>
            0 <= d < 1024 && (phys[4 * d] != 0 || phys[4 * d + 1] != 0 || phys[4 * d + 2] != 0 || phys[4 * d + 3] != 0)
  {
    if 0 <= d < 1024 {
      assert Marked(phys, 4096, d) <==> exists m :: 4 * d <= m < 4 * d + 4 && phys[m] != 0;
    }
  }

  lemma Fewer(s: set<int>, t: set<int>)
    requires s <= t
    ensures |s| <= |t|
  {
    assert s + (t - s) == t;
  }

  function Below(n: nat): (r: set<int>)
    ensures |r| == n && forall d :: d in r <==> 0 <= d < n
  {
    if n == 0 then {} else Below(n - 1) + {n - 1}
  }

  /** There is always room while the break is below 16 MiB. */
  lemma NeverHalts(end: nat, phys: seq<nat>)
    requires end < 0x100_0000
    ensures !Halts(end, phys)
  {
    Fewer(Stretches(phys, SLOTS), Below(1024));
  }

  /** One MiB more: one stretch more exactly if it is marked and no earlier one in its stretch is. */
  lemma NextStretch(phys: seq<nat>, i: nat)
    requires i < SLOTS == |phys|
    ensures Stretches(phys, i + 1) == if phys[i] != 0 then Stretches(phys, i) + {i / 4} else Stretches(phys, i)
    ensures |Stretches(phys, i)| <= |Stretches(phys, i + 1)| <= |Stretches(phys, SLOTS)|
  {
    var next := i + 1;
    forall d
      ensures Marked(phys, next, d) <==> Marked(phys, i, d) || (phys[i] != 0 && d == i / 4)
    {
      if phys[i] != 0 && d == i / 4 {
        assert 4 * d <= i < 4 * d + 4;
      }
    }
    Fewer(Stretches(phys, i), Stretches(phys, i + 1));
    Fewer(Stretches(phys, i + 1), Stretches(phys, SLOTS));
  }

  lemma NextEnd(dir: nat, n: nat)
    ensures PageUp(EndAfter(dir, n)) + TABLE_SIZE == EndAfter(dir, n + 1)
    ensures EndAfter(dir, n) < EndAfter(dir, n + 1)
  {
  }

  lemma HaltsIsEnd(end: nat, phys: seq<nat>)
    ensures Halts(end, phys) <==> EndAfter(PageUp(end), |Stretches(phys, SLOTS)|) >= CAP_LIMIT
  {
    hide Stretches;
  }

  /** What does not fit by MiB `i` does not fit at all. */
  lemma HaltsAt(end: nat, phys: seq<nat>, i: nat)
    requires i < SLOTS == |phys| && EndAfter(PageUp(end), |Stretches(phys, i + 1)|) >= CAP_LIMIT
    ensures Halts(end, phys)
  {
    hide Stretches, PageUp;
    NextStretch(phys, i);
  }

  // ---------------------------------------------------------------- taking and entering tables

  /** Stores above the break disturb neither the free ring nor the live blocks. */
  lemma AboveKeeps(m: seq<int>, m': seq<int>, h: Heap)
    requires Inv(h) && Linked(m, h.ring) && Sized(m, h.live) && SameBelow(m, m', h.end)
    ensures Linked(m', h.ring) && Sized(m', h.live)
  {
    forall i ensures HasLink(m', h.ring, i) {
      assert HasLink(m, h.ring, i);
      if 0 <= i < |h.ring| { RingInMemory(h, i); }
    }
    forall k | 0 <= k < |h.live| ensures Word(m', h.live[k].addr + 4) == h.live[k].units {
      assert InArena(h, h.live[k]);
    }
  }

  /** `memset` to 0 over [lo, lo + size). */
  method Clear(mem: array<int>, lo: nat, size: nat)
    requires lo + size <= mem.Length
    modifies mem
    ensures forall a :: lo <= a < lo + size ==> mem[a] == 0
    ensures forall a :: 0 <= a < mem.Length && !(lo <= a < lo + size) ==> mem[a] == old(mem[a])
  {
    for a := lo to lo + size
      invariant forall b :: lo <= b < a ==> mem[b] == 0
      invariant forall b :: 0 <= b < mem.Length && !(lo <= b < a) ==> mem[b] == old(mem[b])
    {
      mem[a] := 0;
    }
  }

  lemma RegionHalts(h: Heap, size: nat)
    requires Inv(h) && size <= DIRECTORY_SIZE
    ensures TakeTable(h, size) == None <==> PageUp(h.end) + size >= CAP_LIMIT
    ensures TakeTable(h, size).Some? ==>
              var h' := TakeTable(h, size).value;
              h'.end == PageUp(h.end) + size && h' == h.(end := h'.end, cap := h'.cap, tables := h'.tables)
              && h'.tables == h.tables + [Region(PageUp(h.end), h'.end)]
  {
    hide Brk;
    BrkMeaning(h.end, h.cap, size, true);
  }

  lemma RegionInMemory(m: seq<int>, h: Heap, size: nat)
    requires Inv(h) && |m| >= CAP_LIMIT && size % 4 == 0 && size <= DIRECTORY_SIZE && TakeTable(h, size).Some?
    ensures Inv(TakeTable(h, size).value) && PageUp(h.end) + size < |m|
  {
    hide TakeTable, PageUp;
    RegionHalts(h, size);
    TakeTableInv(h, size);
  }

  /** A page-aligned region of `size` bytes, taken from `sbrk` and cleared; None is the halt in `_crash`. */
  method NewRegion(k: Kernel, size: nat) returns (r: Option<nat>)
    requires k.Valid() && size % 4 == 0 && size <= DIRECTORY_SIZE
    modifies k`heapEnd, k`heapCap, k`h, k.mem
    ensures r == None <==> PageUp(old(k.h.end)) + size >= CAP_LIMIT
    ensures r.Some? ==>
              && k.Valid() && TakeTable(old(k.h), size) == Some(k.h) && k.freep == old(k.freep)
              && r.value == PageUp(old(k.h.end)) && r.value + size == k.h.end <= |k.mem[..]| == |old(k.mem[..])|
              && k.h.ring == old(k.h.ring) && k.h.live == old(k.h.live)
    ensures r.Some? ==> forall a :: Word(k.mem[..], a) ==
                          if r.value <= a < r.value + size then 0 else Word(old(k.mem[..]), a)
  {
    ghost var h, m := k.h, k.mem[..];
    RegionHalts(h, size);
    r := k.Sbrk(size, true);
    if r.Some? {
      RegionInMemory(m, h, size);
      ghost var tables := TakeTable(h, size).value.tables;
      assert TakeTable(h, size).value == h.(end := k.heapEnd, cap := k.heapCap, tables := tables);
      Clear(k.mem, r.value, size);
      k.h := TakeTable(h, size).value;
      assert forall a :: 0 <= a < |m| ==> k.mem[..][a] == if r.value <= a < r.value + size then 0 else m[a];
      if k.freep != 0 { AboveKeeps(m, k.mem[..], h); }
    }
  }

  /** Where building stands before MiB `i`: `h0` was the heap before any table was taken. */
  ghost predicate Building(k: Kernel, h0: Heap, dir: nat, tabs: seq<nat>, phys: seq<nat>, i: nat)
    reads k, k.mem
  {
    && k.Valid() && Inv(h0) && dir == PageUp(h0.end) && k.h.ring == h0.ring && k.h.live == h0.live
    && k.h.end == EndAfter(dir, |Stretches(phys, i)|)
    && Built(k.mem[..], dir, tabs, phys, 256 * i, k.h.end)
    && (forall d {:trigger TableNeeded(tabs, phys, i, d)} :: TableNeeded(tabs, phys, i, d))
  }

  /** Stores into the tables keep the kernel's heap as it is. */
  lemma HeapUndisturbed(k: Kernel, m: seq<int>, h0: Heap)
    requires Inv(h0) && k.h.ring == h0.ring && k.h.live == h0.live && SameBelow(m, k.mem[..], h0.end)
    requires k.freep != 0 ==> Linked(m, h0.ring) && Sized(m, h0.live)
    ensures k.freep != 0 ==> Linked(k.mem[..], k.h.ring) && Sized(k.mem[..], k.h.live)
  {
    if k.freep != 0 { AboveKeeps(m, k.mem[..], h0); }
  }

  /** Enter table `t` for stretch `d` in the directory: the pointer, then the entry `t | 7`. */
  method EnterTable(mem: array<int>, dir: nat, d: nat, t: nat)
    requires d < 1024 && t % PAGE == 0 && dir + DIRECTORY_SIZE <= mem.Length
    modifies mem
    ensures |mem[..]| == |old(mem[..])|
    ensures forall a :: Word(mem[..], a) == if a == dir + 4 * d then t + 7
                                            else if a == dir + 4096 + 4 * d then t else Word(old(mem[..]), a)
  {
    var pointer, entry := dir + 4096 + 4 * d, t - t % 8 + 7;
    assert entry == t + 7;
    mem[pointer] := t;
    mem[dir + 4 * d] := entry;
    assert forall a :: 0 <= a < mem.Length ==>
             mem[a] == if a == dir + 4 * d then entry else if a == pointer then t else old(mem[a]);
  }

  /** A stretch has its table exactly when it has been met. */
  lemma MetBefore(tabs: seq<nat>, phys: seq<nat>, i: nat)
    requires i < SLOTS && TableNeeded(tabs, phys, i, i / 4)
    ensures |tabs| == 1024 && (tabs[i / 4] != 0 <==> i / 4 in Stretches(phys, i))
  {
  }

  /** The table for MiB `i`: nothing happens if it is there; otherwise it is allocated and entered in the directory,
      and false is the halt. */
  method EnsureTable(k: Kernel, ghost h0: Heap, dir: nat, phys: array<nat>, i: nat, ghost tabs: seq<nat>)
    returns (ok: bool, ghost tabs': seq<nat>)
    requires phys.Length == SLOTS && i < SLOTS && phys as object != k.mem as object
    requires Building(k, h0, dir, tabs, phys[..], i)
    modifies k`heapEnd, k`heapCap, k`h, k.mem
    ensures |tabs| == |tabs'| == 1024
    ensures tabs[i / 4] != 0 ==> ok && tabs' == tabs && k.h == old(k.h) && k.mem[..] == old(k.mem[..])
    ensures tabs[i / 4] == 0 ==> (ok <==> PageUp(old(k.h.end)) + TABLE_SIZE < CAP_LIMIT)
    ensures ok && tabs[i / 4] == 0 ==>
              tabs' == tabs[i / 4 := PageUp(old(k.h.end))] && k.h.end == PageUp(old(k.h.end)) + TABLE_SIZE
    ensures ok ==> k.Valid() && k.h.ring == h0.ring && k.h.live == h0.live && tabs'[i / 4] != 0
    ensures ok ==> Built(k.mem[..], dir, tabs', phys[..], 256 * i, k.h.end)
    ensures ok ==> SameBelow(old(k.mem[..]), k.mem[..], dir)
    ensures ok ==> Word(k.mem[..], dir + 8192) == Word(old(k.mem[..]), dir + 8192)
  {
    assert SlotOk(k.mem[..], dir, tabs, i / 4);
    ok, tabs' := true, tabs;
    if k.mem[dir + 4096 + 4 * (i / 4)] == 0 {
      ghost var m, end := k.mem[..], k.h.end;
      var t := NewRegion(k, TABLE_SIZE);
      if t == None {
        return false, tabs;
      }
      ghost var m1 := k.mem[..];
      EnterTable(k.mem, dir, i / 4, t.value);
      HeapUndisturbed(k, m1, h0);
      tabs' := tabs[i / 4 := t.value];
      TableAdded(m, k.mem[..], dir, tabs, phys[..], i, t.value, end, k.h.end);
    }
  }

  lemma DirectoryPlace(k: Kernel, h0: Heap, dir: nat, tabs: seq<nat>, phys: seq<nat>, i: nat)
    requires Building(k, h0, dir, tabs, phys, i)
    ensures dir % PAGE == 0 && h0.end <= dir == PageUp(h0.end) && k.h.end < CAP_LIMIT
  {
  }

  /** One round of the loop over the MiBs; false is the halt. */
  method MapMib(k: Kernel, ghost h0: Heap, dir: nat, phys: array<nat>, i: nat, ghost tabs: seq<nat>)
    returns (ok: bool, ghost tabs': seq<nat>)
    requires phys.Length == SLOTS && i < SLOTS && phys as object != k.mem as object
    requires Building(k, h0, dir, tabs, phys[..], i)
    modifies k`heapEnd, k`heapCap, k`h, k.mem
    ensures ok <==> EndAfter(dir, |Stretches(phys[..], i + 1)|) < CAP_LIMIT
    ensures ok ==> Building(k, h0, dir, tabs', phys[..], i + 1)
    ensures ok ==> SameBelow(old(k.mem[..]), k.mem[..], dir)
    ensures ok ==> Word(k.mem[..], dir + 8192) == Word(old(k.mem[..]), dir + 8192)
  {
    hide EndAfter, Stretches, PageUp, Built, SameBelow, Inv, Word;
    ok, tabs' := true, tabs;
    ghost var m0, marks, n := k.mem[..], phys[..], |Stretches(phys[..], i)|;
    NextStretch(marks, i);
    NextEnd(dir, n);
    MetBefore(tabs, marks, i);
    DirectoryPlace(k, h0, dir, tabs, marks, i);
    if phys[i] != 0 {
      ok, tabs' := EnsureTable(k, h0, dir, phys, i, tabs);
      if !ok {
        return;
      }
      ghost var m := k.mem[..];
      FillMib(k.mem, dir, phys, i, tabs', k.h.end);
      SameBelowLower(m, k.mem[..], dir + DIRECTORY_SIZE, dir);
      SameBelowLower(m, k.mem[..], dir, h0.end);
      SameBelowMore(m0, m, k.mem[..], dir, dir);
      HeapUndisturbed(k, m, h0);
    } else {
      SameBelowSelf(m0, dir);
      MibSkipped(k.mem[..], dir, tabs, marks, i, k.h.end);
    }
    NeededNext(tabs, tabs', marks, i);
  }

  lemma NoneMarkedYet(phys: seq<nat>)
    ensures Stretches(phys, 0) == {}
  {
  }

  /** The empty directory; None is the halt. */
  method NewDirectory(k: Kernel, ghost phys: seq<nat>) returns (r: Option<nat>, ghost tabs: seq<nat>)
    requires k.Valid() && |phys| == SLOTS
    modifies k`heapEnd, k`heapCap, k`h, k.mem
    ensures r == None <==> PageUp(old(k.h.end)) + DIRECTORY_SIZE >= CAP_LIMIT
    ensures r.Some? ==> Building(k, old(k.h), r.value, tabs, phys, 0) && Word(k.mem[..], r.value + 8192) == r.value
    ensures r.Some? ==> SameBelow(old(k.mem[..]), k.mem[..], old(k.h.end))
  {
    ghost var h0 := k.h;
    NoneMarkedYet(phys);
    r := NewRegion(k, DIRECTORY_SIZE);
    tabs := seq(1024, _ => 0);
    if r.Some? {
      var dir := r.value;
      ghost var m := k.mem[..];
      k.mem[dir + 8192] := dir;
      assert k.mem[..] == m[dir + 8192 := dir];
      HeapUndisturbed(k, m, h0);
      RingInMemory(h0, 0);
      assert forall a :: dir <= a < dir + 8192 ==> Word(k.mem[..], a) == Word(m, a);
      StartBuilt(k.mem[..], dir, tabs, phys, k.h.end);
    }
  }

  /** What is built once every MiB has been visited. */
  lemma BuildingMeans(k: Kernel, h0: Heap, dir: nat, tabs: seq<nat>, phys: seq<nat>)
    requires Building(k, h0, dir, tabs, phys, SLOTS)
    ensures !Halts(h0.end, phys) && k.Valid() && k.h.ring == h0.ring && k.h.live == h0.live
    ensures forall v :: 0 <= v < PAGES ==> PageWalk(k.mem[..], dir, v) == if phys[v / 256] != 0 then Some(v) else None
    ensures forall v :: 0 <= v < PAGES && phys[v / 256] != 0 ==> AllRights(k.mem[..], dir, v)
    ensures Laid(tabs, dir, k.h.end) && MasksBack(k.mem[..], dir, tabs)
  {
    HaltsIsEnd(h0.end, phys);
    BuiltMeans(k.mem[..], dir, tabs, phys, k.h.end);
  }

  lemma DirectoryHalts(end: nat, phys: seq<nat>)
    ensures PageUp(end) + DIRECTORY_SIZE >= CAP_LIMIT ==> Halts(end, phys)
  {
  }

  /** The second half of `mm_create_mmap`: the directory, and the tables for all marked MiBs; None is the halt.
      The walk of the result is the identity on exactly the marked MiBs; every directory entry masks back to the
      table pointer beside it; the tables are distinct and page-aligned; and the heap is left as it was. */
  method BuildTables(k: Kernel, phys: array<nat>) returns (r: Option<nat>)
    requires k.Valid() && phys.Length == SLOTS && phys as object != k.mem as object
    modifies k`heapEnd, k`heapCap, k`h, k.mem
    ensures r == None <==> Halts(old(k.h.end), phys[..])
    ensures r.Some? ==> k.Valid() && k.h.ring == old(k.h.ring) && k.h.live == old(k.h.live)
    ensures r.Some? ==> forall v :: 0 <= v < PAGES ==>
                          PageWalk(k.mem[..], r.value, v) == if phys[v / 256] != 0 then Some(v) else None
    ensures r.Some? ==> forall v :: 0 <= v < PAGES && phys[v / 256] != 0 ==> AllRights(k.mem[..], r.value, v)
    ensures r.Some? ==> r.value == PageUp(old(k.h.end)) && Word(k.mem[..], r.value + 8192) == r.value
    ensures r.Some? ==> exists tabs :: Laid(tabs, r.value, k.h.end) && MasksBack(k.mem[..], r.value, tabs)
    ensures r.Some? ==> SameBelow(old(k.mem[..]), k.mem[..], old(k.h.end))
  {
    hide Building, Halts, SameBelow, EndAfter, Stretches, PageUp, AllRights;
    ghost var h0, m0, marks := k.h, k.mem[..], phys[..];
    ghost var tabs;
    r, tabs := NewDirectory(k, marks);
    DirectoryHalts(h0.end, marks);
    if r == None {
      return None;
    }
    var dir := r.value;
    DirectoryPlace(k, h0, dir, tabs, marks, 0);
    for i := 0 to SLOTS
      invariant phys[..] == marks && Building(k, h0, dir, tabs, marks, i)
      invariant Word(k.mem[..], dir + 8192) == dir && SameBelow(m0, k.mem[..], h0.end)
    {
      ghost var m := k.mem[..];
      var going;
      going, tabs := MapMib(k, h0, dir, phys, i, tabs);
      if !going {
        HaltsAt(h0.end, marks, i);
        return None;
      }
      SameBelowMore(m0, m, k.mem[..], h0.end, dir);
    }
    BuildingMeans(k, h0, dir, tabs, marks);
  }

  /** `mm_create_mmap`: the page walk of what it builds is the identity on exactly the MiBs that the memory
      map marks, and ends in no page elsewhere; it halts only when the tables do not fit. */
  method CreateMmap(k: Kernel, regions: seq<MemRegion>, phys: array<nat>) returns (r: Option<nat>)
    requires k.Valid() && phys.Length == SLOTS && phys as object != k.mem as object
    requires forall e :: e in regions ==> Word32(e)
    modifies phys, k`heapEnd, k`heapCap, k`h, k.mem
    ensures forall m :: 0 <= m < SLOTS ==> phys[m] == Mark(regions, m)
    ensures r == None <==> Halts(old(k.h.end), phys[..])
    ensures r.Some? ==> k.Valid() && k.h.ring == old(k.h.ring) && k.h.live == old(k.h.live)
    ensures r.Some? ==> forall v :: 0 <= v < PAGES ==>
                          PageWalk(k.mem[..], r.value, v) == if Mark(regions, v / 256) != 0 then Some(v) else None
    ensures r.Some? ==> forall v :: 0 <= v < PAGES && phys[v / 256] != 0 ==> AllRights(k.mem[..], r.value, v)
    ensures r.Some? ==> SameBelow(old(k.mem[..]), k.mem[..], old(k.h.end))
  {
    ghost var m := k.mem[..];
    MarkRegions(regions, phys);
    assert k.mem[..] == m;
    hide Halts;
    r := BuildTables(k, phys);
  }
}
