/** Page directories and tables: the processor's walk, which gives them their meaning, and the stores that fill them
    in. */
module PageTables {
  import opened Wrappers

  import opened HeapMemory
  import opened MemoryMap
  import opened Sbrk

  const TABLE_SIZE := 4096    // sizeof(page_table)
  const DIRECTORY_SIZE := 8196  // sizeof(page_directory): entries, table pointers, phys_addr
  const PAGES := 0x10_0000    // 4 KiB pages in the 32-bit address space

  // ---------------------------------------------------------------- the page walk

  /** The processor's walk from the directory at `dir`: the frame of virtual page `v`, if present. */
  function PageWalk(m: seq<int>, dir: nat, v: nat): Option<int>
    requires v < PAGES
  {
    var pde := Word(m, dir + 4 * (v / 1024));
    if pde % 2 == 0 then None
    else
      var pte := Word(m, pde - pde % PAGE + 4 * (v % 1024));
      if pte % 2 == 0 then None else Some(pte / PAGE)
  }

  /** A page entry after its bit-field stores: present, rw and user set, then the frame. */
  function StorePresent(w: int): int { w - w % 2 + 1 }
  function StoreRw(w: int): int { w - (w / 2 % 2) * 2 + 2 }
  function StoreUser(w: int): int { w - (w / 4 % 2) * 4 + 4 }
  function StoreFrame(w: int, f: int): int { w % PAGE + PAGE * f }

  /** What the entry of page `p` holds once the pages below `done` have been visited. */
  function Entry(phys: seq<nat>, done: nat, p: nat): int
    requires |phys| == SLOTS && p < PAGES
  {
    if p < done && phys[p / 256] != 0 then PAGE * p + 7 else 0
  }

  /** The directory at `dir` with the tables `tabs` (0 where there is none) lies below `end`, page by page apart. */
  ghost predicate Laid(tabs: seq<nat>, dir: nat, end: nat) {
    && |tabs| == 1024 && dir % PAGE == 0 && 0 < dir && dir + DIRECTORY_SIZE <= end
    && (forall d :: 0 <= d < 1024 && tabs[d] != 0 ==>
          tabs[d] % PAGE == 0 && dir + DIRECTORY_SIZE <= tabs[d] && tabs[d] + TABLE_SIZE <= end)
    && (forall d, e :: 0 <= d < e < 1024 && tabs[d] != 0 && tabs[e] != 0 ==>
          tabs[d] + TABLE_SIZE <= tabs[e] || tabs[e] + TABLE_SIZE <= tabs[d])
  }

  /** The directory's entry for table `d` and its table pointer agree: the entry masks back to the pointer. */
  ghost predicate SlotOk(m: seq<int>, dir: nat, tabs: seq<nat>, d: int) {
    0 <= d < |tabs| ==>
      && Word(m, dir + 4 * d) == (if tabs[d] == 0 then 0 else tabs[d] + 7)
      && Word(m, dir + 4096 + 4 * d) == tabs[d]
  }

  ghost predicate PageOk(m: seq<int>, tabs: seq<nat>, phys: seq<nat>, done: nat, p: int) {
    |phys| == SLOTS && |tabs| == 1024 &&
    (0 <= p < PAGES && tabs[p / 1024] != 0 ==> Word(m, tabs[p / 1024] + 4 * (p % 1024)) == Entry(phys, done, p))
  }

  /** A table exists exactly for the 4 MiB stretches with a marked MiB among those visited. */
  ghost predicate TableNeeded(tabs: seq<nat>, phys: seq<nat>, upto: nat, d: int) {
    |phys| == SLOTS && |tabs| == 1024 &&
    (0 <= d < 1024 ==> (tabs[d] != 0 <==> exists m :: 4 * d <= m < 4 * d + 4 && m < upto && phys[m] != 0))
  }

  /** The tables as far as built, with all MiBs below `i` and `c` pages of MiB `i` visited. */
  ghost predicate Built(m: seq<int>, dir: nat, tabs: seq<nat>, phys: seq<nat>, done: nat, end: nat) {
    && Laid(tabs, dir, end) && |phys| == SLOTS && end <= |m|
    && (forall d {:trigger SlotOk(m, dir, tabs, d)} :: SlotOk(m, dir, tabs, d))
    && (forall p {:trigger PageOk(m, tabs, phys, done, p)} :: PageOk(m, tabs, phys, done, p))
  }

  /** Both entries on the way to page `v` say present (1), writable (2) and for user code too (4), and nothing else. */
  predicate AllRights(m: seq<int>, dir: nat, v: nat) {
    var pde := Word(m, dir + 4 * (v / 1024));
    pde % 4096 == 7 && Word(m, pde - 7 + 4 * (v % 1024)) % 4096 == 7
  }

  /** The two entries for page `v`, once all is built. */
  lemma EntriesAre(m: seq<int>, dir: nat, tabs: seq<nat>, phys: seq<nat>, end: nat, v: nat)
    requires Built(m, dir, tabs, phys, PAGES, end) && v < PAGES
    requires forall d {:trigger TableNeeded(tabs, phys, SLOTS, d)} :: TableNeeded(tabs, phys, SLOTS, d)
    ensures |tabs| == 1024 && |phys| == SLOTS
    ensures var t := tabs[v / 1024];
            && t % PAGE == 0 && (phys[v / 256] != 0 ==> t != 0)
            && Word(m, dir + 4 * (v / 1024)) == (if t == 0 then 0 else t + 7)
            && (t != 0 ==> Word(m, t + 4 * (v % 1024)) == if phys[v / 256] != 0 then 4096 * v + 7 else 0)
  {
    var d := v / 1024;
    assert SlotOk(m, dir, tabs, d) && PageOk(m, tabs, phys, PAGES, v) && TableNeeded(tabs, phys, SLOTS, d);
    assert 4 * d <= v / 256 < 4 * d + 4;
  }

  lemma TableEntryIsOdd(v: nat)
    ensures (4096 * v + 7) % 2 == 1
  {
    assert 4096 * v + 7 == 2 * (2048 * v + 3) + 1;
  }

  lemma TableEntry(v: nat)
    ensures (4096 * v + 7) / 4096 == v && (4096 * v + 7) % 4096 == 7
  {
  }

  lemma DirectoryEntry(t: nat)
    requires t % 4096 == 0
    ensures (t + 7) % 2 == 1 && (t + 7) % 4096 == 7
  {
    assert t == 4096 * (t / 4096);
    TableEntry(t / 4096);
    TableEntryIsOdd(t / 4096);
  }

  /** Built to the end, the walk is the identity on exactly the marked MiBs. */
  lemma WalkIsIdentity(m: seq<int>, dir: nat, tabs: seq<nat>, phys: seq<nat>, end: nat, v: nat)
    requires Built(m, dir, tabs, phys, PAGES, end) && v < PAGES
    requires forall d {:trigger TableNeeded(tabs, phys, SLOTS, d)} :: TableNeeded(tabs, phys, SLOTS, d)
    ensures PageWalk(m, dir, v) == if phys[v / 256] != 0 then Some(v) else None
  {
    hide Built, TableNeeded, Word;
    EntriesAre(m, dir, tabs, phys, end, v);
    DirectoryEntry(tabs[v / 1024]);
    TableEntry(v);
    TableEntryIsOdd(v);
  }

  /** And all the rights are given on the way. */
  lemma RightsAreGiven(m: seq<int>, dir: nat, tabs: seq<nat>, phys: seq<nat>, end: nat, v: nat)
    requires Built(m, dir, tabs, phys, PAGES, end) && v < PAGES && phys[v / 256] != 0
    requires forall d {:trigger TableNeeded(tabs, phys, SLOTS, d)} :: TableNeeded(tabs, phys, SLOTS, d)
    ensures AllRights(m, dir, v)
  {
    hide Built, TableNeeded, Word;
    EntriesAre(m, dir, tabs, phys, end, v);
    DirectoryEntry(tabs[v / 1024]);
    TableEntry(v);
    TableEntryIsOdd(v);
  }

  /** Every directory entry, its low twelve bits masked off, is the pointer to its table. */
  ghost predicate MasksBack(m: seq<int>, dir: nat, tabs: seq<nat>) {
    |tabs| == 1024 && forall d :: 0 <= d < 1024 ==>
      Word(m, dir + 4096 + 4 * d) == tabs[d] && Word(m, dir + 4 * d) - Word(m, dir + 4 * d) % PAGE == tabs[d]
  }

  lemma BuiltMeans(m: seq<int>, dir: nat, tabs: seq<nat>, phys: seq<nat>, end: nat)
    requires Built(m, dir, tabs, phys, PAGES, end)
    requires forall d {:trigger TableNeeded(tabs, phys, SLOTS, d)} :: TableNeeded(tabs, phys, SLOTS, d)
    ensures forall v :: 0 <= v < PAGES ==> PageWalk(m, dir, v) == if phys[v / 256] != 0 then Some(v) else None
    ensures forall v :: 0 <= v < PAGES && phys[v / 256] != 0 ==> AllRights(m, dir, v)
    ensures Laid(tabs, dir, end) && MasksBack(m, dir, tabs)
  {
    forall v | 0 <= v < PAGES
      ensures PageWalk(m, dir, v) == if phys[v / 256] != 0 then Some(v) else None
      ensures phys[v / 256] != 0 ==> AllRights(m, dir, v)
    {
      WalkIsIdentity(m, dir, tabs, phys, end, v);
      if phys[v / 256] != 0 { RightsAreGiven(m, dir, tabs, phys, end, v); }
    }
    forall d | 0 <= d < 1024
      ensures Word(m, dir + 4096 + 4 * d) == tabs[d] && Word(m, dir + 4 * d) - Word(m, dir + 4 * d) % PAGE == tabs[d]
    {
      assert SlotOk(m, dir, tabs, d);
    }
  }

  // ---------------------------------------------------------------- filling them in

  lemma StartBuilt(m: seq<int>, dir: nat, tabs: seq<nat>, phys: seq<nat>, end: nat)
    requires |phys| == SLOTS && end <= |m| && dir % PAGE == 0 && 0 < dir && dir + DIRECTORY_SIZE == end
    requires |tabs| == 1024 && forall d :: 0 <= d < 1024 ==> tabs[d] == 0
    requires forall a :: dir <= a < dir + 8192 ==> Word(m, a) == 0
    ensures Built(m, dir, tabs, phys, 0, end)
    ensures forall d {:trigger TableNeeded(tabs, phys, 0, d)} :: TableNeeded(tabs, phys, 0, d)
  {
    forall d ensures SlotOk(m, dir, tabs, d) {}
    forall p ensures PageOk(m, tabs, phys, 0, p) {}
    forall d ensures TableNeeded(tabs, phys, 0, d) {}
  }

  /** Nothing below `floor` differs. */
  ghost predicate SameBelow(m: seq<int>, m': seq<int>, floor: int) {
    |m'| == |m| && forall a :: a < floor ==> Word(m', a) == Word(m, a)
  }

  function PageAddress(tabs: seq<nat>, p: nat): nat
    requires |tabs| == 1024 && p < PAGES
  {
    tabs[p / 1024] + 4 * (p % 1024)
  }

  lemma PageAddressApart(tabs: seq<nat>, dir: nat, end: nat, p: nat, q: nat)
    requires Laid(tabs, dir, end) && p < PAGES && q < PAGES && tabs[p / 1024] != 0 && tabs[q / 1024] != 0 && p != q
    ensures PageAddress(tabs, p) != PageAddress(tabs, q)
  {
    var d, e := p / 1024, q / 1024;
    if d < e {
      assert tabs[d] + TABLE_SIZE <= tabs[e] || tabs[e] + TABLE_SIZE <= tabs[d];
    } else if e < d {
      assert tabs[e] + TABLE_SIZE <= tabs[d] || tabs[d] + TABLE_SIZE <= tabs[e];
    }
  }

  /** Before a page is visited its entry is clear; storing the entry counts it as visited. */
  lemma PageStored(m: seq<int>, dir: nat, tabs: seq<nat>, phys: seq<nat>, p: nat, end: nat)
    requires Built(m, dir, tabs, phys, p, end) && p < PAGES && tabs[p / 1024] != 0 && phys[p / 256] != 0
    ensures dir + DIRECTORY_SIZE <= PageAddress(tabs, p) && PageAddress(tabs, p) + 4 <= end
    ensures m[PageAddress(tabs, p)] == 0
    ensures Built(m[PageAddress(tabs, p) := PAGE * p + 7], dir, tabs, phys, p + 1, end)
  {
    assert PageOk(m, tabs, phys, p, p);
    var a := PageAddress(tabs, p);
    var m' := m[a := PAGE * p + 7];
    forall d ensures SlotOk(m', dir, tabs, d) {
      assert SlotOk(m, dir, tabs, d);
    }
    var done := p + 1;
    forall q ensures PageOk(m', tabs, phys, done, q) {
      assert PageOk(m, tabs, phys, p, q);
      if 0 <= q < PAGES && q != p && tabs[q / 1024] != 0 { PageAddressApart(tabs, dir, end, p, q); }
    }
  }

  /** An unmarked MiB is passed over. */
  lemma MibSkipped(m: seq<int>, dir: nat, tabs: seq<nat>, phys: seq<nat>, i: nat, end: nat)
    requires Built(m, dir, tabs, phys, 256 * i, end) && i < SLOTS && phys[i] == 0
    ensures Built(m, dir, tabs, phys, 256 * (i + 1), end)
  {
    var done, done' := 256 * i, 256 * (i + 1);
    forall q ensures PageOk(m, tabs, phys, done', q) {
      assert PageOk(m, tabs, phys, done, q);
    }
  }

  lemma EntryStores(f: nat)
    ensures StorePresent(0) == 1 && StoreRw(1) == 3 && StoreUser(3) == 7 && StoreFrame(7, f) == PAGE * f + 7
  {
  }

  /** The four bit-field stores of a page entry. */
  method StoreEntry(mem: array<int>, a: nat, frame: nat)
    requires a < mem.Length && mem[a] == 0
    modifies mem
    ensures mem[..] == old(mem[..])[a := PAGE * frame + 7]
  {
    EntryStores(frame);
    hide StorePresent, StoreRw, StoreUser, StoreFrame;
    mem[a] := StorePresent(mem[a]);
    mem[a] := StoreRw(mem[a]);
    mem[a] := StoreUser(mem[a]);
    mem[a] := StoreFrame(mem[a], frame);
  }

  /** The entry for page `p`, filled in by four bit-field stores. */
  method FillPage(mem: array<int>, dir: nat, table: int, j: nat, p: nat, ghost tabs: seq<nat>, ghost phys: seq<nat>,
                  ghost end: nat)
    requires Built(mem[..], dir, tabs, phys, p, end) && p < PAGES && tabs[p / 1024] == table != 0 && phys[p / 256] != 0
    requires j == p % 1024
    modifies mem
    ensures Built(mem[..], dir, tabs, phys, p + 1, end)
    ensures SameBelow(old(mem[..]), mem[..], dir + DIRECTORY_SIZE)
  {
    PageStored(mem[..], dir, tabs, phys, p, end);
    StoreEntry(mem, table + 4 * j, p);
    hide Built;
  }

  lemma SameBelowSelf(m: seq<int>, floor: int)
    ensures SameBelow(m, m, floor)
  {
  }

  lemma SameBelowMore(m: seq<int>, m': seq<int>, m'': seq<int>, floor: int, higher: int)
    requires SameBelow(m, m', floor) && SameBelow(m', m'', higher) && floor <= higher
    ensures SameBelow(m, m'', floor)
  {
  }

  lemma SameBelowLower(m: seq<int>, m': seq<int>, floor: int, lower: int)
    requires SameBelow(m, m', floor) && lower <= floor
    ensures SameBelow(m, m', lower)
    ensures forall a {:trigger Word(m', a)} :: lower <= a < floor ==> Word(m', a) == Word(m, a)
  {
  }

  lemma PageOfMib(i: nat, j: nat)
    requires 256 * (i % 4) <= j < 256 * (i % 4) + 256 && i < SLOTS
    ensures var p := 1024 * (i / 4) + j;
            p < PAGES && p / 1024 == i / 4 && p % 1024 == j && p / 256 == i && i * 256 + j % 256 == p
  {
  }

  /** The loop over the pages of MiB `i`. */
  method FillMib(mem: array<int>, dir: nat, phys: array<nat>, i: nat, ghost tabs: seq<nat>, ghost end: nat)
    requires phys.Length == SLOTS && i < SLOTS && phys[i] != 0 && phys as object != mem as object
    requires Built(mem[..], dir, tabs, phys[..], 256 * i, end) && tabs[i / 4] != 0
    modifies mem
    ensures Built(mem[..], dir, tabs, phys[..], 256 * (i + 1), end)
    ensures SameBelow(old(mem[..]), mem[..], dir + DIRECTORY_SIZE)
  {
    ghost var marks := phys[..];
    assert SlotOk(mem[..], dir, tabs, i / 4);
    var table := mem[dir + 4096 + 4 * (i / 4)];
    assert table == tabs[i / 4] && |tabs| == 1024;
    var j := 256 * (i % 4);
    assert SameBelow(mem[..], mem[..], dir + DIRECTORY_SIZE);
    hide Built, SameBelow, SlotOk;
    while j < 256 * (i % 4) + 256
      invariant 256 * (i % 4) <= j <= 256 * (i % 4) + 256 && phys[..] == marks
      invariant Built(mem[..], dir, tabs, marks, 1024 * (i / 4) + j, end)
      invariant SameBelow(old(mem[..]), mem[..], dir + DIRECTORY_SIZE)
    {
      ghost var p, m := 1024 * (i / 4) + j, mem[..];
      PageOfMib(i, j);
      FillPage(mem, dir, table, j, i * 256 + j % 256, tabs, marks, end);
      SameBelowMore(old(mem[..]), m, mem[..], dir + DIRECTORY_SIZE, dir + DIRECTORY_SIZE);
      j := j + 1;
    }
  }

  /** A fresh, clear table, entered in the directory for the stretch that MiB `i` lies in. */
  lemma TableAdded(m: seq<int>, m': seq<int>, dir: nat, tabs: seq<nat>, phys: seq<nat>, i: nat, t: nat, end: nat,
                   end': nat)
    requires Built(m, dir, tabs, phys, 256 * i, end) && i < SLOTS && tabs[i / 4] == 0
    requires forall d {:trigger TableNeeded(tabs, phys, i, d)} :: TableNeeded(tabs, phys, i, d)
    requires t % PAGE == 0 && end <= t && t + TABLE_SIZE == end' <= |m'| && |m'| == |m|
    requires forall a :: Word(m', a) ==
               if t <= a < end' then 0
               else if a == dir + 4 * (i / 4) then t + 7
               else if a == dir + 4096 + 4 * (i / 4) then t
               else Word(m, a)
    ensures Built(m', dir, tabs[i / 4 := t], phys, 256 * i, end')
  {
    var d0 := i / 4;
    var tabs' := tabs[d0 := t];
    forall d ensures SlotOk(m', dir, tabs', d) {
      assert SlotOk(m, dir, tabs, d);
    }
    assert TableNeeded(tabs, phys, i, d0);
    var done := 256 * i;
    forall p ensures PageOk(m', tabs', phys, done, p) {
      assert PageOk(m, tabs, phys, done, p);
      if 0 <= p < PAGES && p / 1024 == d0 && p < 256 * i {
        assert 4 * d0 <= p / 256 < 4 * d0 + 4;
      }
    }
  }

  /** Visiting MiB `i` keeps track of which tables are needed. */
  lemma NeededNext(tabs: seq<nat>, tabs': seq<nat>, phys: seq<nat>, i: nat)
    requires i < SLOTS && |tabs| == 1024 && |phys| == SLOTS && |tabs'| == 1024
    requires forall d {:trigger TableNeeded(tabs, phys, i, d)} :: TableNeeded(tabs, phys, i, d)
    requires forall d :: 0 <= d < 1024 && d != i / 4 ==> tabs'[d] == tabs[d]
    requires if phys[i] != 0 then tabs'[i / 4] != 0 else tabs' == tabs
    ensures forall d {:trigger TableNeeded(tabs', phys, i + 1, d)} :: TableNeeded(tabs', phys, i + 1, d)
  {
    var upto := i + 1;
    forall d ensures TableNeeded(tabs', phys, upto, d) {
      assert TableNeeded(tabs, phys, i, d);
    }
  }
}
