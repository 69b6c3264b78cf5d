/** The boot loader's memory map and the mark it gives to every MiB: the first half of `mm_create_mmap`. */
module MemoryMap {
  import opened Sbrk

  const MIB := 0x10_0000
  const SLOTS := 4096  // MiBs in the 32-bit address space

  // ---------------------------------------------------------------- the memory map

  /** An entry of the boot loader's memory map; all fields are 32-bit. */
  datatype MemRegion = MemRegion(baseLow: nat, baseHigh: nat, lengthLow: nat, kind: nat)

  predicate Word32(r: MemRegion) {
    r.baseLow < WORD && r.baseHigh < WORD && r.lengthLow < WORD && r.kind < WORD
  }

  /** How far on from MiB `b`, round the end of the address space, MiB `m` is. */
  function StepsOn(b: nat, m: nat): nat {
    (m - b) % SLOTS
  }

  /** Whether the entry is taken into account at all. */
  predicate Counts(r: MemRegion) {
    r.kind != 0 && r.baseHigh == 0 && r.baseLow >= MIB
  }

  /** Whether the entry marks MiB `m`: short entries mark the MiB they start in, longer ones as many
      MiBs as they fully hold, counted from there and round the end of the address space. */
  predicate Covers(r: MemRegion, m: nat)
    requires m < SLOTS
  {
    Counts(r) &&
    if r.lengthLow < MIB then m == r.baseLow / MIB
    else StepsOn(r.baseLow / MIB, m) < r.lengthLow / MIB
  }

  /** The mark of MiB `m`: the kind of the last entry that covers it, cut to a byte. */
  function Mark(regions: seq<MemRegion>, m: nat): nat
    requires m < SLOTS
  {
    if regions == [] then if m == 0 then 0xFF else 0
    else if Covers(regions[|regions| - 1], m) then regions[|regions| - 1].kind % 256
    else Mark(regions[..|regions| - 1], m)
  }

  /** An entry that stays within the address space marks a plain interval. */
  lemma CoversInterval(r: MemRegion, m: nat)
    requires m < SLOTS && Counts(r) && MIB <= r.lengthLow && r.baseLow / MIB + r.lengthLow / MIB <= SLOTS
    ensures Covers(r, m) <==> r.baseLow / MIB <= m < r.baseLow / MIB + r.lengthLow / MIB
  {
  }

  /** In plain numbers: the entries passed over are those of kind 0, those above 4 GiB, and those that begin below
      1 MiB; every other entry marks the MiB it begins in, and one shorter than a MiB no other. */
  lemma CoversInNumbers(r: MemRegion, m: nat)
    requires m < 4096 && Word32(r)
    ensures r.kind == 0 || r.baseHigh != 0 || r.baseLow < 0x10_0000 ==> !Covers(r, m)
    ensures r.kind != 0 && r.baseHigh == 0 && r.baseLow >= 0x10_0000 ==>
              && (m == r.baseLow / 0x10_0000 ==> Covers(r, m))
              && (r.lengthLow < 0x10_0000 ==> (Covers(r, m) <==> m == r.baseLow / 0x10_0000))
  {
  }

  /** A longer one marks as many MiBs as it fully holds, from there on; those past the end of the address space are the
      first ones. */
  lemma CoversRound(r: MemRegion, m: nat)
    requires m < 4096 && Word32(r) && r.kind != 0 && r.baseHigh == 0
    requires 0x10_0000 <= r.baseLow && 0x10_0000 <= r.lengthLow
    ensures var first, end := r.baseLow / 0x10_0000, r.baseLow / 0x10_0000 + r.lengthLow / 0x10_0000;
            Covers(r, m) <==> first <= m < end || m + 4096 < end
  {
  }

  /** The mark an entry alone leaves where it begins is the low byte of its kind. */
  lemma MarkOfOne(r: MemRegion)
    requires Word32(r) && r.kind != 0 && r.baseHigh == 0 && r.baseLow >= 0x10_0000
    ensures Mark([r], r.baseLow / 0x10_0000) == r.kind % 256
  {
    CoversInNumbers(r, r.baseLow / 0x10_0000);
  }

  /** MiB `m` has the mark of entry `k` when `k` covers it and no later entry does. */
  lemma {:induction false} LastCoverWins(regions: seq<MemRegion>, k: nat, m: nat)
    requires m < SLOTS && k < |regions| && Covers(regions[k], m)
    requires forall j :: k < j < |regions| ==> !Covers(regions[j], m)
    ensures Mark(regions, m) == regions[k].kind % 256
  {
    if k < |regions| - 1 {
      LastCoverWins(regions[..|regions| - 1], k, m);
    }
  }

  lemma {:induction false} NoCoverNoMark(regions: seq<MemRegion>, m: nat)
    requires m < SLOTS && forall j :: 0 <= j < |regions| ==> !Covers(regions[j], m)
    ensures Mark(regions, m) == if m == 0 then 0xFF else 0
  {
    if regions != [] {
      NoCoverNoMark(regions[..|regions| - 1], m);
    }
  }

  lemma SlotOf(base: nat, c: nat)
    requires base < WORD
    ensures (base + c * MIB) % WORD / MIB == (base / MIB + c) % SLOTS
  {
    var q, r := base / MIB, base % MIB;
    var x := q + c;
    assert base + c * MIB == x * MIB + r;
    var y, z := x / SLOTS, x % SLOTS;
    assert x * MIB + r == y * WORD + (z * MIB + r);
    assert 0 <= z * MIB + r < WORD;
    assert (base + c * MIB) % WORD == z * MIB + r;
  }

  /** Counting round the slots from `b`, slot number `c` is the one `c` steps on. */
  lemma OneSlot(b: nat, c: nat, slot: nat)
    requires b < SLOTS && c < SLOTS && slot == (b + c) % SLOTS
    ensures forall m :: 0 <= m < SLOTS ==> (StepsOn(b, m) == c <==> m == slot)
  {
  }

  /** The inner loop for an entry of a MiB or more, from its top MiB down. */
  method MarkLong(r: MemRegion, phys: array<nat>)
    requires phys.Length == SLOTS && Word32(r) && Counts(r) && MIB <= r.lengthLow
    modifies phys
    ensures forall m :: 0 <= m < SLOTS ==> phys[m] == if Covers(r, m) then r.kind % 256 else old(phys[m])
  {
    var memSize := r.lengthLow - r.lengthLow % MIB;
    ghost var c := r.lengthLow / MIB;  // memSize in MiB
    while memSize != 0
      invariant memSize == c * MIB && 0 <= c <= r.lengthLow / MIB
      invariant forall m :: 0 <= m < SLOTS ==>
                  phys[m] == if c <= StepsOn(r.baseLow / MIB, m) < r.lengthLow / MIB then r.kind % 256 else old(phys[m])
    {
      memSize := memSize - MIB;
      c := c - 1;
      SlotOf(r.baseLow, c);
      var slot := (r.baseLow + memSize) % WORD / MIB;
      assert slot == (r.baseLow / MIB + c) % SLOTS;
      OneSlot(r.baseLow / MIB, c, slot);
      hide StepsOn;
      phys[slot] := r.kind % 256;
    }
  }

  /** The first half of `mm_create_mmap`: `phys` becomes the marks of all MiBs. */
  method MarkRegions(regions: seq<MemRegion>, phys: array<nat>)
    requires phys.Length == SLOTS && forall r :: r in regions ==> Word32(r)
    modifies phys
    ensures forall m :: 0 <= m < SLOTS ==> phys[m] == Mark(regions, m)
  {
    for m := 0 to SLOTS
      invariant forall k :: 0 <= k < m ==> phys[k] == 0
    {
      phys[m] := 0;
    }
    phys[0] := 0xFF;
    for k := 0 to |regions|
      invariant forall m :: 0 <= m < SLOTS ==> phys[m] == Mark(regions[..k], m)
    {
      var r := regions[k];
      assert r in regions;
      assert regions[..k + 1][..k] == regions[..k];
      if r.kind != 0 {
        if r.baseHigh == 0 && r.baseLow >= MIB && r.lengthLow < MIB {
          phys[r.baseLow / MIB] := r.kind % 256;
        } else if r.baseHigh == 0 && r.baseLow >= MIB {
          MarkLong(r, phys);
        }
      }
    }
    assert regions[..|regions|] == regions;
  }
}
