/** The kernel's emulation of `sbrk`: a break pointer that only moves along, under a cap that
    doubles on demand.  Pointer arithmetic is 32-bit, exactly as the kernel does it. */
module Sbrk {
  const WORD := 0x1_0000_0000
  const PAGE := 0x1000
  const CAP_FIRST := 0x0100_0000
  const CAP_LIMIT := 0x0400_0000

  /** Either the machine halts in `_crash`, which never returns, or the region
      starting at `start` is handed out and the break and the cap get new values. */
  datatype Outcome = Crashed | Granted(start: nat, end: nat, cap: nat)

  predicate IsCap(cap: nat) {
    cap == CAP_FIRST || cap == 2 * CAP_FIRST || cap == CAP_LIMIT
  }

  /** Round up to a page boundary: `(end & 0xFFFFF000) + 0x1000` when `end & 0xFFF` is not 0. */
  function PageUp(end: nat): (r: nat)
    ensures r % PAGE == 0 && end <= r < end + PAGE
  {
    if end % PAGE != 0 then end - end % PAGE + PAGE else end
  }

  lemma PageUpIsCeiling(end: nat)
    ensures PageUp(end) == (end + 4095) / 4096 * 4096
  {
    assert end == end / 4096 * 4096 + end % 4096;
  }

  function Aligned(end: nat, pageAlign: bool): nat {
    if pageAlign then PageUp(end) else end
  }

  function Brk(end: nat, cap: nat, size: nat, pageAlign: bool): Outcome
    requires IsCap(cap)
    decreases CAP_LIMIT - cap
  {
    var start := Aligned(end, pageAlign);
    if (start + size) % WORD < cap then Granted(start, (start + size) % WORD, cap)
    else if cap * 2 > CAP_LIMIT then Crashed
    else Brk(start, cap * 2, size, pageAlign)
  }

  /** What one call does, whatever the size: it halts exactly when no cap up to 64 MiB is above the
      (wrapped) new break; otherwise it grants from the aligned old break and doubles no more than needed. */
  lemma {:induction false} BrkMeaning(end: nat, cap: nat, size: nat, pageAlign: bool)
    requires IsCap(cap)
    ensures var start := Aligned(end, pageAlign);
            match Brk(end, cap, size, pageAlign)
            case Crashed => (start + size) % WORD >= CAP_LIMIT
            case Granted(s, e, c) =>
              s == start && e == (start + size) % WORD && e < c && IsCap(c) && cap <= c
              && (c > cap ==> e >= c / 2)
    decreases CAP_LIMIT - cap
  {
    var start := Aligned(end, pageAlign);
    if (start + size) % WORD >= cap && cap * 2 <= CAP_LIMIT {
      BrkMeaning(start, cap * 2, size, pageAlign);
    }
  }

  /** The same in plain numbers: regions start at the old break, rounded up to 4 KiB on request; the caps are 16, 32 and
      64 MiB, and the least one above the wrapped new break that is no less than the old cap is taken. */
  lemma BrkInNumbers(end: nat, cap: nat, size: nat, pageAlign: bool)
    requires cap in {0x100_0000, 0x200_0000, 0x400_0000}
    ensures var start := if pageAlign then (end + 4095) / 4096 * 4096 else end;
            var end' := (start + size) % 0x1_0000_0000;
            Brk(end, cap, size, pageAlign) ==
            if end' < cap then Granted(start, end', cap)
            else if end' < 0x200_0000 then Granted(start, end', 0x200_0000)
            else if end' < 0x400_0000 then Granted(start, end', 0x400_0000)
            else Crashed
  {
    PageUpIsCeiling(end);
    BrkMeaning(end, cap, size, pageAlign);
  }

  /** The region granted is the fresh stretch [start, start + size) if and only if the 32-bit sum
      does not wrap.  When it wraps, the break moves backwards, below the region's own start. */
  lemma BrkFreshIff(end: nat, cap: nat, size: nat, pageAlign: bool)
    requires IsCap(cap) && size < WORD && end < CAP_LIMIT
    requires Brk(end, cap, size, pageAlign).Granted?
    ensures var g := Brk(end, cap, size, pageAlign);
            && (g.end == g.start + size <==> Aligned(end, pageAlign) + size < WORD)
            && (g.end < g.start <==> Aligned(end, pageAlign) + size >= WORD)
  {
    BrkMeaning(end, cap, size, pageAlign);
  }

  const MINUS_ONE := 0xFFFF_FFFF  // -1 as an address, which callers of `sbrk` take for failure

  /** No call returns -1. */
  lemma NeverMinusOne(end: nat, cap: nat, size: nat, pageAlign: bool)
    requires IsCap(cap) && end < CAP_LIMIT
    ensures Brk(end, cap, size, pageAlign).Granted? ==> Brk(end, cap, size, pageAlign).start != MINUS_ONE
  {
    BrkMeaning(end, cap, size, pageAlign);
  }

  /** A concrete wrap: asking for 0xFFF0_0000 bytes with the break at 2 MiB succeeds and
      leaves the break at 1 MiB. */
  lemma BrkWrapExample()
    ensures Brk(0x20_0000, CAP_FIRST, 0xFFF0_0000, false) == Granted(0x20_0000, 0x10_0000, CAP_FIRST)
  {
  }

  const HEADER := 8    // sizeof(Header), and the unit in which block sizes count

  /** The bytes `morecore` asks for: `nu * sizeof(Header)`, in 32 bits. */
  function CoreBytes(units: nat): nat {
    units * HEADER % WORD
  }

  /** `morecore` gets all of the chunk it believes in exactly when neither the product nor the sum wraps:
      this is what `malloc` owes to its callers' restraint. */
  lemma CoreIsWholeIff(end: nat, cap: nat, units: nat)
    requires IsCap(cap) && end < CAP_LIMIT && units * HEADER <= WORD
    requires Brk(end, cap, CoreBytes(units), false).Granted?
    ensures var g := Brk(end, cap, CoreBytes(units), false);
            g.start == end && (g.end == end + units * HEADER <==> end + units * HEADER < WORD)
  {
    BrkMeaning(end, cap, CoreBytes(units), false);
  }

  /** `malloc(0xFFFF_FFF8)` asks for 2^29 units; their bytes wrap to none at all, which are granted. */
  lemma CoreWrapExample(end: nat)
    requires end < CAP_FIRST
    ensures (0xFFFF_FFF8 + HEADER - 1) % WORD / HEADER + 1 == 0x2000_0000
    ensures Brk(end, CAP_FIRST, CoreBytes(0x2000_0000), false) == Granted(end, end, CAP_FIRST)
  {
  }
}
