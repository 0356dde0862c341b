/** Addresses, page-table entries and the macros that take them apart
    (AMD64 Architecture Programmer's Manual Volume 2, section 5.3, Long-Mode Page Translation). */
module Paging {
  import opened Bits

  const PAGE_SIZE: nat := 4096
  const TABLE_ENTRIES: nat := 512
  const WORD_LIMIT: nat := 0x1_0000_0000_0000_0000

  /** 64-bit arithmetic: the value of a sum or difference modulo 2^64. */
  function Wrap(x: int): nat {
    x % WORD_LIMIT
  }

  const PAGE_PRESENT: nat := 1
  const PAGE_WRITE: nat := 2
  const PAGE_USER: nat := 4
  const PAGE_HUGE: nat := 0x80
  const PAGE_NO_EXEC: nat := 0x8000_0000_0000_0000

  const PAGE_MASK: nat := 0xFFFF_0000_0000_0FFF
  /** ~PAGE_MASK: the bits of an entry that hold a physical address. */
  const ADDRESS_MASK: nat := WORD_LIMIT - 1 - PAGE_MASK

  const FRAME_LIMIT: nat := 0x10_0000_0000

  // ---- The macros ----

  function PageIndex(x: nat): nat { Shr(x, 12) }
  function PageAddr(x: nat): nat { And(x, ADDRESS_MASK) }
  function PageTableIndex(va: nat): nat { And(Shr(va, 12), 511) }
  function PageDirIndex(va: nat): nat { And(Shr(va, 12 + 9), 511) }
  function PdptIndex(va: nat): nat { And(Shr(va, 12 + 9 + 9), 511) }
  function Pml4Index(va: nat): nat { And(Shr(va, 12 + 9 + 9 + 9), 511) }

  function Page2Pa(frame: nat): nat { Shl(frame, 12) }
  function Pa2Page(pa: nat): nat { PageIndex(pa) }

  predicate Present(word: nat) { And(word, PAGE_PRESENT) != 0 }
  predicate Huge(word: nat) { And(word, PAGE_HUGE) != 0 }
  function FrameOf(word: nat): nat { Pa2Page(PageAddr(word)) }
  /** The permission bits of an entry. */
  function Flags(word: nat): nat { And(word, PAGE_MASK) }

  /** The entry a mapping writes: address, permissions and the present bit. */
  function MakeEntry(frame: nat, perm: nat): nat {
    Or(Or(Page2Pa(frame), perm), PAGE_PRESENT)
  }

  /** Permission words set no address bit. */
  predicate IsPerm(perm: nat) {
    perm < WORD_LIMIT && And(perm, ADDRESS_MASK) == 0
  }

  /** The number of the page an address lies in; the sixteen bits above bit 47 are ignored. */
  function Vpn(va: nat): (n: nat)
    ensures n < FRAME_LIMIT
  {
    va / PAGE_SIZE % FRAME_LIMIT
  }

  // ---- Addresses and frames ----

  lemma FrameAddressRoundTrip(frame: nat)
    ensures Page2Pa(frame) == frame * PAGE_SIZE
    ensures Pa2Page(Page2Pa(frame)) == frame
  {
    Shift12(frame);
    Shift12(Shl(frame, 12));
  }

  /** The mask macros compute the four nine-bit fields of the page number. */
  lemma IndicesAreFields(va: nat)
    ensures PageTableIndex(va) == Vpn(va) % 512
    ensures PageDirIndex(va) == Vpn(va) / 512 % 512
    ensures PdptIndex(va) == Vpn(va) / 512 / 512 % 512
    ensures Pml4Index(va) == Vpn(va) / 512 / 512 / 512
  {
    var p := va / PAGE_SIZE;
    ShiftedPage(va);
    Mod512(p);
    Mod512(p / 512);
    Mod512(p / 512 / 512);
    Mod512(p / 512 / 512 / 512);
    FieldsModulo(p);
  }

  lemma ShiftedPage(va: nat)
    ensures var p := va / PAGE_SIZE;
      && Shr(va, 12) == p && Shr(va, 12 + 9) == p / 512
      && Shr(va, 12 + 9 + 9) == p / 512 / 512 && Shr(va, 12 + 9 + 9 + 9) == p / 512 / 512 / 512
  {
    var p := va / PAGE_SIZE;
    Shift12(va);
    ShrAdd(va, 12, 9);
    ShrAdd(va, 12 + 9, 9);
    ShrAdd(va, 12 + 9 + 9, 9);
    Shift9(p);
    Shift9(p / 512);
    Shift9(p / 512 / 512);
  }

  lemma FieldsModulo(p: nat)
    ensures var n := p % FRAME_LIMIT;
      && p % 512 == n % 512 && p / 512 % 512 == n / 512 % 512
      && p / 512 / 512 % 512 == n / 512 / 512 % 512
      && p / 512 / 512 / 512 % 512 == n / 512 / 512 / 512
  {
    var q, n := p / FRAME_LIMIT, p % FRAME_LIMIT;
    assert p == q * FRAME_LIMIT + n;
    assert p / 512 == q * (FRAME_LIMIT / 512) + n / 512;
    assert p / 512 / 512 == q * (FRAME_LIMIT / 512 / 512) + n / 512 / 512;
    assert p / 512 / 512 / 512 == q * 512 + n / 512 / 512 / 512;
  }

  lemma Mod512(x: nat)
    ensures And(x, 511) == x % 512
  {
    Shift9(x);
    Shift9(Shr(x, 9));
    AndLowMask(x, 9);
  }

  /** Two pages that agree in all four table indices are the same page, so the path through
      the tables identifies the page. */
  lemma IndicesInjective(va: nat, wa: nat)
    requires PageTableIndex(va) == PageTableIndex(wa) && PageDirIndex(va) == PageDirIndex(wa)
    requires PdptIndex(va) == PdptIndex(wa) && Pml4Index(va) == Pml4Index(wa)
    ensures Vpn(va) == Vpn(wa)
  {
    IndicesAreFields(va);
    IndicesAreFields(wa);
  }

  // ---- Entries ----

  lemma {:induction false} AndOverOr(a: nat, b: nat, m: nat)
    ensures And(Or(a, b), m) == Or(And(a, m), And(b, m))
    decreases a + b + m
  {
    if a + b + m > 0 {
      AndOverOr(a / 2, b / 2, m / 2);
      var l, r := And(Or(a, b), m), Or(And(a, m), And(b, m));
      assert l / 2 == And(Or(a / 2, b / 2), m / 2) && (l % 2 == 1 <==> (a % 2 == 1 || b % 2 == 1) && m % 2 == 1) by {
        OrHalf(a, b);
        AndHalf(Or(a, b), m);
      }
      assert r / 2 == Or(And(a / 2, m / 2), And(b / 2, m / 2)) &&
             (r % 2 == 1 <==> (a % 2 == 1 && m % 2 == 1) || (b % 2 == 1 && m % 2 == 1)) by {
        AndHalf(a, m);
        AndHalf(b, m);
        OrHalf(And(a, m), And(b, m));
      }
      SameBits(l, r);
    }
  }

  /** A mask and its complement share out the bits of a word between them. */
  lemma {:induction false} AndComplement(x: nat, m: nat, k: nat)
    requires x < Pow2(k) && m < Pow2(k)
    ensures And(x, m) + And(x, Pow2(k) - 1 - m) == x
    decreases k
  {
    hide And;
    if k == 0 {
      AndZero(0);
    } else {
      AndComplement(x / 2, m / 2, k - 1);
      AndStep(x, m);
      AndStep(x, Pow2(k) - 1 - m);
      assert (Pow2(k) - 1 - m) / 2 == Pow2(k - 1) - 1 - m / 2;
    }
  }

  lemma Pow2Values()
    ensures Pow2(36) == FRAME_LIMIT && Pow2(64) == WORD_LIMIT
    ensures ADDRESS_MASK == Shl(FRAME_LIMIT - 1, 12)
  {
    Shift12(1); Shift12(4096); Shift4(1);
    Pow2Add(12, 12); Pow2Add(24, 12); Pow2Add(36, 12); Pow2Add(48, 12); Pow2Add(60, 4);
    Shift12(Pow2(12)); Shift12(Pow2(24)); Shift12(Pow2(36)); Shift12(Pow2(48)); Shift4(Pow2(60));
    Shift12(FRAME_LIMIT - 1);
  }

  /** The address of a frame consists of address bits only. */
  lemma AddressBits(frame: nat)
    requires frame < FRAME_LIMIT
    ensures PageAddr(Page2Pa(frame)) == Page2Pa(frame)
    ensures Flags(Page2Pa(frame)) == 0
    ensures And(Page2Pa(frame), PAGE_PRESENT) == 0 && And(Page2Pa(frame), PAGE_HUGE) == 0
  {
    hide And, Shl, Shr, Pow2, Or;
    var pa := Page2Pa(frame);
    Pow2Values();
    Shift12(frame);
    Shift12(Shr(pa, 12));
    Shift12(pa);
    AndFieldMask(pa, 12, 36);
    AndLowMask(frame, 36);
    ShiftPair(frame, 36);
    ShrSmall(frame, 36);
    ShlZero(36);
    AndComplement(pa, PAGE_MASK, 64);
    AndZero(frame); AndZero(PAGE_PRESENT); AndZero(PAGE_HUGE);
    AndSplit(frame, 0, 0, PAGE_PRESENT, 12);
    AndSplit(frame, 0, 0, PAGE_HUGE, 12);
    ShlZero(12);
  }

  lemma {:induction false} ShrSmall(a: nat, k: nat)
    requires a < Pow2(k)
    ensures Shr(a, k) == 0
    decreases k
  {
    if k > 0 {
      ShrSmall(a / 2, k - 1);
    }
  }

  /** Low permission bits never reach into the address field. */
  lemma LowBitsArePerm(perm: nat)
    requires perm < PAGE_SIZE
    ensures IsPerm(perm)
  {
    Pow2Values();
    Shift12(0);
    AndSplit(0, FRAME_LIMIT - 1, perm, 0, 12);
  }

  /** PAGE_ADDR and the flag tests invert the OR of address and permissions: an entry gives back
      the frame and the permissions it was made of. */
  lemma EntryRoundTrip(frame: nat, perm: nat)
    requires frame < FRAME_LIMIT && IsPerm(perm)
    ensures var e := MakeEntry(frame, perm);
      && PageAddr(e) == Page2Pa(frame)
      && FrameOf(e) == frame
      && Flags(e) == Or(perm, PAGE_PRESENT)
      && Present(e)
      && (Huge(e) <==> Huge(perm))
      && e != 0
  {
    var pa, e := Page2Pa(frame), MakeEntry(frame, perm);
    AddressBits(frame);
    FrameAddressRoundTrip(frame);
    LowBitsArePerm(PAGE_PRESENT);
    assert And(PAGE_PRESENT, PAGE_HUGE) == 0 by { AndStep(1, 128); }
    assert And(PAGE_PRESENT, PAGE_PRESENT) == 1 by { AndStep(1, 1); }
    Distribute(pa, perm, ADDRESS_MASK);
    Distribute(pa, perm, PAGE_MASK);
    Distribute(pa, perm, PAGE_PRESENT);
    Distribute(pa, perm, PAGE_HUGE);
    FlagsOfPerm(perm);
    FlagsOfPerm(PAGE_PRESENT);
    OrStep(Or(And(pa, 1), And(perm, 1)), 1);
  }

  lemma Distribute(pa: nat, perm: nat, m: nat)
    ensures And(Or(Or(pa, perm), PAGE_PRESENT), m) == Or(Or(And(pa, m), And(perm, m)), And(PAGE_PRESENT, m))
  {
    AndOverOr(Or(pa, perm), PAGE_PRESENT, m);
    AndOverOr(pa, perm, m);
  }

  lemma FlagsOfPerm(perm: nat)
    requires IsPerm(perm)
    ensures Flags(perm) == perm
  {
    Pow2Values();
    AndComplement(perm, PAGE_MASK, 64);
  }

  lemma NoExecIsPerm()
    ensures IsPerm(PAGE_NO_EXEC)
  {
    hide And, Pow2, Shl, Shr, Or;
    Pow2Values();
    Shift12(0x8_0000_0000_0000);
    Shift12(0x80_0000_0000);
    Shift12(0x800_0000);
    Shift12(0x8000);
    ShlAdd(0x8000, 12, 12);
    ShlAdd(0x8000, 24, 12);
    ShlZero(36);
    ShlZero(12);
    AndZero(FRAME_LIMIT - 1);
    AndZero(0x8000);
    AndZero(0);
    AndSplit(0x8000, 0, 0, FRAME_LIMIT - 1, 36);
    AndSplit(0x8_0000_0000_0000, FRAME_LIMIT - 1, 0, 0, 12);
  }

  /** A small number and a shifted one have no bit in common. */
  lemma AndSmall(a: nat, b: nat, k: nat)
    requires a < Pow2(k)
    ensures And(a, Shl(b, k)) == 0
  {
    ShlZero(k);
    AndZero(a);
    AndZero(b);
    AndSplit(0, b, a, 0, k);
  }

  lemma OrZero(x: nat)
    requires x < WORD_LIMIT
    ensures Or(x, 0) == x && Or(0, x) == x
  {
    hide Or, Pow2;
    Pow2Values();
    ShlZero(64);
    OrDisjoint(0, x, 64);
    OrCommutes(x, 0);
  }

  /** An entry has the write, user and no-execute bits of the permissions it was made of. */
  lemma EntryRights(frame: nat, perm: nat)
    requires frame < FRAME_LIMIT && perm < WORD_LIMIT
    ensures var e := MakeEntry(frame, perm);
      && And(e, PAGE_WRITE) == And(perm, PAGE_WRITE) && And(e, PAGE_USER) == And(perm, PAGE_USER)
      && And(e, PAGE_NO_EXEC) == And(perm, PAGE_NO_EXEC)
  {
    hide And, Or, Shl, Pow2;
    RightBitsOfAddress(frame);
    EntryRight(frame, perm, PAGE_WRITE);
    EntryRight(frame, perm, PAGE_USER);
    EntryRight(frame, perm, PAGE_NO_EXEC);
  }

  lemma EntryRight(frame: nat, perm: nat, bit: nat)
    requires perm < WORD_LIMIT && And(Page2Pa(frame), bit) == 0 && And(PAGE_PRESENT, bit) == 0
    ensures And(MakeEntry(frame, perm), bit) == And(perm, bit)
  {
    hide And, Or;
    Distribute(Page2Pa(frame), perm, bit);
    AndAtMost(perm, bit);
    OrZero(And(perm, bit));
  }

  lemma {:induction false} AndAtMost(a: nat, b: nat)
    ensures And(a, b) <= a
    decreases a
  {
    if a > 0 {
      AndAtMost(a / 2, b / 2);
      AndStep(a, b);
    } else {
      AndZero(b);
    }
  }

  lemma RightBitsOfAddress(frame: nat)
    requires frame < FRAME_LIMIT
    ensures And(Page2Pa(frame), PAGE_WRITE) == 0 && And(PAGE_PRESENT, PAGE_WRITE) == 0
    ensures And(Page2Pa(frame), PAGE_USER) == 0 && And(PAGE_PRESENT, PAGE_USER) == 0
    ensures And(Page2Pa(frame), PAGE_NO_EXEC) == 0 && And(PAGE_PRESENT, PAGE_NO_EXEC) == 0
  {
    hide And, Or, Shl, Pow2;
    Pow2Values();
    Shift12(frame);
    Shift12(0x8_0000_0000_0000);
    ShlZero(12);
    AndZero(frame);
    AndZero(PAGE_WRITE);
    AndZero(PAGE_USER);
    AndZero(0);
    AndSplit(frame, 0, 0, PAGE_WRITE, 12);
    AndSplit(frame, 0, 0, PAGE_USER, 12);
    AndSplit(frame, 0x8_0000_0000_0000, 0, 0, 12);
    Shift12(0x80_0000_0000);
    Shift12(0x800_0000);
    Shift12(0x8000);
    ShlAdd(0x8000, 12, 12);
    ShlAdd(0x8000, 24, 12);
    AndSmall(frame, 0x8000, 36);
    AndSmall(PAGE_PRESENT, 0x8_0000_0000_0000, 12);
    assert And(1, 2) == 0 && And(1, 4) == 0 by {
      AndStep(1, 2); AndStep(1, 4); AndZero(1); AndZero(2);
    }
  }

  // ---- Rounding, in 64-bit arithmetic ----

  function RoundDown(a: nat): (r: nat)
    ensures r <= a < r + PAGE_SIZE && r % PAGE_SIZE == 0
  {
    a - a % PAGE_SIZE
  }

  /** ROUNDUP adds before it rounds down, and the addition wraps at 2^64. */
  function RoundUp(a: nat): (r: nat)
    ensures r % PAGE_SIZE == 0
  {
    RoundDown(Wrap(a + PAGE_SIZE - 1))
  }

  /** ROUNDUP is the least page boundary at or above its argument exactly when the addition does
      not wrap; otherwise it is 0. */
  lemma RoundUpIsCeiling(a: nat)
    requires a < WORD_LIMIT
    ensures a + PAGE_SIZE <= WORD_LIMIT ==> a <= RoundUp(a) < a + PAGE_SIZE
    ensures a + PAGE_SIZE > WORD_LIMIT ==> RoundUp(a) == 0
  {
  }

  lemma RoundsToItself(a: nat)
    requires a % PAGE_SIZE == 0 && a + PAGE_SIZE <= WORD_LIMIT
    ensures RoundUp(a) == a && RoundDown(a) == a
  {
    RoundUpIsCeiling(a);
  }

  lemma RoundUpShift(va: nat, size: nat)
    requires va % PAGE_SIZE == 0 && va + size + PAGE_SIZE <= WORD_LIMIT
    ensures RoundUp(va + size) == va + RoundUp(size) && RoundDown(va) == va
  {
    RoundUpIsCeiling(size);
    RoundUpIsCeiling(va + size);
  }
}
