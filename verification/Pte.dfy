/** Page table entries of arch/riscv/src/vm/pte.rs: a 64-bit word with flags in the
    low ten bits and the physical page number above them. */
module PageTableEntries {
  import opened Bits
  import opened PhysicalMemory

  const VALID := Pow2(0)
  const READ := Pow2(1)
  const WRITE := Pow2(2)
  const EXECUTE := Pow2(3)
  const USER := Pow2(4)

  datatype Flags = Flags(read: bool, write: bool, execute: bool, user: bool)

  function SetBit(src: nat, target: nat): nat { BitOr(target, src) }

  /** `original |= (pa >> 12) << 10` */
  function SetPhysicalAddress(e: nat, pa: Word): nat { BitOr(e, pa / PAGE_SIZE * 1024) }

  /** `(e >> 10) << 12` in 64 bits. */
  function GetPhysicalAddress(e: Word): Word { e / 1024 * PAGE_SIZE % WORD_LIMIT }

  predicate IsValid(e: Word) { BitAnd(e, VALID) == 1 }
  predicate Readable(e: Word) { BitAnd(e, READ) != 0 }
  predicate Writeable(e: Word) { BitAnd(e, WRITE) != 0 }
  predicate Executable(e: Word) { BitAnd(e, EXECUTE) != 0 }
  predicate UserModeAccessible(e: Word) { BitAnd(e, USER) != 0 }

  function FlagsOf(e: Word): Flags {
    Flags(Readable(e), Writeable(e), Executable(e), UserModeAccessible(e))
  }

  /** The calls by which the walk links a new table into entry `e`. */
  function LinkTable(e: nat, pa: Word): nat {
    SetBit(VALID, SetPhysicalAddress(e, pa))
  }

  /** The calls by which `map` fills the final entry `e`. */
  function FillLeaf(e: nat, pa: Word, fl: Flags): nat {
    var e1 := SetBit(VALID, SetPhysicalAddress(e, pa));
    var e2 := if fl.read then SetBit(READ, e1) else e1;
    var e3 := if fl.write then SetBit(WRITE, e2) else e2;
    var e4 := if fl.execute then SetBit(EXECUTE, e3) else e3;
    if fl.user then SetBit(USER, e4) else e4
  }

  /** The word that should stand in an entry for page `ppn`. */
  function LeafWord(ppn: nat, fl: Flags): nat {
    ppn * 1024 + 1 + (if fl.read then 2 else 0) + (if fl.write then 4 else 0)
    + (if fl.execute then 8 else 0) + (if fl.user then 16 else 0)
  }

  function TableWord(ppn: nat): nat { ppn * 1024 + 1 }

  const FRAME_LIMIT := 0x10_0000_0000_0000

  /** Low bits of a word, by position. */
  lemma LowBits(e: nat)
    ensures Bit(e, 0) == (e % 2 == 1) && Bit(e, 1) == (e / 2 % 2 == 1) && Bit(e, 2) == (e / 4 % 2 == 1)
    ensures Bit(e, 3) == (e / 8 % 2 == 1) && Bit(e, 4) == (e / 16 % 2 == 1)
  {
    assert e / 2 / 2 == e / 4;
    assert e / 4 / 2 == e / 8;
    assert e / 8 / 2 == e / 16;
    assert Bit(e, 1) == Bit(e / 2, 0);
    assert Bit(e, 2) == Bit(e / 2, 1) == Bit(e / 4, 0);
    assert Bit(e, 3) == Bit(e / 2, 2) == Bit(e / 4, 1) == Bit(e / 8, 0);
    assert Bit(e, 4) == Bit(e / 2, 3) == Bit(e / 4, 2) == Bit(e / 8, 1) == Bit(e / 16, 0);
  }

  lemma SmallPowers()
    ensures Pow2(0) == 1 && Pow2(1) == 2 && Pow2(2) == 4 && Pow2(3) == 8 && Pow2(4) == 16
  {}

  /** On an all-zero entry the OR of `set_physical_address` and the flag setters build
      exactly the intended word. */
  lemma FillIsExact(pa: Word, fl: Flags)
    ensures FillLeaf(0, pa, fl) == LeafWord(pa / PAGE_SIZE, fl)
    ensures LinkTable(0, pa) == TableWord(pa / PAGE_SIZE)
  {
    hide BitOr;
    hide Bit;
    hide Pow2;
    SmallPowers();
    var w := pa / PAGE_SIZE * 1024;
    OrZero(w);
    LowBits(w);
    OrPow2(w, 0);
    FlagsAddUp(w, fl);
  }

  lemma FlagsAddUp(w: nat, fl: Flags)
    requires w % 1024 == 0
    ensures var e1 := w + 1;
            var e2 := if fl.read then SetBit(READ, e1) else e1;
            var e3 := if fl.write then SetBit(WRITE, e2) else e2;
            var e4 := if fl.execute then SetBit(EXECUTE, e3) else e3;
            (if fl.user then SetBit(USER, e4) else e4) ==
            w + 1 + (if fl.read then 2 else 0) + (if fl.write then 4 else 0)
            + (if fl.execute then 8 else 0) + (if fl.user then 16 else 0)
  {
    hide BitOr;
    hide Pow2;
    SmallPowers();
    var low1 := 1;
    FlagStep(w, low1, 1);
    var low2 := if fl.read then low1 + 2 else low1;
    FlagStep(w, low2, 2);
    var low3 := if fl.write then low2 + 4 else low2;
    FlagStep(w, low3, 3);
    var low4 := if fl.execute then low3 + 8 else low3;
    FlagStep(w, low4, 4);
  }

  lemma FlagStep(w: nat, low: nat, k: nat)
    requires w % 1024 == 0 && 1 <= k <= 4 && low < Pow2(k)
    ensures BitOr(w + low, Pow2(k)) == w + low + Pow2(k)
  {
    hide BitOr;
    hide Pow2;
    hide Bit;
    SmallPowers();
    var x, ppn := w + low, w / 1024;
    assert x == ppn * 1024 + low;
    LowPart(ppn, low);
    LowBits(x);
    OrPow2(x, k);
  }

  /** A well-formed entry reads back as what was put in. */
  lemma LeafReadsBack(ppn: nat, fl: Flags)
    requires ppn < FRAME_LIMIT
    ensures LeafWord(ppn, fl) < WORD_LIMIT && IsValid(LeafWord(ppn, fl))
    ensures GetPhysicalAddress(LeafWord(ppn, fl)) == ppn * PAGE_SIZE && FlagsOf(LeafWord(ppn, fl)) == fl
  {
    hide IsValid;
    hide Readable;
    hide Writeable;
    hide Executable;
    hide UserModeAccessible;
    hide LeafWord;
    hide GetPhysicalAddress;
    var low := LeafWord(0, fl);
    LeafParts(ppn, fl);
    LeafLowBits(fl);
    ReadsBits(ppn * 1024 + low);
    LowPart(ppn, low);
    AddressOf(ppn * 1024 + low, ppn);
  }

  lemma AddressOf(e: Word, ppn: nat)
    requires e / 1024 == ppn < FRAME_LIMIT
    ensures GetPhysicalAddress(e) == ppn * PAGE_SIZE
  {}

  /** The address bits above the 52 that the reader keeps. */
  lemma NoAddress(e: Word)
    requires GetPhysicalAddress(e) == 0
    ensures e / 1024 == FRAME_LIMIT * (e / 1024 / FRAME_LIMIT)
  {}

  lemma AddressAbove(c: nat, ppn: nat, low: nat)
    requires ppn < FRAME_LIMIT && low < 1024 && 1024 * (FRAME_LIMIT * c + ppn) + low < WORD_LIMIT
    ensures GetPhysicalAddress(1024 * (FRAME_LIMIT * c + ppn) + low) == ppn * PAGE_SIZE
  {
    assert (1024 * (FRAME_LIMIT * c + ppn) + low) / 1024 == FRAME_LIMIT * c + ppn;
    assert (FRAME_LIMIT * c + ppn) * PAGE_SIZE == WORD_LIMIT * c + ppn * PAGE_SIZE;
    WrapAround(c, ppn * PAGE_SIZE);
  }

  lemma WrapAround(c: nat, x: Word)
    ensures (WORD_LIMIT * c + x) % WORD_LIMIT == x
  {}

  lemma LeafParts(ppn: nat, fl: Flags)
    ensures LeafWord(ppn, fl) == ppn * 1024 + LeafWord(0, fl)
  {}

  lemma LeafLowBits(fl: Flags)
    ensures var low := LeafWord(0, fl);
            low < 32 && low % 2 == 1 && (low / 2 % 2 == 1) == fl.read && (low / 4 % 2 == 1) == fl.write &&
            (low / 8 % 2 == 1) == fl.execute && (low / 16 % 2 == 1) == fl.user
  {}

  lemma LowPart(ppn: nat, c: nat)
    requires c < 1024
    ensures (ppn * 1024 + c) / 1024 == ppn
    ensures (ppn * 1024 + c) % 2 == c % 2 && (ppn * 1024 + c) / 2 % 2 == c / 2 % 2
    ensures (ppn * 1024 + c) / 4 % 2 == c / 4 % 2 && (ppn * 1024 + c) / 8 % 2 == c / 8 % 2
    ensures (ppn * 1024 + c) / 16 % 2 == c / 16 % 2
  {
    var e := ppn * 1024 + c;
    Halving(ppn * 512, c);
    Halving(ppn * 256, c / 2);
    Halving(ppn * 128, c / 4);
    Halving(ppn * 64, c / 8);
    Halving(ppn * 32, c / 16);
    DivPowers(e);
    DivPowers(c);
  }

  lemma DivPowers(e: nat)
    ensures e / 4 == e / 2 / 2 && e / 8 == e / 4 / 2 && e / 16 == e / 8 / 2
  {}

  lemma Halving(a: nat, c: nat)
    ensures (2 * a + c) / 2 == a + c / 2 && (2 * a + c) % 2 == c % 2
  {}

  lemma TableReadsBack(ppn: nat)
    requires ppn < FRAME_LIMIT
    ensures TableWord(ppn) < WORD_LIMIT && IsValid(TableWord(ppn))
    ensures GetPhysicalAddress(TableWord(ppn)) == ppn * PAGE_SIZE
    ensures FlagsOf(TableWord(ppn)) == Flags(false, false, false, false)
  {
    LeafReadsBack(ppn, Flags(false, false, false, false));
  }

  /** The masks of the readers test single bits. */
  lemma ReadsBits(e: Word)
    ensures IsValid(e) == (e % 2 == 1)
    ensures Readable(e) == (e / 2 % 2 == 1) && Writeable(e) == (e / 4 % 2 == 1)
    ensures Executable(e) == (e / 8 % 2 == 1) && UserModeAccessible(e) == (e / 16 % 2 == 1)
  {
    SmallPowers();
    LowBits(e);
    MaskTest(e, 0);
    MaskTest(e, 1);
    MaskTest(e, 2);
    MaskTest(e, 3);
    MaskTest(e, 4);
  }

  lemma ZeroIsInvalid()
    ensures !IsValid(0)
  {
    ReadsBits(0);
  }

  lemma BigShifts(x: nat)
    ensures Shl(x, 10) == 1024 * x && Shl(x, 52) == FRAME_LIMIT * x
    ensures Pow2(10) == 1024 && Pow2(52) == FRAME_LIMIT
  {
    ShlTen(x);
    ShlTen(1);
    Pow2IsShl(10);
    Pow2IsShl(52);
  }

  lemma ShlTen(x: nat)
    ensures Shl(x, 10) == 1024 * x && Shl(x, 52) == FRAME_LIMIT * x
  {
    TenMore(x, 0);
    TenMore(x, 10);
    TenMore(x, 20);
    TenMore(x, 30);
    TenMore(x, 40);
    assert Shl(x, 52) == 2 * Shl(x, 51) && Shl(x, 51) == 2 * Shl(x, 50);
  }

  lemma SetAddressIsExact(e: Word, pa: Word)
    requires pa % PAGE_SIZE == 0 && GetPhysicalAddress(e) == 0
    ensures SetPhysicalAddress(e, pa) == e + pa / PAGE_SIZE * 1024
    ensures GetPhysicalAddress(SetPhysicalAddress(e, pa)) == pa
  {
    hide BitOr;
    hide GetPhysicalAddress;
    var c, low, ppn := e / 1024 / FRAME_LIMIT, e % 1024, pa / PAGE_SIZE;
    NoAddress(e);
    OrAbove(c, ppn);
    OrBelow(FRAME_LIMIT * c, low, ppn);
    NoOverflow(e, pa);
    AddressAbove(c, ppn, low);
  }

  lemma NoOverflow(e: Word, pa: Word)
    requires e / 1024 == FRAME_LIMIT * (e / 1024 / FRAME_LIMIT)
    ensures e + pa / PAGE_SIZE * 1024 < WORD_LIMIT
  {}

  /** An address is ORed into the address field when that is zero. */
  lemma OrAbove(c: nat, ppn: nat)
    requires ppn < FRAME_LIMIT
    ensures BitOr(FRAME_LIMIT * c, ppn) == FRAME_LIMIT * c + ppn
  {
    hide BitOr;
    hide Pow2;
    hide Shl;
    BigShifts(c);
    BigShifts(0);
    OrSplit(52, c, 0, 0, ppn);
    OrZero(c);
    OrZero(ppn);
  }

  lemma OrBelow(x: nat, low: nat, ppn: nat)
    requires low < 1024
    ensures BitOr(1024 * x + low, 1024 * ppn) == 1024 * BitOr(x, ppn) + low
  {
    hide BitOr;
    hide Pow2;
    hide Shl;
    BigShifts(x);
    BigShifts(ppn);
    BigShifts(BitOr(x, ppn));
    OrSplit(10, x, low, ppn, 0);
    OrZero(low);
  }

  /** ORing an address in is right for every address exactly when the entry held no
      address before. */
  lemma SetAddressIsExactIff(e: Word)
    ensures (forall pa: Word :: pa % PAGE_SIZE == 0 ==>
               SetPhysicalAddress(e, pa) < WORD_LIMIT && GetPhysicalAddress(SetPhysicalAddress(e, pa)) == pa)
            <==> GetPhysicalAddress(e) == 0
  {
    if GetPhysicalAddress(e) == 0 {
      forall pa: Word | pa % PAGE_SIZE == 0
        ensures SetPhysicalAddress(e, pa) < WORD_LIMIT && GetPhysicalAddress(SetPhysicalAddress(e, pa)) == pa
      {
        SetAddressIsExact(e, pa);
      }
    } else {
      OrZero(e);
      assert SetPhysicalAddress(e, 0) == e;
    }
  }
}
