/** Address translation as the RISC-V Privileged Architecture (version 20211203) defines
    it for Sv48, sections 4.3.2 and 4.5, and its agreement with the software walk. */
module Sv48 {
  import opened Bits
  import opened PhysicalMemory
  import opened PageTableEntries
  import opened PageTree
  import opened PhysicalPages
  import opened Paging
  import Pools = PagePool

  const PPN_LIMIT := 0x1000_0000_0000

  datatype Translation = Physical(pa: nat) | PageFault

  predicate V(e: Word) { e % 2 == 1 }
  predicate R(e: Word) { e / 2 % 2 == 1 }
  predicate W(e: Word) { e / 4 % 2 == 1 }
  predicate X(e: Word) { e / 8 % 2 == 1 }
  predicate U(e: Word) { e / 16 % 2 == 1 }
  predicate A(e: Word) { e / 64 % 2 == 1 }
  predicate D(e: Word) { e / 128 % 2 == 1 }
  function Ppn(e: Word): nat { e / 1024 % PPN_LIMIT }

  /** Bits 63 to 54 are reserved. */
  function Reserved(e: Word): nat { e / 0x40_0000_0000_0000 }

  /** The lower and the upper half of the address space. */
  predicate Canonical(va: Word) {
    va < 0x8000_0000_0000 || va >= 0xFFFF_8000_0000_0000
  }

  lemma Shift47(x: nat)
    ensures Shl(x, 47) == 0x8000_0000_0000 * x && Pow2(47) == 0x8000_0000_0000 && Pow2(17) == 0x2_0000
  {
    Shift47Of(x);
    Shift47Of(1);
    Pow2IsShl(47);
    Pow2IsShl(17);
  }

  lemma Shift47Of(x: nat)
    ensures Shl(x, 17) == 0x2_0000 * x && Shl(x, 47) == 0x8000_0000_0000 * x
  {
    assert Shl(x, 2) == 2 * Shl(x, 1) == 4 * x;
    assert Shl(x, 4) == 4 * Shl(x, 2) && Shl(x, 6) == 4 * Shl(x, 4) && Shl(x, 7) == 2 * Shl(x, 6);
    TenMore(x, 7);
    TenMore(x, 17);
    TenMore(x, 27);
    TenMore(x, 37);
  }

  lemma TopBits(va: Word, k: nat)
    ensures Bit(va, 47 + k) == Bit(va / 0x8000_0000_0000, k)
  {
    hide Bit;
    hide Shl;
    hide Pow2;
    var hi, lo := va / 0x8000_0000_0000, va % 0x8000_0000_0000;
    Shift47(hi);
    BitAbove(47, hi, lo, k);
  }

  lemma SignExtendedIsCanonical(va: Word)
    requires forall k: nat :: 48 <= k < 64 ==> Bit(va, k) == Bit(va, 47)
    ensures Canonical(va)
  {
    hide Bit;
    hide Shl;
    hide Pow2;
    var top := va / 0x8000_0000_0000;
    Shift47(top);
    forall k: nat | k < 17 ensures Bit(top, k) == Bit(va, 47) {
      TopBits(va, k);
      assert k > 0 ==> Bit(va, 47 + k) == Bit(va, 47);
    }
    AllBits(17, top, Bit(va, 47));
  }

  lemma CanonicalIsSignExtended(va: Word, k: nat)
    requires Canonical(va) && 48 <= k < 64
    ensures Bit(va, k) == Bit(va, 47)
  {
    hide Bit;
    TopBits(va, 0);
    TopBits(va, k - 47);
    EqualTopBits(va / 0x8000_0000_0000, k - 47);
  }

  /** Bits 63 to 48 equal bit 47, as section 4.5 asks. */
  ghost predicate SignExtended(va: Word) {
    forall k: nat :: 48 <= k < 64 ==> Bit(va, k) == Bit(va, 47)
  }

  /** The comparisons say just that. */
  lemma CanonicalIffSignExtended(va: Word)
    ensures Canonical(va) <==> SignExtended(va)
  {
    if SignExtended(va) {
      SignExtendedIsCanonical(va);
    } else {
      var k: nat :| 48 <= k < 64 && Bit(va, k) != Bit(va, 47);
      if Canonical(va) { CanonicalIsSignExtended(va, k); }
    }
  }

  lemma EqualTopBits(top: nat, k: nat)
    requires (top == 0 || top == 0x1_FFFF) && k < 17
    ensures Bit(top, k) == Bit(top, 0)
  {
    hide Pow2;
    hide Shl;
    Shift47(0);
    if top == 0 {
      ZeroBit(k);
    } else {
      BitOfOnes(17, k);
      BitOfOnes(17, 0);
    }
  }

  /** Field VPN[i] of an address. */
  function VpnField(va: Word, i: nat): nat
    requires i <= 3
  {
    (if i == 0 then va / 0x1000 else if i == 1 then va / 0x20_0000
     else if i == 2 then va / 0x4000_0000 else va / 0x80_0000_0000) % 512
  }

  /** Steps 2 to 8 of section 4.3.2, from the table in frame `a` at level `i`, but for
      the check of the access type in step 5. In step 7 the hardware either sets the bits
      A and D itself or faults when A is clear. */
  function HardwareWalk(m: Ram, a: nat, i: nat, va: Word, setsAccessed: bool): Translation
    requires i <= 3
    decreases i
  {
    var pte := WordAt(m, a, VpnField(va, i));
    if !V(pte) || (!R(pte) && W(pte)) || Reserved(pte) != 0 then PageFault
    else if R(pte) || X(pte) then
      // a leaf; above level 0 a misaligned superpage faults
      if Ppn(pte) % Entries(i) != 0 || (!A(pte) && !setsAccessed) then PageFault
      else Physical((Ppn(pte) + va / PAGE_SIZE % Entries(i)) * PAGE_SIZE + va % PAGE_SIZE)
    else if U(pte) || A(pte) || D(pte) || i == 0 then PageFault
    else HardwareWalk(m, Ppn(pte), i - 1, va, setsAccessed)
  }

  function Hardware(m: Ram, root: nat, va: Word, setsAccessed: bool): Translation {
    if Canonical(va) then HardwareWalk(m, root, 3, va, setsAccessed) else PageFault
  }

  /** The software's answer, read off the flat map. */
  function Software(m: Ram, t: Tables, va: Word): Translation {
    var e := Leaf(m, t, Vpn(va));
    if IsValid(e) then Physical(GetPhysicalAddress(e) + va % PAGE_SIZE) else PageFault
  }

  /** Permissions that the architecture accepts in a leaf. */
  predicate Legal(fl: Flags) {
    (fl.write ==> fl.read) && (fl.read || fl.execute)
  }

  lemma FieldsAreIndices(va: Word, i: nat)
    requires i <= 3
    ensures VpnField(va, i) == Idx(Vpn(va), i)
  {
    IdxIgnoresHighBits(va / PAGE_SIZE, i);
    DivTwice(va, i);
  }

  lemma WordFields(ppn: nat, fl: Flags)
    requires ppn < FRAME_LIMIT
    ensures LeafWord(ppn, fl) < WORD_LIMIT
    ensures var e: Word := LeafWord(ppn, fl);
            V(e) && R(e) == fl.read && W(e) == fl.write && X(e) == fl.execute && U(e) == fl.user &&
            !A(e) && !D(e) && (Reserved(e) == 0 <==> ppn < PPN_LIMIT) && (ppn < PPN_LIMIT ==> Ppn(e) == ppn)
  {
    var low := LeafWord(0, fl);
    assert LeafWord(ppn, fl) == ppn * 1024 + low;
    LeafLowBits(fl);
    LowPart(ppn, low);
    HighPart(ppn, low);
  }

  lemma HighPart(ppn: nat, low: nat)
    requires low < 32 && ppn < FRAME_LIMIT
    ensures (ppn * 1024 + low) / 64 % 2 == 0 && (ppn * 1024 + low) / 128 % 2 == 0
    ensures (ppn * 1024 + low) / 0x40_0000_0000_0000 == 0 <==> ppn < PPN_LIMIT
  {
    Bit6(ppn * 8, low);
    Bit7(ppn * 4, low);
    Shifted54(ppn * 1024 + low);
  }

  lemma Bit6(a: nat, low: nat)
    requires low < 64
    ensures (128 * a + low) / 64 % 2 == 0
  {
    assert (128 * a + low) / 64 == 2 * a;
  }

  lemma Bit7(a: nat, low: nat)
    requires low < 128
    ensures (256 * a + low) / 128 % 2 == 0
  {
    assert (256 * a + low) / 128 == 2 * a;
  }

  lemma Shifted54(e: nat)
    ensures e / 0x40_0000_0000_0000 == 0 <==> e < 0x40_0000_0000_0000
  {}

  /** On any tree, the hardware's walk down to the last level follows the software's. */
  lemma {:induction false} HardwareFollowsTree(m: Ram, root: nat, t: Tables, va: Word, level: nat, setsAccessed: bool)
    requires IsTree(m, root, t) && level <= 3 && KeyOf(Vpn(va), level) in t
    requires forall k :: k in t ==> t[k] < PPN_LIMIT
    ensures HardwareWalk(m, t[KeyOf(Vpn(va), level)], level, va, setsAccessed) ==
            if KeyOf(Vpn(va), 0) in t then HardwareWalk(m, t[KeyOf(Vpn(va), 0)], 0, va, setsAccessed) else PageFault
    decreases level
  {
    if level > 0 {
      HardwareStep(m, root, t, va, level, setsAccessed);
      if KeyOf(Vpn(va), level - 1) in t {
        HardwareFollowsTree(m, root, t, va, level - 1, setsAccessed);
      } else {
        NoLowerTable(m, root, t, Vpn(va), level - 1);
      }
    }
  }

  lemma HardwareStep(m: Ram, root: nat, t: Tables, va: Word, level: nat, setsAccessed: bool)
    requires IsTree(m, root, t) && 1 <= level <= 3 && KeyOf(Vpn(va), level) in t
    requires forall k :: k in t ==> t[k] < PPN_LIMIT
    ensures HardwareWalk(m, t[KeyOf(Vpn(va), level)], level, va, setsAccessed) ==
            if KeyOf(Vpn(va), level - 1) in t
            then HardwareWalk(m, t[KeyOf(Vpn(va), level - 1)], level - 1, va, setsAccessed)
            else PageFault
  {
    hide IsTree;
    hide Vpn;
    hide Idx;
    hide KeyOf;
    hide VpnField;
    hide TableWord;
    hide LeafWord;
    FieldsAreIndices(va, level);
    PointerEntry(m, root, t, Vpn(va), level);
    if KeyOf(Vpn(va), level - 1) in t {
      PointerFields(t[KeyOf(Vpn(va), level - 1)]);
    }
  }

  lemma PointerFields(ppn: nat)
    requires ppn < PPN_LIMIT
    ensures TableWord(ppn) < WORD_LIMIT
    ensures var e: Word := TableWord(ppn);
            V(e) && !R(e) && !W(e) && !X(e) && !U(e) && !A(e) && !D(e) && Reserved(e) == 0 && Ppn(e) == ppn
  {
    WordFields(ppn, Flags(false, false, false, false));
  }

  lemma PointerEntry(m: Ram, root: nat, t: Tables, vpn: nat, level: nat)
    requires IsTree(m, root, t) && 1 <= level <= 3 && KeyOf(vpn, level) in t
    ensures WordAt(m, t[KeyOf(vpn, level)], Idx(vpn, level)) as nat ==
            if KeyOf(vpn, level - 1) in t then TableWord(t[KeyOf(vpn, level - 1)]) else 0
  {
    hide Entries;
    hide TableWord;
    var k, i := KeyOf(vpn, level), Idx(vpn, level);
    KeyStep(vpn, level);
    assert TableOk(m, t, k) && EntryOk(m, t, k, i);
  }

  lemma RootIsThere(m: Ram, root: nat, t: Tables, va: Word)
    requires IsTree(m, root, t)
    ensures KeyOf(Vpn(va), 3) in t && t[KeyOf(Vpn(va), 3)] == root
  {}

  /** The hardware finds the software's translation exactly when nothing is mapped there,
      or the address is canonical, the page lies below 2^56, its permissions are legal and
      not empty, and the hardware sets the accessed bit, which `map` leaves clear. */
  lemma HardwareAgreesIff(m: Ram, root: nat, t: Tables, va: Word, ppn: nat, fl: Flags, setsAccessed: bool)
    requires IsTree(m, root, t) && (forall k :: k in t ==> t[k] < PPN_LIMIT) && ppn < FRAME_LIMIT
    requires Leaf(m, t, Vpn(va)) == 0 || Leaf(m, t, Vpn(va)) as nat == LeafWord(ppn, fl)
    ensures Hardware(m, root, va, setsAccessed) == Software(m, t, va) <==>
            Leaf(m, t, Vpn(va)) == 0 || (Canonical(va) && ppn < PPN_LIMIT && Legal(fl) && setsAccessed)
  {
    RootIsThere(m, root, t, va);
    HardwareFollowsTree(m, root, t, va, 3, setsAccessed);
    LastLevel(m, root, t, va, ppn, fl, setsAccessed);
    LeafReadsBack(ppn, fl);
    ZeroIsInvalid();
    hide HardwareWalk;
    hide IsTree;
    hide KeyOf;
    hide Vpn;
    hide LeafWord;
    hide IsValid;
    hide GetPhysicalAddress;
  }

  lemma LastLevel(m: Ram, root: nat, t: Tables, va: Word, ppn: nat, fl: Flags, setsAccessed: bool)
    requires IsTree(m, root, t) && ppn < FRAME_LIMIT
    requires Leaf(m, t, Vpn(va)) == 0 || Leaf(m, t, Vpn(va)) as nat == LeafWord(ppn, fl)
    ensures KeyOf(Vpn(va), 0) in t ==>
              HardwareWalk(m, t[KeyOf(Vpn(va), 0)], 0, va, setsAccessed) ==
              if Leaf(m, t, Vpn(va)) != 0 && ppn < PPN_LIMIT && Legal(fl) && setsAccessed
              then Physical(ppn * PAGE_SIZE + va % PAGE_SIZE)
              else PageFault
    ensures KeyOf(Vpn(va), 0) !in t ==> Leaf(m, t, Vpn(va)) == 0
  {
    FieldsAreIndices(va, 0);
    WordFields(ppn, fl);
    assert Idx(Vpn(va), 0) == Vpn(va) % 512;
    hide LeafWord;
    hide IsTree;
    hide Vpn;
  }

  /** What the hardware finds in the pages that one `map` call has added. */
  lemma HardwareSeesMapping(m0: Ram, t0: Tables, m: Ram, root: nat, t: Tables, va: nat, pa: nat, fl: Flags,
                            n: nat, b: Word, setsAccessed: bool)
    requires IsTree(m, root, t) && (forall k :: k in t ==> t[k] < PPN_LIMIT)
    requires MapsPrefix(m0, t0, m, t, va, pa, fl, n) && Offset(Vpn(b), va) < n
    requires pa / PAGE_SIZE + n <= FRAME_LIMIT
    ensures Hardware(m, root, b, setsAccessed) ==
            Physical((pa / PAGE_SIZE + Offset(Vpn(b), va)) * PAGE_SIZE + b % PAGE_SIZE) <==>
            Canonical(b) && pa / PAGE_SIZE + Offset(Vpn(b), va) < PPN_LIMIT && Legal(fl) && setsAccessed
  {
    hide Hardware;
    hide IsTree;
    hide Leaf;
    hide LeafWord;
    hide Vpn;
    hide IsValid;
    hide GetPhysicalAddress;
    var ppn := pa / PAGE_SIZE + Offset(Vpn(b), va);
    LeafReadsBack(ppn, fl);
    ZeroIsInvalid();
    HardwareAgreesIff(m, root, t, b, ppn, fl, setsAccessed);
  }

  /* ---------- trees that `map` has built ---------- */

  /** No translation, or one that the architecture accepts. */
  ghost predicate LegalLeaf(e: Word) {
    e == 0 || exists ppn: nat, fl :: ppn < PPN_LIMIT && Legal(fl) && e as nat == LeafWord(ppn, fl)
  }

  ghost predicate LegalTree(m: Ram, t: Tables) {
    forall vpn: nat :: vpn < VPN_LIMIT ==> LegalLeaf(Leaf(m, t, vpn))
  }

  /** One moment in the life of an address space, and what leads to the next one: a call
      of `map` with its outcome, or anything that leaves the space's tables alone. */
  datatype Snapshot = Snapshot(pool: Pool, mem: Ram, tables: Tables)

  datatype Change = Maps(request: MapRequest, outcome: Result<()>, done: nat) | Elsewhere

  ghost predicate Step(root: nat, s: Snapshot, c: Change, s': Snapshot) {
    match c
    case Maps(q, outcome, done) =>
      Mapped(s.pool, s.mem, s.tables, s'.pool, s'.mem, s'.tables, root, q.va, q.pa, q.size, q.flags, outcome, done)
    case Elsewhere =>
      s'.tables == s.tables && Owned(s'.pool, s.tables) &&
      forall k :: k in s.tables ==> PageAt(s'.mem, s.tables[k]) == PageAt(s.mem, s.tables[k])
  }

  /** The life of an address space from its zeroed root page on. */
  ghost predicate History(root: nat, life: seq<Snapshot>, changes: seq<Change>) {
    && |life| == |changes| + 1
    && life[0].tables == map[ROOT_KEY := root]
    && root < FRAME_LIMIT && root in life[0].pool.live && PageAt(life[0].mem, root) == ZeroPage()
    && forall i :: 0 <= i < |changes| ==> Step(root, life[i], changes[i], life[i + 1])
  }

  lemma HistoryStarts(root: nat, s: Snapshot)
    requires s.tables == map[ROOT_KEY := root] && root < FRAME_LIMIT && root in s.pool.live
    requires PageAt(s.mem, root) == ZeroPage()
    ensures History(root, [s], [])
  {}

  lemma HistoryGrows(root: nat, life: seq<Snapshot>, changes: seq<Change>, c: Change, s: Snapshot)
    requires History(root, life, changes) && Step(root, life[|changes|], c, s)
    ensures History(root, life + [s], changes + [c])
  {
    hide Step;
  }

  /** A request for pages below 2^56 with permissions that are legal and not empty. */
  predicate LegalRequest(q: MapRequest) {
    Legal(q.flags) && q.pa + q.size <= PPN_LIMIT * PAGE_SIZE
  }

  ghost predicate LegalSpace(root: nat, s: Snapshot) {
    IsTree(s.mem, root, s.tables) && Owned(s.pool, s.tables) && LegalTree(s.mem, s.tables)
  }

  lemma MappingIsLegal(m: Ram, t: Tables, m': Ram, t': Tables, va: nat, pa: nat, fl: Flags, n: nat)
    requires LegalTree(m, t) && MapsPrefix(m, t, m', t', va, pa, fl, n)
    requires Legal(fl) && (n > 0 ==> pa / PAGE_SIZE + n <= PPN_LIMIT)
    ensures LegalTree(m', t')
  {
    hide Leaf;
    hide LeafWord;
    hide Legal;
    forall vpn: nat | vpn < VPN_LIMIT ensures LegalLeaf(Leaf(m', t', vpn)) {
      assert LegalLeaf(Leaf(m, t, vpn));
      assert Offset(vpn, va) < n ==> pa / PAGE_SIZE + Offset(vpn, va) < PPN_LIMIT;
    }
  }

  lemma StepKeepsLegal(root: nat, s: Snapshot, c: Change, s': Snapshot)
    requires LegalSpace(root, s) && Step(root, s, c, s') && (c.Maps? ==> LegalRequest(c.request))
    ensures LegalSpace(root, s')
  {
    hide IsTree;
    hide Leaf;
    hide LegalLeaf;
    hide LeafWord;
    hide Pools.Allocate;
    match c
    case Maps(q, outcome, done) =>
      GrownIsOwned(s.pool, s.mem, s.tables, s'.pool, s'.mem, s'.tables, root);
      MappingIsLegal(s.mem, s.tables, s'.mem, s'.tables, q.va, q.pa, q.flags, done);
    case Elsewhere =>
      TreeFrame(s.mem, s'.mem, root, s.tables);
  }

  lemma {:induction false} HistoryIsLegal(root: nat, life: seq<Snapshot>, changes: seq<Change>, i: nat)
    requires History(root, life, changes) && i <= |changes|
    requires forall c :: c in changes && c.Maps? ==> LegalRequest(c.request)
    ensures LegalSpace(root, life[i])
  {
    hide IsTree;
    hide Leaf;
    hide Step;
    if i == 0 {
      EmptyTree(life[0].mem, root);
    } else {
      HistoryIsLegal(root, life, changes, i - 1);
      assert changes[i - 1] in changes;
      StepKeepsLegal(root, life[i - 1], changes[i - 1], life[i]);
    }
  }

  /** Memory below 2^56 keeps the tables there. */
  lemma TablesAreLow(p: Pool, t: Tables)
    requires Pools.Sound(p) && Owned(p, t) && p.end <= PPN_LIMIT * PAGE_SIZE
    ensures forall k :: k in t ==> t[k] < PPN_LIMIT
  {
    hide Pools.Indexed;
  }

  /** After any sequence of `map` calls with legal requests, whatever their results and
      whatever happened in between, the hardware translates every canonical address as
      the software does. Hardware that leaves the accessed bit to the kernel faults
      everywhere, and every hardware faults at other addresses. */
  lemma HardwareAgreesAlways(root: nat, life: seq<Snapshot>, changes: seq<Change>, va: Word, setsAccessed: bool)
    requires History(root, life, changes)
    requires forall q, outcome, done :: Maps(q, outcome, done) in changes ==>
                                          (q.flags.write ==> q.flags.read) && (q.flags.read || q.flags.execute) &&
                                          q.pa + q.size <= 0x100_0000_0000_0000
    requires var p := life[|changes|].pool; Pools.Sound(p) && p.end <= 0x100_0000_0000_0000
    ensures var s := life[|changes|];
            Hardware(s.mem, root, va, setsAccessed) ==
            if setsAccessed && SignExtended(va) then Software(s.mem, s.tables, va) else PageFault
  {
    hide Step;
    hide Bit;
    hide IsTree;
    hide Leaf;
    hide LeafWord;
    hide Vpn;
    hide Hardware;
    var s := life[|changes|];
    HistoryIsLegal(root, life, changes, |changes|);
    TablesAreLow(s.pool, s.tables);
    LegalLeafAgrees(s.mem, root, s.tables, va, setsAccessed);
    CanonicalIffSignExtended(va);
  }

  lemma LegalLeafAgrees(m: Ram, root: nat, t: Tables, va: Word, setsAccessed: bool)
    requires IsTree(m, root, t) && (forall k :: k in t ==> t[k] < PPN_LIMIT) && LegalLeaf(Leaf(m, t, Vpn(va)))
    ensures Hardware(m, root, va, setsAccessed) ==
            if Canonical(va) && setsAccessed then Software(m, t, va) else PageFault
  {
    hide HardwareWalk;
    hide IsTree;
    hide KeyOf;
    hide Vpn;
    hide LeafWord;
    hide IsValid;
    hide GetPhysicalAddress;
    ZeroIsInvalid();
    RootIsThere(m, root, t, va);
    HardwareFollowsTree(m, root, t, va, 3, setsAccessed);
    if Leaf(m, t, Vpn(va)) == 0 {
      LastLevel(m, root, t, va, 0, Flags(true, false, false, false), setsAccessed);
    } else {
      var ppn: nat, fl :| ppn < PPN_LIMIT && Legal(fl) && Leaf(m, t, Vpn(va)) as nat == LeafWord(ppn, fl);
      LeafReadsBack(ppn, fl);
      LastLevel(m, root, t, va, ppn, fl, setsAccessed);
    }
  }
}
