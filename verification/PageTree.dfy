/** The four-level page tables of hal/src/vm.rs and arch/riscv/src/vm.rs as they lie in
    physical memory, and the flat map from page numbers to final entries that they
    stand for. A table is named by its level and by the page-number bits above it. */
module PageTree {
  import opened Bits
  import opened PhysicalMemory
  import opened PageTableEntries

  const VPN_LIMIT := 0x10_0000_0000

  datatype Error =
    | PageAlreadyMapped(va: nat) | NoSuchVirtualAddress(va: nat, pt: nat)
    | VirtualAddressMisaligned(va: nat) | SizeMisaligned(size: nat) | ZeroSize
    | MemoryNotAvailable

  /** `Panicked` stands for a failed assertion, `unwrap` or overflow check. */
  datatype Result<T> = Ok(value: T) | Err(error: Error) | Panicked

  /** The entry `index` of the table in frame `frame`. */
  datatype Slot = Slot(frame: nat, index: nat)

  datatype Key = Key(level: nat, prefix: nat)
  type Tables = map<Key, nat>

  function Entries(level: nat): (n: nat)
    requires level <= 4
    ensures n > 0
  {
    if level == 0 then 1 else if level == 1 then 512 else if level == 2 then 0x4_0000
    else if level == 3 then 0x800_0000 else VPN_LIMIT
  }

  /** The 36 bits of an address that the walk looks at. */
  function Vpn(va: nat): (v: nat) ensures v < VPN_LIMIT { va / PAGE_SIZE % VPN_LIMIT }

  function Idx(vpn: nat, level: nat): (i: nat)
    requires level <= 3
    ensures i < 512
  {
    vpn / Entries(level) % 512
  }

  function KeyOf(vpn: nat, level: nat): Key
    requires level <= 3
  {
    Key(level, vpn / Entries(level + 1))
  }

  function Child(k: Key, i: nat): Key
    requires k.level > 0
  {
    Key(k.level - 1, k.prefix * 512 + i)
  }

  function Parent(k: Key): Key { Key(k.level + 1, k.prefix / 512) }

  const ROOT_KEY := Key(3, 0)

  /** `va >> (12 + (level * 9)) & 0b111111111` */
  function LevelToIndex(level: nat, va: nat): nat {
    BitAnd(ShiftRight(va, 12 + level * 9), 0x1FF)
  }

  lemma KeyStep(vpn: nat, level: nat)
    requires 1 <= level <= 3
    ensures Child(KeyOf(vpn, level), Idx(vpn, level)) == KeyOf(vpn, level - 1)
    ensures Parent(KeyOf(vpn, level - 1)) == KeyOf(vpn, level)
  {
    EntriesStep(vpn, level);
    hide Entries;
    QuotientAndRemainder(vpn / Entries(level));
  }

  lemma EntriesStep(vpn: nat, level: nat)
    requires 1 <= level <= 3
    ensures vpn / Entries(level + 1) == vpn / Entries(level) / 512
  {
    if level == 1 {
      assert vpn / 0x4_0000 == vpn / 512 / 512;
    } else if level == 2 {
      assert vpn / 0x800_0000 == vpn / 0x4_0000 / 512;
    } else {
      assert vpn / VPN_LIMIT == vpn / 0x800_0000 / 512;
    }
  }

  lemma QuotientAndRemainder(x: nat)
    ensures x / 512 * 512 + x % 512 == x
  {}

  lemma ParentOfChild(k: Key, i: nat)
    requires k.level > 0 && i < 512
    ensures Parent(Child(k, i)) == k && Child(k, i).prefix % 512 == i
  {}

  lemma ChildOfParent(k: Key)
    ensures Child(Parent(k), k.prefix % 512) == k
  {}

  /* ---------- the tree ---------- */

  /** One root, every other table under a table one level up, and no frame used for
      two tables. */
  ghost predicate Shape(root: nat, t: Tables) {
    && ROOT_KEY in t && t[ROOT_KEY] == root
    && (forall k :: k in t ==> k.level <= 3 && t[k] < FRAME_LIMIT)
    && (forall k :: k in t && k.level == 3 ==> k == ROOT_KEY)
    && (forall k :: k in t && k.level < 3 ==> Parent(k) in t)
    && (forall k, k' :: k in t && k' in t && t[k] == t[k'] ==> k == k')
  }

  /** An invalid entry is all zero bits; above the last level a valid entry points to
      the table one level down and carries no permission. */
  ghost predicate EntryOk(m: Ram, t: Tables, k: Key, i: nat)
    requires k in t && i < 512
  {
    var e := WordAt(m, t[k], i);
    && (!IsValid(e) ==> e == 0)
    && (k.level > 0 ==> (IsValid(e) <==> Child(k, i) in t))
    && (k.level > 0 && IsValid(e) ==> e == TableWord(t[Child(k, i)]))
  }

  ghost predicate TableOk(m: Ram, t: Tables, k: Key)
    requires k in t
  {
    forall i: nat :: i < 512 ==> EntryOk(m, t, k, i)
  }

  ghost predicate IsTree(m: Ram, root: nat, t: Tables) {
    Shape(root, t) && forall k :: k in t ==> TableOk(m, t, k)
  }

  /** The flat map: the final entry for a page number, zero when there is none. */
  function Leaf(m: Ram, t: Tables, vpn: nat): Word {
    var k := KeyOf(vpn, 0);
    if k in t then WordAt(m, t[k], vpn % 512) else 0
  }

  ghost predicate SameFlat(m: Ram, t: Tables, m': Ram, t': Tables) {
    forall vpn: nat :: Leaf(m', t', vpn) == Leaf(m, t, vpn)
  }

  /** Memory in which the word of one slot is replaced. */
  function Store(m: Ram, f: nat, i: nat, w: Word): Ram
    requires i < 512
  {
    m[f := PageAt(m, f)[i := w]]
  }

  /** Tables depend on their own frames only. */
  lemma TreeFrame(m: Ram, m': Ram, root: nat, t: Tables)
    requires IsTree(m, root, t)
    requires forall k :: k in t ==> PageAt(m', t[k]) == PageAt(m, t[k])
    ensures IsTree(m', root, t) && SameFlat(m, t, m', t)
  {
    forall k | k in t ensures TableOk(m', t, k) {
      assert TableOk(m, t, k);
      forall i: nat | i < 512 ensures EntryOk(m', t, k, i) {
        assert EntryOk(m, t, k, i);
      }
    }
  }

  /** Memory determines the tree: the root reaches one set of tables, and each table
      at one place only. */
  lemma {:induction false} TreeIsUnique(m: Ram, root: nat, t: Tables, t': Tables, k: Key)
    requires IsTree(m, root, t) && IsTree(m, root, t')
    ensures k in t <==> k in t'
    ensures k in t ==> t[k] == t'[k]
    decreases 3 - k.level
  {
    if k.level < 3 {
      TreeIsUnique(m, root, t, t', Parent(k));
      ChildOfParent(k);
      var p, i := Parent(k), k.prefix % 512;
      if p in t {
        assert TableOk(m, t, p) && TableOk(m, t', p);
        assert EntryOk(m, t, p, i) && EntryOk(m, t', p, i);
        if k in t {
          assert TableWord(t[k]) == TableWord(t'[k]);
        }
      }
    }
  }

  /* ---------- the software walk ---------- */

  /** `get_page_table_entry_address` without allocation. */
  function WalkFrom(m: Ram, f: nat, level: nat, va: nat): Result<Slot>
    requires level <= 3
    decreases level
  {
    var i := Idx(Vpn(va), level);
    if level == 0 then Ok(Slot(f, i))
    else
      var e := WordAt(m, f, i);
      if IsValid(e) then WalkFrom(m, GetPhysicalAddress(e) / PAGE_SIZE, level - 1, va)
      else Err(NoSuchVirtualAddress(va, f * PAGE_SIZE))
  }

  /** What the walk reads at one level: the entry is valid exactly when the tree has
      the next table, and then holds its address. */
  lemma WalkStep(m: Ram, root: nat, t: Tables, vpn: nat, level: nat)
    requires IsTree(m, root, t) && 1 <= level <= 3 && KeyOf(vpn, level) in t
    ensures var e := WordAt(m, t[KeyOf(vpn, level)], Idx(vpn, level));
            var next := KeyOf(vpn, level - 1);
            if next in t then IsValid(e) && GetPhysicalAddress(e) == t[next] * PAGE_SIZE
            else !IsValid(e) && e == 0
  {
    hide Entries;
    var k, i := KeyOf(vpn, level), Idx(vpn, level);
    KeyStep(vpn, level);
    assert TableOk(m, t, k) && EntryOk(m, t, k, i);
    if Child(k, i) in t {
      TableReadsBack(t[Child(k, i)]);
    }
  }

  lemma WalkUnfolds(m: Ram, f: nat, level: nat, va: nat)
    requires level <= 3
    ensures var i := Idx(Vpn(va), level);
            WalkFrom(m, f, level, va) ==
            if level == 0 then Ok(Slot(f, i))
            else if IsValid(WordAt(m, f, i)) then
              WalkFrom(m, GetPhysicalAddress(WordAt(m, f, i)) / PAGE_SIZE, level - 1, va)
            else Err(NoSuchVirtualAddress(va, f * PAGE_SIZE))
  {
    hide IsValid;
    hide GetPhysicalAddress;
    hide Idx;
    hide Vpn;
  }

  lemma LastIndex(vpn: nat)
    ensures Idx(vpn, 0) == vpn % 512
  {}

  /** The walk finds the last-level table of the page exactly when the tree has one. */
  lemma {:induction false} WalkFollowsTree(m: Ram, root: nat, t: Tables, va: nat, level: nat)
    requires IsTree(m, root, t) && level <= 3 && KeyOf(Vpn(va), level) in t
    ensures var last := KeyOf(Vpn(va), 0);
            var r := WalkFrom(m, t[KeyOf(Vpn(va), level)], level, va);
            if last in t then r == Ok(Slot(t[last], Vpn(va) % 512))
            else r.Err? && r.error.NoSuchVirtualAddress? && r.error.va == va
    decreases level
  {
    hide WalkFrom;
    hide IsValid;
    hide GetPhysicalAddress;
    hide Idx;
    hide KeyOf;
    hide Vpn;
    hide IsTree;
    var vpn := Vpn(va);
    LastIndex(vpn);
    WalkUnfolds(m, t[KeyOf(vpn, level)], level, va);
    if level > 0 {
      WalkStep(m, root, t, vpn, level);
      if KeyOf(vpn, level - 1) in t {
        WalkFollowsTree(m, root, t, va, level - 1);
      } else {
        NoLowerTable(m, root, t, vpn, level - 1);
      }
    }
  }

  /** Where a table is missing, so are the tables below it. */
  lemma {:induction false} NoLowerTable(m: Ram, root: nat, t: Tables, vpn: nat, level: nat)
    requires IsTree(m, root, t) && level <= 2 && KeyOf(vpn, level) !in t
    ensures KeyOf(vpn, 0) !in t
    decreases level
  {
    if level > 0 {
      KeyStep(vpn, level);
      NoLowerTable(m, root, t, vpn, level - 1);
    }
  }

  /* ---------- the two kinds of change that `map` makes ---------- */

  /** Linking a zeroed page as a new table keeps the tree and maps nothing new. */
  lemma LinkKeepsTree(m: Ram, root: nat, t: Tables, k: Key, i: nat, g: nat)
    requires IsTree(m, root, t) && k in t && k.level > 0 && i < 512
    requires !IsValid(WordAt(m, t[k], i))
    requires g < FRAME_LIMIT && (forall x :: x in t ==> t[x] != g) && PageAt(m, g) == ZeroPage()
    ensures TableWord(g) < WORD_LIMIT
    ensures IsTree(Store(m, t[k], i, TableWord(g)), root, t[Child(k, i) := g])
    ensures SameFlat(m, t, Store(m, t[k], i, TableWord(g)), t[Child(k, i) := g])
  {
    TableReadsBack(g);
    var m', t' := Store(m, t[k], i, TableWord(g)), t[Child(k, i) := g];
    assert TableOk(m, t, k) && EntryOk(m, t, k, i);
    ParentOfChild(k, i);
    LinkKeepsShape(root, t, k, i, g);
    forall x | x in t' ensures TableOk(m', t', x) {
      forall j: nat | j < 512 ensures EntryOk(m', t', x, j) {
        LinkKeepsEntry(m, root, t, k, i, g, x, j);
      }
    }
    forall vpn: nat ensures Leaf(m', t', vpn) == Leaf(m, t, vpn) {}
  }

  lemma LinkKeepsEntry(m: Ram, root: nat, t: Tables, k: Key, i: nat, g: nat, x: Key, j: nat)
    requires IsTree(m, root, t) && k in t && k.level > 0 && i < 512
    requires Child(k, i) !in t && TableWord(g) < WORD_LIMIT && IsValid(TableWord(g))
    requires (forall x :: x in t ==> t[x] != g) && PageAt(m, g) == ZeroPage()
    requires (x in t || x == Child(k, i)) && j < 512
    ensures EntryOk(Store(m, t[k], i, TableWord(g)), t[Child(k, i) := g], x, j)
  {
    hide IsValid;
    hide TableWord;
    ZeroIsInvalid();
    var c := Child(k, i);
    ParentOfChild(k, i);
    if x.level > 0 { ParentOfChild(x, j); }
    if x != c {
      assert TableOk(m, t, x) && EntryOk(m, t, x, j);
    }
  }

  lemma LinkKeepsShape(root: nat, t: Tables, k: Key, i: nat, g: nat)
    requires Shape(root, t) && k in t && k.level > 0 && i < 512 && Child(k, i) !in t
    requires g < FRAME_LIMIT && (forall x :: x in t ==> t[x] != g)
    ensures Shape(root, t[Child(k, i) := g])
  {
    ParentOfChild(k, i);
  }

  /** Filling a final entry changes the flat map at one page number. */
  lemma FillKeepsTree(m: Ram, root: nat, t: Tables, vpn: nat, e: Word)
    requires IsTree(m, root, t) && KeyOf(vpn, 0) in t && IsValid(e)
    ensures var m' := Store(m, t[KeyOf(vpn, 0)], vpn % 512, e);
            IsTree(m', root, t) &&
            forall v: nat :: Leaf(m', t, v) == if v == vpn then e else Leaf(m, t, v)
  {
    var k := KeyOf(vpn, 0);
    var m' := Store(m, t[k], vpn % 512, e);
    forall x | x in t ensures TableOk(m', t, x) {
      forall j: nat | j < 512 ensures EntryOk(m', t, x, j) {
        assert TableOk(m, t, x) && EntryOk(m, t, x, j);
      }
    }
  }

  /** A zeroed frame is a tree with nothing mapped. */
  lemma EmptyTree(m: Ram, root: nat)
    requires PageAt(m, root) == ZeroPage() && root < FRAME_LIMIT
    ensures IsTree(m, root, map[ROOT_KEY := root])
    ensures forall vpn: nat :: Leaf(m, map[ROOT_KEY := root], vpn) == 0
  {
    ZeroIsInvalid();
    var t := map[ROOT_KEY := root];
    forall i: nat | i < 512 ensures EntryOk(m, t, ROOT_KEY, i) {}
  }

  /* ---------- indices ---------- */

  /** The shift and mask of the source select nine bits of the page number. */
  lemma LevelToIndexIsIdx(level: nat, va: nat)
    requires level <= 3
    ensures LevelToIndex(level, va) == Idx(Vpn(va), level)
  {
    IdxIgnoresHighBits(va / PAGE_SIZE, level);
    DivTwice(va, level);
    assert Idx(Vpn(va), level) == va / (PAGE_SIZE * Entries(level)) % 512;
    ShiftAndMaskAt(level, va);
  }

  lemma DivTwice(va: nat, level: nat)
    requires level <= 3
    ensures va / PAGE_SIZE / Entries(level) == va / (PAGE_SIZE * Entries(level))
  {}

  lemma ShiftAndMaskAt(level: nat, va: nat)
    requires level <= 3
    ensures LevelToIndex(level, va) == va / (PAGE_SIZE * Entries(level)) % 512
  {
    hide LevelToIndex;
    if level == 0 {
      ShiftAndMask(0, va, 0x1000, va / 0x1000, va % 0x1000);
    } else if level == 1 {
      ShiftAndMask(1, va, 0x20_0000, va / 0x20_0000, va % 0x20_0000);
    } else if level == 2 {
      ShiftAndMask(2, va, 0x4000_0000, va / 0x4000_0000, va % 0x4000_0000);
    } else {
      ShiftAndMask(3, va, 0x80_0000_0000, va / 0x80_0000_0000, va % 0x80_0000_0000);
    }
  }

  lemma ShiftAndMask(level: nat, va: nat, d: nat, x: nat, r: nat)
    requires level <= 3 && d == PAGE_SIZE * Entries(level) && va == d * x + r && r < d
    ensures LevelToIndex(level, va) == x % 512
  {
    hide Shl;
    hide Pow2;
    hide ShiftRight;
    hide BitAnd;
    ShiftWidths(level, x);
    ShiftSplit(12 + level * 9, x, r);
    ShlNine(x / 512);
    LowMask(9, x / 512, x % 512);
  }

  lemma ShiftWidths(level: nat, x: nat)
    requires level <= 3
    ensures Shl(x, 12 + level * 9) == PAGE_SIZE * Entries(level) * x
    ensures Pow2(12 + level * 9) == PAGE_SIZE * Entries(level)
  {
    hide Shl;
    hide Pow2;
    PageShifts(x);
    PageShifts(1);
    Pow2IsShl(12 + level * 9);
  }

  lemma PageShifts(x: nat)
    ensures Shl(x, 12) == 0x1000 * x && Shl(x, 21) == 0x20_0000 * x
    ensures Shl(x, 30) == 0x4000_0000 * x && Shl(x, 39) == 0x80_0000_0000 * x
  {
    ShlNine(x);
    assert Shl(x, 12) == 2 * Shl(x, 11) && Shl(x, 11) == 2 * Shl(x, 10) && Shl(x, 10) == 2 * Shl(x, 9);
    NineMore(x, 12);
    NineMore(x, 21);
    NineMore(x, 30);
  }

  lemma NineMore(x: nat, k: nat)
    ensures Shl(x, k + 9) == 512 * Shl(x, k)
  {
    TenMore(x, k);
    assert Shl(x, k + 10) == 2 * Shl(x, k + 9);
  }

  lemma ShlNine(x: nat)
    ensures Shl(x, 9) == 512 * x && Pow2(9) == 512
  {
    NineMore(x, 0);
  }

  lemma IdxIgnoresHighBits(page: nat, level: nat)
    requires level <= 3
    ensures page % VPN_LIMIT / Entries(level) % 512 == page / Entries(level) % 512
  {
    var hi, lo := page / VPN_LIMIT, page % VPN_LIMIT;
    assert page == VPN_LIMIT * hi + lo;
    if level == 0 {
      RemainderOf512(0x800_0000 * hi, lo);
    } else if level == 1 {
      assert page / 512 == 512 * (0x4_0000 * hi) + lo / 512;
      RemainderOf512(0x4_0000 * hi, lo / 512);
    } else if level == 2 {
      assert page / 0x4_0000 == 512 * (512 * hi) + lo / 0x4_0000;
      RemainderOf512(512 * hi, lo / 0x4_0000);
    } else {
      assert page / 0x800_0000 == 512 * hi + lo / 0x800_0000;
      RemainderOf512(hi, lo / 0x800_0000);
    }
  }

  lemma RemainderOf512(a: nat, b: nat)
    ensures (512 * a + b) % 512 == b % 512
  {}

  /** Different pages differ in some index. */
  lemma IndicesIdentifyPage(v: nat, v': nat)
    requires v < VPN_LIMIT && v' < VPN_LIMIT
    requires forall level: nat :: level <= 3 ==> Idx(v, level) == Idx(v', level)
    ensures v == v'
  {
    FromIndices(v);
    FromIndices(v');
    assert Idx(v, 0) == Idx(v', 0) && Idx(v, 1) == Idx(v', 1) && Idx(v, 2) == Idx(v', 2) && Idx(v, 3) == Idx(v', 3);
  }

  lemma FromIndices(v: nat)
    requires v < VPN_LIMIT
    ensures v == Idx(v, 0) + 512 * (Idx(v, 1) + 512 * (Idx(v, 2) + 512 * Idx(v, 3)))
  {
    assert v / 512 / 512 == v / 0x4_0000 && v / 0x4_0000 / 512 == v / 0x800_0000;
  }
}
