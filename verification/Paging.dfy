/** `map`, `va2pa` and `clean_up_page_table` of arch/riscv/src/vm.rs and the walk of
    hal/src/vm.rs, working in place on tables in memory that come from the page
    allocator. The ghost parameter `t` names the tables that the root reaches. */
module Paging {
  import opened PhysicalMemory
  import opened PageTableEntries
  import opened PageTree
  import opened PhysicalPages
  import Pools = PagePool

  ghost predicate IsTableFrame(t: Tables, f: nat) {
    exists k :: k in t && t[k] == f
  }

  /** All tables lie in pages that the allocator handed out. */
  ghost predicate Owned(p: Pool, t: Tables) {
    forall k :: k in t ==> t[k] in p.live
  }

  /** The memory is the same, and what was ever handed out does not become fewer. */
  predicate TailShrinks(p: Pool, p': Pool) {
    p'.end == p.end && p'.bump >= p.bump
  }

  /** The tree has grown from `t` to `t'`: what the allocator handed out meanwhile are
      exactly the new tables, and no other page in clients' hands has changed. */
  ghost predicate Grown(p: Pool, m: Ram, t: Tables, p': Pool, m': Ram, t': Tables, root: nat) {
    && IsTree(m', root, t')
    && (forall k :: k in t ==> k in t' && t'[k] == t[k])
    && (forall k :: k in t' && k !in t ==> t'[k] !in p.live)
    && (forall f :: f in p'.live <==> f in p.live || IsTableFrame(t', f))
    && (forall f :: f in p.live && !IsTableFrame(t, f) ==> PageAt(m', f) == PageAt(m, f))
    && TailShrinks(p, p')
  }

  /** All new tables are on the way to page `vpn`. */
  ghost predicate AddsOnPath(t: Tables, t': Tables, vpn: nat) {
    forall k :: k in t' && k !in t ==> k.level <= 3 && k == KeyOf(vpn, k.level)
  }

  lemma GrownIsReflexive(p: Pool, m: Ram, t: Tables, root: nat)
    requires IsTree(m, root, t) && Owned(p, t)
    ensures Grown(p, m, t, p, m, t, root)
  {}

  lemma GrownIsTransitive(p: Pool, m: Ram, t: Tables, p1: Pool, m1: Ram, t1: Tables,
                          p2: Pool, m2: Ram, t2: Tables, root: nat)
    requires Owned(p, t)
    requires Grown(p, m, t, p1, m1, t1, root) && Grown(p1, m1, t1, p2, m2, t2, root)
    ensures Grown(p, m, t, p2, m2, t2, root)
  {
    hide IsTree;
    forall f | f in p2.live ensures f in p.live || IsTableFrame(t2, f) {
      if f !in p.live && f in p1.live {
        var k :| k in t1 && t1[k] == f;
        assert t2[k] == f;
      }
    }
    forall f | f in p.live && !IsTableFrame(t, f) ensures PageAt(m2, f) == PageAt(m, f) {
      forall k | k in t1 ensures t1[k] != f {
        if k in t { assert IsTableFrame(t, t[k]); }
      }
    }
  }

  lemma GrownIsOwned(p: Pool, m: Ram, t: Tables, p': Pool, m': Ram, t': Tables, root: nat)
    requires Grown(p, m, t, p', m', t', root)
    ensures Owned(p', t') && IsTree(m', root, t')
  {
    forall k | k in t' ensures t'[k] in p'.live {
      assert IsTableFrame(t', t'[k]);
    }
  }

  lemma OwnedFrame(p: Pool, m: Ram, m': Ram, root: nat, t: Tables)
    requires IsTree(m, root, t) && Owned(p, t) && ForeignKept(m, m', p)
    ensures IsTree(m', root, t) && SameFlat(m, t, m', t)
    ensures forall k :: k in t ==> PageAt(m', t[k]) == PageAt(m, t[k])
  {
    TreeFrame(m, m', root, t);
  }

  lemma GrownAfterFailure(p: Pool, m: Ram, t: Tables, m': Ram, root: nat)
    requires IsTree(m', root, t) && Owned(p, t) && ForeignKept(m, m', p)
    ensures Grown(p, m, t, p, m', t, root)
  {}

  lemma GrownByLink(p: Pool, m: Ram, t: Tables, p': Pool, m1: Ram, root: nat, k: Key, i: nat, g: nat)
    requires Owned(p, t) && k in t && k.level > 0 && i < 512 && Child(k, i) !in t
    requires ForeignKept(m, m1, p) && g !in p.live && p'.live == p.live + {g} && TableWord(g) < WORD_LIMIT
    requires TailShrinks(p, p')
    requires IsTree(Store(m1, t[k], i, TableWord(g)), root, t[Child(k, i) := g])
    ensures Grown(p, m, t, p', Store(m1, t[k], i, TableWord(g)), t[Child(k, i) := g], root)
  {
    hide IsTree;
    var t' := t[Child(k, i) := g];
    assert t'[Child(k, i)] == g;
    assert IsTableFrame(t, t[k]);
  }

  /** A request for `n` pages through the `allocate` closure: a zeroed block that nobody
      held, or nothing. */
  ghost predicate GivesBlock(p: Pool, m: Ram, p': Pool, m': Ram, n: nat, r: Result<nat>)
    requires n >= 1
  {
    && ForeignKept(m, m', p)
    && (r.Ok? ==> Pools.Span(r.value, n) !! p.live && p'.live == p.live + Pools.Span(r.value, n))
    && (r.Ok? ==> r.value < FRAME_LIMIT && Zeroed(m', r.value, n))
    && TailShrinks(p, p')
    && (!r.Ok? ==> p' == p)
    && (r.Err? ==> r.error == MemoryNotAvailable)
    && Pools.Indexed(p)
    && (r.Err? <==> Pools.Allocate(p, n).1.NoMemory?) && (r.Panicked? <==> Pools.Allocate(p, n).1.Halt?)
  }

  /** The same for a single page. */
  ghost predicate GivesPage(p: Pool, m: Ram, p': Pool, m': Ram, r: Result<nat>) {
    && ForeignKept(m, m', p)
    && (r.Ok? ==> r.value !in p.live && p'.live == p.live + {r.value})
    && (r.Ok? ==> r.value < FRAME_LIMIT && PageAt(m', r.value) == ZeroPage())
    && TailShrinks(p, p')
    && (!r.Ok? ==> p' == p)
    && (r.Err? ==> r.error == MemoryNotAvailable)
    && Pools.Indexed(p)
    && (r.Err? <==> Pools.Allocate(p, 1).1.NoMemory?) && (r.Panicked? <==> Pools.Allocate(p, 1).1.Halt?)
  }

  lemma OnePage(p: Pool, m: Ram, p': Pool, m': Ram, r: Result<nat>)
    requires GivesBlock(p, m, p', m', 1, r)
    ensures GivesPage(p, m, p', m', r)
  {
    hide Pools.Allocate;
    hide Pools.Indexed;
    if r.Ok? {
      assert Pools.Span(r.value, 1) == {r.value};
      assert r.value in Pools.Span(r.value, 1);
    }
  }

  /** Why a walk fails: table `k` is missing and the allocator has no page for it, or
      halts on a stale bit. */
  ghost predicate Blocked(p: Pool, t: Tables, k: Key, halts: bool) {
    k !in t && Pools.Indexed(p) && Pools.Allocate(p, 1).1 == if halts then Pools.Halt else Pools.NoMemory
  }

  lemma BlockOutcome(p: Pool, m: Ram, p': Pool, m': Ram, n: nat, a: Allocation, r: Result<nat>)
    requires Pools.Sound(p) && p.end < WORD_LIMIT && ForeignKept(m, m', p) && n >= 1
    requires var (q, o) := Pools.Allocate(p, n);
             p' == q && a == match o case Block(b) => Address(b * PAGE_SIZE)
                             case NoMemory => Unavailable
                             case Halt => Panic
    requires a.Address? ==> Zeroed(m', a.addr / PAGE_SIZE, n)
    requires r == match a case Address(addr) => Ok(addr / PAGE_SIZE)
                  case Unavailable => Err(MemoryNotAvailable)
                  case Panic => Panicked
    ensures GivesBlock(p, m, p', m', n, r)
  {
    hide Pools.Partitioned;
    hide ForeignKept;
    hide Zeroed;
    hide Pools.FirstFrom;
    hide Pools.Carve;
    Pools.AllocateIsSound(p, n);
  }

  /** The state of the walk above the table of level `level`. */
  ghost predicate Walking(p: Pool, m: Ram, t: Tables, p': Pool, m': Ram, t': Tables, root: nat,
                          va: nat, shouldAllocate: bool, level: nat, table: nat)
    requires level <= 3
  {
    && Grown(p, m, t, p', m', t', root) && SameFlat(m, t, m', t')
    && AddsOnPath(t, t', Vpn(va))
    && KeyOf(Vpn(va), level) in t' && t'[KeyOf(Vpn(va), level)] == table
    && (!shouldAllocate ==> t' == t && m' == m && p' == p &&
                            WalkFrom(m, root, 3, va) == WalkFrom(m, table, level, va))
  }

  /** What a walk returns and leaves behind: the flat map never changes, and new tables
      are on the way to the walked page; without permission to allocate nothing changes. */
  ghost predicate Walked(p: Pool, m: Ram, t: Tables, p': Pool, m': Ram, t': Tables, root: nat,
                         va: nat, shouldAllocate: bool, r: Result<Slot>) {
    && Grown(p, m, t, p', m', t', root) && SameFlat(m, t, m', t')
    && AddsOnPath(t, t', Vpn(va))
    && (r.Ok? ==> KeyOf(Vpn(va), 0) in t' && r.value == Slot(t'[KeyOf(Vpn(va), 0)], Vpn(va) % 512))
    && (shouldAllocate && r.Err? ==>
          r.error == MemoryNotAvailable && Blocked(p', t', KeyOf(Vpn(va), 0), false))
    && (r.Panicked? ==> Blocked(p', t', KeyOf(Vpn(va), 0), true))
    && (!shouldAllocate ==> t' == t && m' == m && p' == p && r == WalkFrom(m, root, 3, va))
  }

  ghost predicate WalkedOrWalking(p: Pool, m: Ram, t: Tables, p': Pool, m': Ram, t': Tables, root: nat,
                                  va: nat, shouldAllocate: bool, level: nat, next: Result<nat>)
    requires level <= 3
  {
    match next
    case Ok(table) => Walking(p, m, t, p', m', t', root, va, shouldAllocate, level, table)
    case Err(error) => Walked(p, m, t, p', m', t', root, va, shouldAllocate, Err(error))
    case Panicked => Walked(p, m, t, p', m', t', root, va, shouldAllocate, Panicked)
  }

  lemma WalkStarts(p: Pool, m: Ram, t: Tables, root: nat, va: nat, shouldAllocate: bool)
    requires IsTree(m, root, t) && Owned(p, t)
    ensures Walking(p, m, t, p, m, t, root, va, shouldAllocate, 3, root)
  {
    GrownIsReflexive(p, m, t, root);
  }

  lemma WalkingOnTree(p: Pool, m: Ram, t: Tables, p': Pool, m': Ram, t': Tables, root: nat,
                      va: nat, shouldAllocate: bool, level: nat, table: nat)
    requires 1 <= level <= 3 && Walking(p, m, t, p', m', t', root, va, shouldAllocate, level, table)
    ensures Owned(p', t') && IsTree(m', root, t')
    ensures KeyOf(Vpn(va), level) in t' && t'[KeyOf(Vpn(va), level)] == table
  {
    GrownIsOwned(p, m, t, p', m', t', root);
  }

  /** The outcome of one level of the walk. */
  ghost predicate Stepped(p: Pool, m: Ram, t: Tables, p': Pool, m': Ram, t': Tables, root: nat,
                          va: nat, shouldAllocate: bool, level: nat, table: nat, next: Result<nat>)
    requires 1 <= level <= 3
  {
    && Grown(p, m, t, p', m', t', root) && SameFlat(m, t, m', t')
    && AddsOnPath(t, t', Vpn(va))
    && (next.Ok? ==> KeyOf(Vpn(va), level - 1) in t' && t'[KeyOf(Vpn(va), level - 1)] == next.value)
    && (shouldAllocate && next.Err? ==>
          next.error == MemoryNotAvailable && Blocked(p', t', KeyOf(Vpn(va), level - 1), false))
    && (next.Panicked? ==> Blocked(p', t', KeyOf(Vpn(va), level - 1), true))
    && (!shouldAllocate ==> t' == t && m' == m && p' == p && !next.Panicked? &&
                            WalkFrom(m, table, level, va) == if next.Ok? then WalkFrom(m, next.value, level - 1, va)
                                                             else Err(next.error))
  }

  lemma StepCases(p: Pool, m: Ram, t: Tables, root: nat, va: nat, shouldAllocate: bool, level: nat, table: nat)
    requires IsTree(m, root, t) && Owned(p, t) && 1 <= level <= 3
    requires KeyOf(Vpn(va), level) in t && t[KeyOf(Vpn(va), level)] == table
    ensures KeyOf(Vpn(va), level).level == level && Idx(Vpn(va), level) < 512
    ensures var e := WordAt(m, table, Idx(Vpn(va), level));
            if IsValid(e)
            then Stepped(p, m, t, p, m, t, root, va, shouldAllocate, level, table,
                         Ok(GetPhysicalAddress(e) / PAGE_SIZE))
            else Stepped(p, m, t, p, m, t, root, va, false, level, table,
                         Err(NoSuchVirtualAddress(va, table * PAGE_SIZE)))
  {
    GrownIsReflexive(p, m, t, root);
    WalkStep(m, root, t, Vpn(va), level);
    hide IsValid;
    hide GetPhysicalAddress;
    hide Grown;
    hide IsTree;
    hide Vpn;
    hide Idx;
  }

  lemma StepLinks(p: Pool, m: Ram, t: Tables, p': Pool, m': Ram, t': Tables,
                  root: nat, va: nat, level: nat, table: nat, next: Result<nat>)
    requires 1 <= level <= 3 && KeyOf(Vpn(va), level) in t
    requires Grown(p, m, t, p', m', t', root) && SameFlat(m, t, m', t')
    requires next.Ok? ==> t' == t[Child(KeyOf(Vpn(va), level), Idx(Vpn(va), level)) := next.value]
    requires !next.Ok? ==> t' == t
    requires next.Err? ==> next.error == MemoryNotAvailable
    requires var c := Child(KeyOf(Vpn(va), level), Idx(Vpn(va), level));
             (next.Err? ==> Blocked(p', t', c, false)) && (next.Panicked? ==> Blocked(p', t', c, true))
    ensures Stepped(p, m, t, p', m', t', root, va, true, level, table, next)
  {
    hide Grown;
    hide Blocked;
    hide SameFlat;
    KeyStep(Vpn(va), level);
  }

  lemma WalkSteps(p: Pool, m: Ram, t: Tables, p1: Pool, m1: Ram, t1: Tables, p': Pool, m': Ram, t': Tables,
                  root: nat, va: nat, shouldAllocate: bool, level: nat, table: nat, next: Result<nat>)
    requires Owned(p, t)
    requires 1 <= level <= 3 && Walking(p, m, t, p1, m1, t1, root, va, shouldAllocate, level, table)
    requires Stepped(p1, m1, t1, p', m', t', root, va, shouldAllocate, level, table, next)
    ensures WalkedOrWalking(p, m, t, p', m', t', root, va, shouldAllocate, level - 1, next)
  {
    hide Grown;
    hide IsTree;
    hide Pools.Allocate;
    hide Pools.Indexed;
    hide KeyOf;
    hide Vpn;
    GrownIsTransitive(p, m, t, p1, m1, t1, p', m', t', root);
    GrownIsOwned(p1, m1, t1, p', m', t', root);
    if next.Panicked? || (next.Err? && shouldAllocate) {
      NoLowerTable(m', root, t', Vpn(va), level - 1);
    }
  }

  lemma WalkEnds(p: Pool, m: Ram, t: Tables, p': Pool, m': Ram, t': Tables, root: nat,
                 va: nat, shouldAllocate: bool, table: nat)
    requires Walking(p, m, t, p', m', t', root, va, shouldAllocate, 0, table)
    ensures Walked(p, m, t, p', m', t', root, va, shouldAllocate, Ok(Slot(table, Idx(Vpn(va), 0))))
  {
    hide Grown;
  }

  lemma InvalidIsZero(m: Ram, root: nat, t: Tables, k: Key, i: nat)
    requires IsTree(m, root, t) && k in t && i < 512 && !IsValid(WordAt(m, t[k], i))
    ensures WordAt(m, t[k], i) == 0 && (k.level > 0 ==> Child(k, i) !in t)
  {
    assert TableOk(m, t, k) && EntryOk(m, t, k, i);
  }

  /** Another address space is untouched: its tables are pages in clients' hands. */
  lemma OtherTreesAreKept(p: Pool, m: Ram, t: Tables, p': Pool, m': Ram, t': Tables, root: nat,
                          other: nat, u: Tables)
    requires Grown(p, m, t, p', m', t', root)
    requires IsTree(m, other, u) && Owned(p, u)
    requires forall k, k' :: k in t && k' in u ==> t[k] != u[k']
    ensures IsTree(m', other, u) && SameFlat(m, u, m', u) && Owned(p', u)
    ensures forall k, k' :: k in t' && k' in u ==> t'[k] != u[k']
  {
    TreeFrame(m, m', other, u);
  }

  /* ---------- which pages `map` covers ---------- */

  /** How many pages page number `vpn` lies behind address `va`, counted modulo the
      36 bits that the walk sees. */
  function Offset(vpn: nat, va: nat): nat {
    (vpn - va / PAGE_SIZE) % VPN_LIMIT
  }

  /** The flat map after `n` pages from `va` were mapped to the pages from `pa`. */
  ghost predicate MapsPrefix(m: Ram, t: Tables, m': Ram, t': Tables, va: nat, pa: nat, fl: Flags, n: nat) {
    forall vpn: nat :: vpn < VPN_LIMIT ==>
                         Leaf(m', t', vpn) as nat ==
                         if Offset(vpn, va) < n then LeafWord(pa / PAGE_SIZE + Offset(vpn, va), fl) else Leaf(m, t, vpn)
  }

  lemma OffsetOfPage(va: nat, i: nat)
    requires va % PAGE_SIZE == 0
    ensures Offset(Vpn((va + i * PAGE_SIZE) % WORD_LIMIT), va) == i % VPN_LIMIT
  {
    var x := (va + i * PAGE_SIZE) % WORD_LIMIT;
    var c := (va + i * PAGE_SIZE) / WORD_LIMIT;
    assert x / PAGE_SIZE == va / PAGE_SIZE + i - FRAME_LIMIT * c;
    var d := x / PAGE_SIZE / VPN_LIMIT;
    assert Vpn(x) == x / PAGE_SIZE - VPN_LIMIT * d;
    ModShift(i, 0x1_0000 * c + d);
  }

  lemma ModShift(i: nat, c: nat)
    ensures (i - VPN_LIMIT * c) % VPN_LIMIT == i % VPN_LIMIT
  {}

  lemma OffsetIsInjective(v: nat, v': nat, va: nat)
    requires v < VPN_LIMIT && v' < VPN_LIMIT && Offset(v, va) == Offset(v', va)
    ensures v == v'
  {
    var a, b := v - va / PAGE_SIZE, v' - va / PAGE_SIZE;
    assert a - b == VPN_LIMIT * (a / VPN_LIMIT - b / VPN_LIMIT);
  }

  /** One more page extends the prefix. */
  lemma PrefixStep(m0: Ram, t0: Tables, m: Ram, t: Tables, m': Ram, va: nat, pa: nat, fl: Flags, i: nat, vpn: nat)
    requires MapsPrefix(m0, t0, m, t, va, pa, fl, i)
    requires vpn < VPN_LIMIT && Offset(vpn, va) == i && LeafWord(pa / PAGE_SIZE + i, fl) < WORD_LIMIT
    requires forall v: nat ::
               Leaf(m', t, v) as nat == if v == vpn then LeafWord(pa / PAGE_SIZE + i, fl) else Leaf(m, t, v)
    ensures MapsPrefix(m0, t0, m', t, va, pa, fl, i + 1)
  {
    forall v: nat | v < VPN_LIMIT && v != vpn ensures Offset(v, va) != i {
      if Offset(v, va) == i { OffsetIsInjective(v, vpn, va); }
    }
  }

  /** What `va2pa` promises: the flat map with the byte offset added. */
  ghost predicate Translates(m: Ram, t: Tables, va: nat, r: Result<nat>) {
    var e := Leaf(m, t, Vpn(va));
    if IsValid(e) then r == Ok(GetPhysicalAddress(e) + va % PAGE_SIZE)
    else r.Err? && r.error.NoSuchVirtualAddress?
  }

  /** The first `n` pages from `va` had no translation. */
  ghost predicate WasUnmapped(m: Ram, t: Tables, va: nat, n: nat) {
    forall vpn: nat :: vpn < VPN_LIMIT && Offset(vpn, va) < n ==> !IsValid(Leaf(m, t, vpn))
  }

  /** The state of `map` after `i` pages: they were unmapped before and are mapped now. */
  ghost predicate Mapping(p: Pool, m: Ram, t: Tables, p': Pool, m': Ram, t': Tables, root: nat,
                          va: nat, pa: nat, fl: Flags, i: nat) {
    && Grown(p, m, t, p', m', t', root) && i <= VPN_LIMIT
    && WasUnmapped(m, t, va, i) && MapsPrefix(m, t, m', t', va, pa, fl, i)
  }

  /** All new tables are on the way to one of the first `n` pages from `va`. */
  ghost predicate AddsForPages(t: Tables, t': Tables, va: nat, n: nat) {
    forall k :: k in t' && k !in t ==>
                  k.level <= 3 && exists i: nat :: i < n && k == KeyOf(Vpn(PageAddress(va, i)), k.level)
  }

  /** The walk to page `i` adds tables for that page. */
  lemma AddsGrow(t: Tables, t1: Tables, t2: Tables, va: nat, i: nat)
    requires AddsForPages(t, t1, va, i) && AddsOnPath(t1, t2, Vpn(PageAddress(va, i)))
    ensures AddsForPages(t, t2, va, i + 1)
  {
    hide Vpn;
    hide KeyOf;
    hide PageAddress;
    forall k | k in t2 && k !in t
      ensures k.level <= 3 && exists j: nat :: j < i + 1 && k == KeyOf(Vpn(PageAddress(va, j)), k.level)
    {
      if k in t1 {
        var j: nat :| j < i && k == KeyOf(Vpn(PageAddress(va, j)), k.level);
      }
    }
  }

  lemma NothingAdded(t: Tables, va: nat)
    ensures forall n: nat :: AddsForPages(t, t, va, n)
  {}

  lemma MoreAdds(t: Tables, t': Tables, va: nat, n: nat, n': nat)
    requires AddsForPages(t, t', va, n) && n <= n'
    ensures AddsForPages(t, t', va, n')
  {
    hide Vpn;
    hide KeyOf;
    hide PageAddress;
  }

  datatype MapRequest = MapRequest(va: Word, pa: Word, size: nat, flags: Flags)

  function PageAddress(va: nat, i: nat): Word {
    (va + i * PAGE_SIZE) % WORD_LIMIT
  }

  /** Everything that `map` promises. Whatever the result, exactly the first `done`
      pages were added, all of them unmapped before, and all tables allocated on the way
      are in the tree, on the way to one of those pages or to the next one of the
      request. The next page is mapped already, or lacks a table that the
      allocator cannot supply, or lies beyond the last physical address. */
  ghost predicate Mapped(p: Pool, m: Ram, t: Tables, p': Pool, m': Ram, t': Tables, root: nat,
                         va: nat, pa: nat, size: nat, fl: Flags, r: Result<()>, done: nat) {
    && Mapping(p, m, t, p', m', t', root, va, pa, fl, done)
    && AddsForPages(t, t', va, if done < size / PAGE_SIZE then done + 1 else done)
    && done <= size / PAGE_SIZE && (done > 0 ==> pa / PAGE_SIZE + done <= FRAME_LIMIT)
    && (va % PAGE_SIZE != 0 || size % PAGE_SIZE != 0 || size == 0 ==>
          m' == m && t' == t && p' == p && done == 0 &&
          r == Err(if va % PAGE_SIZE != 0 then VirtualAddressMisaligned(va)
                   else if size % PAGE_SIZE != 0 then SizeMisaligned(size) else ZeroSize))
    && (r.Ok? ==> done == size / PAGE_SIZE > 0 && va % PAGE_SIZE == 0 && size % PAGE_SIZE == 0)
    && (va % PAGE_SIZE == 0 && size % PAGE_SIZE == 0 && size > 0 && r.Err? ==>
          done < size / PAGE_SIZE &&
          ((r.error == MemoryNotAvailable && Blocked(p', t', KeyOf(Vpn(PageAddress(va, done)), 0), false)) ||
           (r.error == PageAlreadyMapped(PageAddress(va, done)) &&
            IsValid(Leaf(m', t', Vpn(PageAddress(va, done)))) &&
            (done < VPN_LIMIT ==> IsValid(Leaf(m, t, Vpn(PageAddress(va, done))))))))
    && (r.Panicked? ==> Blocked(p', t', KeyOf(Vpn(PageAddress(va, done)), 0), true) || PastMemory(pa, done))
  }

  /** The address of page `done` no longer fits a word. */
  predicate PastMemory(pa: nat, done: nat) {
    done > 0 && pa + done * PAGE_SIZE >= WORD_LIMIT
  }

  lemma MappingStarts(p: Pool, m: Ram, t: Tables, root: nat, va: nat, pa: nat, fl: Flags)
    requires IsTree(m, root, t) && Owned(p, t)
    ensures Mapping(p, m, t, p, m, t, root, va, pa, fl, 0)
  {
    GrownIsReflexive(p, m, t, root);
  }

  lemma MappingOnTree(p: Pool, m: Ram, t: Tables, p': Pool, m': Ram, t': Tables, root: nat,
                      va: nat, pa: nat, fl: Flags, i: nat)
    requires Mapping(p, m, t, p', m', t', root, va, pa, fl, i)
    ensures Owned(p', t') && IsTree(m', root, t')
  {
    GrownIsOwned(p, m, t, p', m', t', root);
  }

  /** A walk in between keeps what `map` has reached. */
  lemma MappingWalks(p: Pool, m: Ram, t: Tables, p1: Pool, m1: Ram, t1: Tables, p2: Pool, m2: Ram, t2: Tables,
                     root: nat, va: nat, pa: nat, fl: Flags, i: nat, at: nat, r: Result<Slot>)
    requires Owned(p, t) && Mapping(p, m, t, p1, m1, t1, root, va, pa, fl, i)
    requires Walked(p1, m1, t1, p2, m2, t2, root, at, true, r)
    ensures Mapping(p, m, t, p2, m2, t2, root, va, pa, fl, i)
  {
    GrownIsTransitive(p, m, t, p1, m1, t1, p2, m2, t2, root);
    hide Grown;
  }

  /** The entry that the walk found is the flat map's entry for the page. */
  lemma SlotIsLeaf(p: Pool, m: Ram, t: Tables, p': Pool, m': Ram, t': Tables, root: nat, at: nat, slot: Slot)
    requires Walked(p, m, t, p', m', t', root, at, true, Ok(slot))
    ensures slot.index == Vpn(at) % 512 && slot.frame in p'.live && KeyOf(Vpn(at), 0) in t'
    ensures t'[KeyOf(Vpn(at), 0)] == slot.frame
    ensures WordAt(m', slot.frame, slot.index) == Leaf(m', t', Vpn(at))
    ensures !IsValid(WordAt(m', slot.frame, slot.index)) ==> WordAt(m', slot.frame, slot.index) == 0
  {
    GrownIsOwned(p, m, t, p', m', t', root);
    var k := KeyOf(Vpn(at), 0);
    assert TableOk(m', t', k) && EntryOk(m', t', k, slot.index);
  }

  lemma FillGrows(p: Pool, m: Ram, t: Tables, root: nat, vpn: nat, e: Word)
    requires IsTree(m, root, t) && Owned(p, t) && KeyOf(vpn, 0) in t && IsValid(e)
    ensures Grown(p, m, t, p, Store(m, t[KeyOf(vpn, 0)], vpn % 512, e), t, root)
  {
    FillKeepsTree(m, root, t, vpn, e);
    hide IsTree;
    assert IsTableFrame(t, t[KeyOf(vpn, 0)]);
  }

  lemma PrefixIsValid(m: Ram, t: Tables, m': Ram, t': Tables, va: nat, pa: nat, fl: Flags, i: nat, vpn: nat)
    requires MapsPrefix(m, t, m', t', va, pa, fl, i) && pa / PAGE_SIZE + i < FRAME_LIMIT && vpn < VPN_LIMIT
    ensures Offset(vpn, va) < i ==> IsValid(Leaf(m', t', vpn))
  {
    if Offset(vpn, va) < i {
      LeafReadsBack(pa / PAGE_SIZE + Offset(vpn, va), fl);
    }
  }

  lemma UnmappedStep(m: Ram, t: Tables, m': Ram, t': Tables, va: nat, pa: nat, fl: Flags, i: nat, vpn: nat)
    requires MapsPrefix(m, t, m', t', va, pa, fl, i) && WasUnmapped(m, t, va, i)
    requires vpn < VPN_LIMIT && Offset(vpn, va) == i && !IsValid(Leaf(m', t', vpn))
    ensures WasUnmapped(m, t, va, i + 1)
  {
    hide Leaf;
    hide LeafWord;
    hide IsValid;
    forall v: nat | v < VPN_LIMIT && v != vpn ensures Offset(v, va) != i {
      if Offset(v, va) == i { OffsetIsInjective(v, vpn, va); }
    }
  }

  /** Filling the next entry extends the mapped prefix by one page. */
  lemma MappingFills(p: Pool, m: Ram, t: Tables, p': Pool, m': Ram, t': Tables, root: nat,
                     va: nat, pa: nat, fl: Flags, i: nat)
    requires Owned(p, t) && va % PAGE_SIZE == 0 && pa / PAGE_SIZE + i < FRAME_LIMIT
    requires Mapping(p, m, t, p', m', t', root, va, pa, fl, i)
    requires KeyOf(Vpn(PageAddress(va, i)), 0) in t'
    requires !IsValid(Leaf(m', t', Vpn(PageAddress(va, i))))
    ensures LeafWord(pa / PAGE_SIZE + i, fl) < WORD_LIMIT
    ensures Mapping(p, m, t, p', Store(m', t'[KeyOf(Vpn(PageAddress(va, i)), 0)],
                                      Vpn(PageAddress(va, i)) % 512, LeafWord(pa / PAGE_SIZE + i, fl)),
                    t', root, va, pa, fl, i + 1)
  {
    hide Grown;
    hide IsTree;
    hide IsValid;
    hide LeafWord;
    hide Leaf;
    hide FlagsOf;
    hide GetPhysicalAddress;
    hide Vpn;
    hide KeyOf;
    hide MapsPrefix;
    hide WasUnmapped;
    var vpn, e := Vpn(PageAddress(va, i)), LeafWord(pa / PAGE_SIZE + i, fl);
    OffsetOfPage(va, i);
    LeafReadsBack(pa / PAGE_SIZE + i, fl);
    GrownIsOwned(p, m, t, p', m', t', root);
    FillGrows(p', m', t', root, vpn, e);
    FillKeepsTree(m', root, t', vpn, e);
    var m2 := Store(m', t'[KeyOf(vpn, 0)], vpn % 512, e);
    GrownIsTransitive(p, m, t, p', m', t', p', m2, t', root);
    PrefixIsValid(m, t, m', t', va, pa, fl, i, vpn);
    UnmappedStep(m, t, m', t', va, pa, fl, i, vpn);
    PrefixStep(m, t, m', t', m2, va, pa, fl, i, vpn);
  }

  /** A page found valid was valid before `map`, unless the request wraps around. */
  lemma MappingCollides(p: Pool, m: Ram, t: Tables, p': Pool, m': Ram, t': Tables, root: nat,
                        va: nat, pa: nat, fl: Flags, i: nat)
    requires va % PAGE_SIZE == 0 && Mapping(p, m, t, p', m', t', root, va, pa, fl, i) && i < VPN_LIMIT
    ensures Leaf(m', t', Vpn(PageAddress(va, i))) == Leaf(m, t, Vpn(PageAddress(va, i)))
  {
    hide Grown;
    hide Leaf;
    hide LeafWord;
    hide Vpn;
    OffsetOfPage(va, i);
  }

  lemma FirstAddress(va: Word)
    ensures PageAddress(va, 0) == va
  {}

  lemma NextAddress(va: nat, i: nat)
    ensures (PageAddress(va, i) + PAGE_SIZE) % WORD_LIMIT == PageAddress(va, i + 1)
  {}

  lemma RejectedRequest(p: Pool, m: Ram, t: Tables, root: nat, va: nat, pa: nat, size: nat, fl: Flags)
    requires IsTree(m, root, t) && Owned(p, t)
    ensures va % PAGE_SIZE != 0 ==>
              Mapped(p, m, t, p, m, t, root, va, pa, size, fl, Err(VirtualAddressMisaligned(va)), 0)
    ensures va % PAGE_SIZE == 0 && size % PAGE_SIZE != 0 ==>
              Mapped(p, m, t, p, m, t, root, va, pa, size, fl, Err(SizeMisaligned(size)), 0)
    ensures va % PAGE_SIZE == 0 && size == 0 ==> Mapped(p, m, t, p, m, t, root, va, pa, size, fl, Err(ZeroSize), 0)
  {
    hide Mapping;
    MappingStarts(p, m, t, root, va, pa, fl);
  }

  /** The four ways in which the loop ends. */
  lemma MapStops(p: Pool, m: Ram, t: Tables, p': Pool, m': Ram, t': Tables, root: nat,
                 va: nat, pa: nat, size: nat, fl: Flags, r: Result<()>, done: nat)
    requires Mapping(p, m, t, p', m', t', root, va, pa, fl, done)
    requires va % PAGE_SIZE == 0 && size % PAGE_SIZE == 0 && size > 0 && done <= size / PAGE_SIZE
    requires done > 0 ==> pa / PAGE_SIZE + done <= FRAME_LIMIT
    requires AddsForPages(t, t', va, if done < size / PAGE_SIZE then done + 1 else done)
    requires r.Ok? ==> done == size / PAGE_SIZE
    requires r.Err? ==> done < size / PAGE_SIZE &&
                        (r.error == MemoryNotAvailable || r.error == PageAlreadyMapped(PageAddress(va, done)))
    requires r.Err? && r.error == MemoryNotAvailable ==> Blocked(p', t', KeyOf(Vpn(PageAddress(va, done)), 0), false)
    requires r.Panicked? ==> Blocked(p', t', KeyOf(Vpn(PageAddress(va, done)), 0), true) || PastMemory(pa, done)
    requires r.Err? && r.error.PageAlreadyMapped? ==> IsValid(Leaf(m', t', Vpn(PageAddress(va, done))))
    ensures Mapped(p, m, t, p', m', t', root, va, pa, size, fl, r, done)
  {
    hide Mapping;
    hide Leaf;
    hide IsValid;
    hide Vpn;
    hide KeyOf;
    hide Blocked;
    if done < VPN_LIMIT {
      MappingCollides(p, m, t, p', m', t', root, va, pa, fl, done);
    }
  }

  /** The flat map after `map`, seen by `va2pa` at any address: the pages that were added
      translate to the requested block with exactly the requested permissions, and every
      other address translates as before. After a success `done` is the whole request,
      after a failure the prefix that was added. */
  lemma MapRefinesFlatMap(p: Pool, m: Ram, t: Tables, p': Pool, m': Ram, t': Tables, root: nat, va: nat, pa: nat,
                          size: nat, fl: Flags, outcome: Result<()>, done: nat, b: nat, r: Result<nat>)
    requires Mapped(p, m, t, p', m', t', root, va, pa, size, fl, outcome, done)
    ensures outcome.Ok? ==> done == size / PAGE_SIZE
    ensures var i := Offset(Vpn(b), va);
            if i < done
            then (Translates(m', t', b, r) <==> r == Ok((pa / PAGE_SIZE + i) * PAGE_SIZE + b % PAGE_SIZE)) &&
                 FlagsOf(Leaf(m', t', Vpn(b))) == fl
            else Translates(m', t', b, r) <==> Translates(m, t, b, r)
  {
    hide Grown;
    hide LeafWord;
    hide IsValid;
    hide GetPhysicalAddress;
    hide FlagsOf;
    hide Leaf;
    hide Vpn;
    hide Blocked;
    hide WasUnmapped;
    var i := Offset(Vpn(b), va);
    if i < done {
      LeafReadsBack(pa / PAGE_SIZE + i, fl);
    }
  }

  /** No earlier translation changes: an address that was mapped before the call has the
      same entry after it, so the same address and the same permissions, whatever the
      result. */
  lemma MapKeepsTranslations(p: Pool, m: Ram, t: Tables, p': Pool, m': Ram, t': Tables, root: nat, va: nat, pa: nat,
                             size: nat, fl: Flags, outcome: Result<()>, done: nat, b: nat)
    requires Mapped(p, m, t, p', m', t', root, va, pa, size, fl, outcome, done)
    requires IsValid(Leaf(m, t, Vpn(b)))
    ensures Leaf(m', t', Vpn(b)) == Leaf(m, t, Vpn(b))
    ensures Offset(Vpn(b), va) >= done
    ensures forall r :: Translates(m, t, b, r) <==> Translates(m', t', b, r)
  {
    hide Grown;
    hide LeafWord;
    hide IsValid;
    hide GetPhysicalAddress;
    hide Leaf;
    hide Vpn;
    hide Blocked;
  }

  lemma RootKey(m: Ram, root: nat, t: Tables, vpn: nat)
    requires IsTree(m, root, t) && vpn < VPN_LIMIT
    ensures KeyOf(vpn, 3) in t && t[KeyOf(vpn, 3)] == root
  {}

  lemma WalkAdds(p: Pool, m: Ram, t: Tables, p': Pool, m': Ram, t': Tables, root: nat, at: nat, r: Result<Slot>)
    requires Walked(p, m, t, p', m', t', root, at, true, r)
    ensures AddsOnPath(t, t', Vpn(at))
  {}

  lemma WalkFails(p: Pool, m: Ram, t: Tables, p': Pool, m': Ram, t': Tables, root: nat, at: nat, r: Result<Slot>)
    requires Walked(p, m, t, p', m', t', root, at, true, r)
    ensures r.Err? ==> r.error == MemoryNotAvailable && Blocked(p', t', KeyOf(Vpn(at), 0), false)
    ensures r.Panicked? ==> Blocked(p', t', KeyOf(Vpn(at), 0), true)
  {}

  /** The read-only walk at the page's first byte finds the flat map's entry. */
  lemma AlignedWalk(p: Pool, m: Ram, t: Tables, p': Pool, m': Ram, t': Tables, root: nat, va: nat, r: Result<Slot>)
    requires IsTree(m, root, t) && Walked(p, m, t, p', m', t', root, va / PAGE_SIZE * PAGE_SIZE, false, r)
    ensures p' == p && m' == m && !r.Panicked?
    ensures r.Ok? ==> r.value.index < 512 && WordAt(m, r.value.frame, r.value.index) == Leaf(m, t, Vpn(va))
    ensures r.Err? ==> !IsValid(Leaf(m, t, Vpn(va))) && r.error.NoSuchVirtualAddress?
    ensures r.Ok? <==> KeyOf(Vpn(va), 0) in t
    ensures r.Err? ==> r.error.va == va / PAGE_SIZE * PAGE_SIZE
  {
    hide Grown;
    hide IsTree;
    hide IsValid;
    assert Vpn(va / PAGE_SIZE * PAGE_SIZE) == Vpn(va);
    RootKey(m, root, t, Vpn(va));
    WalkFollowsTree(m, root, t, va / PAGE_SIZE * PAGE_SIZE, 3);
    ZeroIsInvalid();
  }

  lemma AllocatorIsSound(alloc: PageAllocator)
    requires alloc.Valid()
    ensures Pools.Sound(alloc.pool) && alloc.pool.end < WORD_LIMIT
  {}

  class Riscv {
    const alloc: PageAllocator

    constructor (alloc: PageAllocator)
      ensures this.alloc == alloc
    {
      this.alloc := alloc;
    }

    /** The `allocate` closure. */
    method AllocateBlock(n: nat) returns (r: Result<nat>)
      requires alloc.Valid() && n >= 1
      modifies alloc, alloc.mem, alloc.bitmaps.inner, alloc.list
      ensures alloc.Valid()
      ensures GivesBlock(old(alloc.pool), old(alloc.mem.pages), alloc.pool, alloc.mem.pages, n, r)
    {
      hide PageAllocator.Valid;
      hide Pools.Sound;
      hide GivesBlock;
      hide ForeignKept;
      hide Zeroed;
      hide Pools.Allocate;
      hide Pools.Indexed;
      ghost var p, m := alloc.pool, alloc.mem.pages;
      AllocatorIsSound(alloc);
      var a := alloc.Allocate(n * PAGE_SIZE);
      r := match a
      case Address(addr) => Ok(addr / PAGE_SIZE)
      case Unavailable => Err(MemoryNotAvailable)
      case Panic => Panicked;
      BlockOutcome(p, m, alloc.pool, alloc.mem.pages, n, a, r);
    }

    method AllocatePage() returns (r: Result<nat>)
      requires alloc.Valid()
      modifies alloc, alloc.mem, alloc.bitmaps.inner, alloc.list
      ensures alloc.Valid()
      ensures GivesPage(old(alloc.pool), old(alloc.mem.pages), alloc.pool, alloc.mem.pages, r)
    {
      hide PageAllocator.Valid;
      hide GivesBlock;
      hide GivesPage;
      ghost var p, m := alloc.pool, alloc.mem.pages;
      r := AllocateBlock(1);
      OnePage(p, m, alloc.pool, alloc.mem.pages, r);
    }

    /** Writes one entry of a table. */
    method WriteEntry(f: nat, i: nat, w: Word)
      requires alloc.Valid() && f in alloc.pool.live && i < 512
      modifies alloc.mem
      ensures alloc.Valid() && alloc.mem.pages == Store(old(alloc.mem.pages), f, i, w)
    {
      hide Pools.Partitioned;
      hide Represents;
      ghost var m := alloc.mem.pages;
      alloc.mem.WriteWord(f, i, w);
      RepresentsFrame(m, alloc.mem.pages, alloc.list[..], alloc.pool);
    }

    /** The part of the walk that supplies a missing table. */
    method LinkNewTable(ghost root: nat, table: nat, index: nat, ghost k: Key, ghost t: Tables)
      returns (r: Result<nat>, ghost t': Tables)
      requires alloc.Valid() && IsTree(alloc.mem.pages, root, t) && Owned(alloc.pool, t)
      requires k in t && t[k] == table && k.level > 0 && index < 512
      requires !IsValid(WordAt(alloc.mem.pages, table, index))
      modifies alloc, alloc.mem, alloc.bitmaps.inner, alloc.list
      ensures alloc.Valid()
      ensures Grown(old(alloc.pool), old(alloc.mem.pages), t, alloc.pool, alloc.mem.pages, t', root)
      ensures SameFlat(old(alloc.mem.pages), t, alloc.mem.pages, t')
      ensures r.Ok? ==> t' == t[Child(k, index) := r.value]
      ensures !r.Ok? ==> t' == t
      ensures r.Err? ==> r.error == MemoryNotAvailable && Blocked(alloc.pool, t', Child(k, index), false)
      ensures r.Panicked? ==> Blocked(alloc.pool, t', Child(k, index), true)
    {
      hide Pools.Allocate;
      hide Pools.Indexed;
      hide IsValid;
      hide TableWord;
      hide LinkTable;
      hide FillLeaf;
      hide LeafWord;
      hide GetPhysicalAddress;
      hide FlagsOf;
      hide ForeignKept;
      hide PageAllocator.Valid;
      hide IsTree;
      hide Leaf;
      hide Grown;
      ghost var p, m := alloc.pool, alloc.mem.pages;
      r := AllocatePage();
      t' := t;
      OwnedFrame(p, m, alloc.mem.pages, root, t);
      InvalidIsZero(alloc.mem.pages, root, t, k, index);
      if !r.Ok? {
        GrownAfterFailure(p, m, t, alloc.mem.pages, root);
        return;
      }
      ghost var m1 := alloc.mem.pages;
      var e := WordAt(alloc.mem.pages, table, index);
      FillIsExact(r.value * PAGE_SIZE, Flags(false, false, false, false));
      TableReadsBack(r.value);
      WriteEntry(table, index, LinkTable(e, r.value * PAGE_SIZE));
      t' := t[Child(k, index) := r.value];
      LinkKeepsTree(m1, root, t, k, index, r.value);
      GrownByLink(p, m, t, alloc.pool, m1, root, k, index, r.value);
    }

    /** One level of the walk: follow a valid entry, or supply the missing table, or fail. */
    method NextTable(ghost root: nat, table: nat, level: nat, va: Word, shouldAllocate: bool, ghost t: Tables)
      returns (next: Result<nat>, ghost t': Tables)
      requires alloc.Valid() && IsTree(alloc.mem.pages, root, t) && Owned(alloc.pool, t)
      requires 1 <= level <= 3 && KeyOf(Vpn(va), level) in t && t[KeyOf(Vpn(va), level)] == table
      modifies alloc, alloc.mem, alloc.bitmaps.inner, alloc.list
      ensures alloc.Valid()
      ensures Stepped(old(alloc.pool), old(alloc.mem.pages), t, alloc.pool, alloc.mem.pages, t',
                      root, va, shouldAllocate, level, table, next)
    {
      hide PageAllocator.Valid;
      hide Stepped;
      hide Vpn;
      hide KeyOf;
      hide Idx;
      hide IsTree;
      hide LevelToIndex;
      hide Child;
      hide IsValid;
      hide GetPhysicalAddress;
      hide Owned;
      hide Grown;
      hide SameFlat;
      ghost var p, m, vpn := alloc.pool, alloc.mem.pages, Vpn(va);
      var index := LevelToIndex(level, va);
      LevelToIndexIsIdx(level, va);
      StepCases(p, m, t, root, va, shouldAllocate, level, table);
      t' := t;
      var e := WordAt(alloc.mem.pages, table, index);
      if IsValid(e) {
        next := Ok(GetPhysicalAddress(e) / PAGE_SIZE);
      } else if shouldAllocate {
        next, t' := LinkNewTable(root, table, index, KeyOf(vpn, level), t);
        StepLinks(p, m, t, alloc.pool, alloc.mem.pages, t', root, va, level, table, next);
      } else {
        next := Err(NoSuchVirtualAddress(va, table * PAGE_SIZE));
      }
    }

    /** The walk to the last-level entry of `va`, supplying missing tables on request. */
    method GetPageTableEntryAddress(root: nat, va: Word, shouldAllocate: bool, ghost t: Tables)
      returns (r: Result<Slot>, ghost t': Tables)
      requires alloc.Valid() && IsTree(alloc.mem.pages, root, t) && Owned(alloc.pool, t)
      modifies alloc, alloc.mem, alloc.bitmaps.inner, alloc.list
      ensures alloc.Valid()
      ensures Walked(old(alloc.pool), old(alloc.mem.pages), t, alloc.pool, alloc.mem.pages, t',
                     root, va, shouldAllocate, r)
    {
      hide PageAllocator.Valid;
      hide Walking;
      hide Walked;
      hide Stepped;
      hide KeyOf;
      hide Vpn;
      hide Idx;
      hide LevelToIndex;
      hide IsTree;
      hide Owned;
      ghost var p, m := alloc.pool, alloc.mem.pages;
      WalkStarts(p, m, t, root, va, shouldAllocate);
      var table: nat, level: nat := root, 3;
      t' := t;
      while level > 0
        invariant 0 <= level <= 3 && alloc.Valid()
        invariant Walking(p, m, t, alloc.pool, alloc.mem.pages, t', root, va, shouldAllocate, level, table)
      {
        var next;
        ghost var p1, m1, t1 := alloc.pool, alloc.mem.pages, t';
        WalkingOnTree(p, m, t, p1, m1, t1, root, va, shouldAllocate, level, table);
        next, t' := NextTable(root, table, level, va, shouldAllocate, t');
        WalkSteps(p, m, t, p1, m1, t1, alloc.pool, alloc.mem.pages, t', root, va, shouldAllocate, level, table, next);
        level := level - 1;
        match next {
          case Ok(f) => table := f;
          case Err(error) => return Err(error), t';
          case Panicked => return Panicked, t';
        }
      }
      LevelToIndexIsIdx(0, va);
      WalkEnds(p, m, t, alloc.pool, alloc.mem.pages, t', root, va, shouldAllocate, table);
      r := Ok(Slot(table, LevelToIndex(0, va)));
    }

    /** Maps `size` bytes page by page. An overflow of `pa` stops the kernel, as
        overflow checks are on in the development build. */
    method Map(root: nat, va: Word, pa: Word, size: nat, fl: Flags, ghost t: Tables)
      returns (r: Result<()>, ghost t': Tables, ghost done: nat)
      requires alloc.Valid() && IsTree(alloc.mem.pages, root, t) && Owned(alloc.pool, t)
      modifies alloc, alloc.mem, alloc.bitmaps.inner, alloc.list
      ensures alloc.Valid()
      ensures Mapped(old(alloc.pool), old(alloc.mem.pages), t, alloc.pool, alloc.mem.pages, t',
                     root, va, pa, size, fl, r, done)
    {
      hide PageAllocator.Valid;
      hide IsTree;
      hide Owned;
      hide Mapping;
      hide Walked;
      hide Mapped;
      hide PageAddress;
      hide Leaf;
      hide Vpn;
      hide KeyOf;
      hide IsValid;
      hide FillLeaf;
      hide LeafWord;
      hide AddsOnPath;
      hide AddsForPages;
      ghost var p, m := alloc.pool, alloc.mem.pages;
      NothingAdded(t, va);
      MappingStarts(p, m, t, root, va, pa, fl);
      RejectedRequest(p, m, t, root, va, pa, size, fl);
      t', done := t, 0;
      if va % PAGE_SIZE != 0 {
        return Err(VirtualAddressMisaligned(va)), t', done;
      }
      if size % PAGE_SIZE != 0 {
        return Err(SizeMisaligned(size)), t', done;
      }
      if size == 0 {
        return Err(ZeroSize), t', done;
      }
      var numberOfPages := size / PAGE_SIZE;
      var curVa: Word, curPa: Word := va, pa;
      FirstAddress(va);
      for i := 0 to numberOfPages
        invariant done == i && alloc.Valid() && Mapping(p, m, t, alloc.pool, alloc.mem.pages, t', root, va, pa, fl, i)
        invariant AddsForPages(t, t', va, i)
        invariant curVa == PageAddress(va, i) && curPa == pa + i * PAGE_SIZE
      {
        ghost var p1, m1, t1 := alloc.pool, alloc.mem.pages, t';
        MappingOnTree(p, m, t, p1, m1, t1, root, va, pa, fl, i);
        var found;
        found, t' := GetPageTableEntryAddress(root, curVa, true, t');
        MappingWalks(p, m, t, p1, m1, t1, alloc.pool, alloc.mem.pages, t', root, va, pa, fl, i, curVa, found);
        WalkAdds(p1, m1, t1, alloc.pool, alloc.mem.pages, t', root, curVa, found);
        AddsGrow(t, t1, t', va, i);
        if !found.Ok? {
          WalkFails(p1, m1, t1, alloc.pool, alloc.mem.pages, t', root, curVa, found);
          r := if found.Err? then Err(found.error) else Panicked;
          MapStops(p, m, t, alloc.pool, alloc.mem.pages, t', root, va, pa, size, fl, r, done);
          return;
        }
        var slot := found.value;
        SlotIsLeaf(p1, m1, t1, alloc.pool, alloc.mem.pages, t', root, curVa, slot);
        var e := WordAt(alloc.mem.pages, slot.frame, slot.index);
        if IsValid(e) {
          r := Err(PageAlreadyMapped(curVa));
          MapStops(p, m, t, alloc.pool, alloc.mem.pages, t', root, va, pa, size, fl, r, done);
          return;
        }
        assert curPa / PAGE_SIZE == pa / PAGE_SIZE + i;
        FillIsExact(curPa, fl);
        MappingFills(p, m, t, alloc.pool, alloc.mem.pages, t', root, va, pa, fl, i);
        WriteEntry(slot.frame, slot.index, FillLeaf(e, curPa, fl));
        done := done + 1;
        curVa := (curVa + PAGE_SIZE) % WORD_LIMIT;
        NextAddress(va, i);
        if curPa + PAGE_SIZE >= WORD_LIMIT {
          r := Panicked;
          MoreAdds(t, t', va, done, if done < size / PAGE_SIZE then done + 1 else done);
          MapStops(p, m, t, alloc.pool, alloc.mem.pages, t', root, va, pa, size, fl, r, done);
          return;
        }
        curPa := curPa + PAGE_SIZE;
      }
      r := Ok(());
      MapStops(p, m, t, alloc.pool, alloc.mem.pages, t', root, va, pa, size, fl, r, done);
    }

    /** Reads the flat map and writes nothing. The error names the address, rounded down
        to its page when the walk did not reach the last table. */
    method Va2Pa(root: nat, va: Word, ghost t: Tables) returns (r: Result<nat>)
      requires alloc.Valid() && IsTree(alloc.mem.pages, root, t) && Owned(alloc.pool, t)
      modifies alloc, alloc.mem, alloc.bitmaps.inner, alloc.list
      ensures alloc.Valid() && alloc.mem.pages == old(alloc.mem.pages) && alloc.pool == old(alloc.pool)
      ensures Translates(alloc.mem.pages, t, va, r)
      ensures r.Err? ==> r.error.va == if KeyOf(Vpn(va), 0) in t then va else va / PAGE_SIZE * PAGE_SIZE
    {
      hide PageAllocator.Valid;
      hide Walked;
      hide IsTree;
      hide Leaf;
      hide Vpn;
      hide IsValid;
      hide GetPhysicalAddress;
      var alignedVa := va / PAGE_SIZE * PAGE_SIZE;
      var offset := va % PAGE_SIZE;
      ghost var p, m := alloc.pool, alloc.mem.pages;
      ghost var t';
      var found;
      found, t' := GetPageTableEntryAddress(root, alignedVa, false, t);
      AlignedWalk(p, m, t, alloc.pool, alloc.mem.pages, t', root, va, found);
      if !found.Ok? {
        return Err(found.error);
      }
      var e := WordAt(alloc.mem.pages, found.value.frame, found.value.index);
      if !IsValid(e) {
        return Err(NoSuchVirtualAddress(va, root * PAGE_SIZE));
      }
      r := Ok(GetPhysicalAddress(e) + offset);
    }
  }
}
