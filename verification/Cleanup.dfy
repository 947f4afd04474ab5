/** `recursive_clean` of arch/riscv/src/vm.rs: it walks a tree of tables, clears every
    entry and returns every table page to the allocator. */
module TableCleanup {
  import opened PhysicalMemory
  import opened PageTableEntries
  import opened PageTree
  import opened PhysicalPages
  import opened Paging
  import Pools = PagePool

  /** The table of the given level above table `x`. */
  function Ancestor(x: Key, level: nat): (a: Key)
    ensures x.level <= level ==> a.level == level
    decreases level - x.level
  {
    if x.level >= level then x else Ancestor(Parent(x), level)
  }

  /** Table `x` is `k` or lies below it. */
  predicate Under(k: Key, x: Key) {
    x.level <= k.level && Ancestor(x, k.level) == k
  }

  /** Through which entry of table `k` the table `x` below it is reached. */
  function Branch(k: Key, x: Key): nat
    requires x.level < k.level
  {
    Ancestor(x, k.level - 1).prefix % 512
  }

  lemma {:induction false} AncestorStep(x: Key, level: nat)
    requires x.level < level
    ensures Ancestor(x, level) == Parent(Ancestor(x, level - 1))
    decreases level - x.level
  {
    if x.level < level - 1 { AncestorStep(Parent(x), level); }
  }

  lemma UnderChild(k: Key, x: Key, j: nat)
    requires x.level < k.level && j < 512
    ensures Under(Child(k, j), x) <==> Under(k, x) && Branch(k, x) == j
  {
    AncestorStep(x, k.level);
    ParentOfChild(k, j);
    ChildOfParent(Ancestor(x, k.level - 1));
  }

  lemma {:induction false} UnderInTree(root: nat, t: Tables, k: Key, x: Key)
    requires Shape(root, t) && x in t && Under(k, x) && k.level <= 3
    ensures k in t
    decreases 3 - x.level
  {
    if x.level < k.level { UnderInTree(root, t, k, Parent(x)); }
  }

  lemma {:induction false} AllUnderRoot(root: nat, t: Tables, x: Key)
    requires Shape(root, t) && x in t
    ensures Under(ROOT_KEY, x)
    decreases 3 - x.level
  {
    if x.level < 3 { AllUnderRoot(root, t, Parent(x)); }
  }

  /** Page `f` holds table `k` or one below it. */
  ghost predicate SubtreeFrame(t: Tables, k: Key, f: nat) {
    exists x :: x in t && Under(k, x) && t[x] == f
  }

  /** Page `f` holds a table below one of the first `i` entries of table `k`. */
  ghost predicate BranchFrame(t: Tables, k: Key, i: nat, f: nat) {
    exists x :: x in t && x.level < k.level && Under(k, x) && Branch(k, x) < i && t[x] == f
  }

  /** Whether the clean-up takes a valid entry for a pointer to another table. */
  predicate Descends(e: Word) {
    IsValid(e) && !Readable(e) && !Writeable(e) && !Executable(e)
  }

  /** Every valid last-level entry grants something. */
  ghost predicate LeavesPermit(m: Ram, t: Tables, k: Key)
    requires k in t
  {
    k.level == 0 ==> forall i: nat :: i < 512 ==> !Descends(WordAt(m, t[k], i))
  }

  ghost predicate Cleanable(p: Pool, m: Ram, root: nat, t: Tables, k: Key) {
    Shape(root, t) && k in t &&
    forall x :: x in t && Under(k, x) ==> t[x] in p.live && TableOk(m, t, x) && LeavesPermit(m, t, x)
  }

  /** Exactly the pages `freed` went back, each as a block of one page, in this order. */
  ghost predicate Freed(p: Pool, p': Pool, freed: seq<nat>) {
    && (forall f :: f in p'.live <==> f in p.live && f !in freed)
    && Pools.List(p', 1) == Pools.List(p, 1) + freed
    && (forall n :: n != 1 ==> Pools.List(p', n) == Pools.List(p, n))
    && p'.end == p.end && p'.bump == p.bump
  }

  lemma FreedJoins(p: Pool, p1: Pool, p2: Pool, a: seq<nat>, b: seq<nat>)
    requires Freed(p, p1, a) && Freed(p1, p2, b)
    ensures Freed(p, p2, a + b)
  {
    assert Pools.List(p, 1) + a + b == Pools.List(p, 1) + (a + b);
  }

  /** What a clean-up of table `k` has done: the pages that went back are the tables at
      and below `k`, and every page still in clients' hands has its old contents. */
  ghost predicate Cleaned(p: Pool, m: Ram, p': Pool, m': Ram, t: Tables, k: Key, freed: seq<nat>) {
    && Freed(p, p', freed)
    && (forall f :: f in freed <==> SubtreeFrame(t, k, f))
    && (forall f :: f in p'.live ==> PageAt(m', f) == PageAt(m, f))
  }

  /** The state of the loop over the entries of table `k`. */
  ghost predicate Cleaning(p: Pool, m: Ram, p': Pool, m': Ram, t: Tables, k: Key, i: nat, freed: seq<nat>) {
    && k in t && i <= 512
    && Freed(p, p', freed)
    && (forall f :: f in freed <==> BranchFrame(t, k, i, f))
    && (forall f :: f in p'.live && f != t[k] ==> PageAt(m', f) == PageAt(m, f))
    && (forall j: nat :: j < 512 ==> WordAt(m', t[k], j) == if j < i then 0 else WordAt(m, t[k], j))
  }

  lemma CleaningStarts(p: Pool, m: Ram, t: Tables, k: Key)
    requires k in t
    ensures Cleaning(p, m, p, m, t, k, 0, [])
  {}

  lemma TableIsLive(p: Pool, m: Ram, root: nat, p': Pool, m': Ram, t: Tables, k: Key, i: nat, freed: seq<nat>)
    requires Cleanable(p, m, root, t, k) && Cleaning(p, m, p', m', t, k, i, freed)
    ensures t[k] in p'.live
  {
    assert Under(k, k);
  }

  /** What the loop meets at entry `i`: a pointer to a table that is ready to be cleaned,
      or an entry with nothing below it. */
  lemma EntryCases(p: Pool, m: Ram, root: nat, p': Pool, m': Ram, t: Tables, k: Key, i: nat, freed: seq<nat>)
    requires Cleanable(p, m, root, t, k) && Cleaning(p, m, p', m', t, k, i, freed) && i < 512
    ensures var e := WordAt(m', t[k], i);
            if Descends(e)
            then k.level > 0 && Cleanable(p', m', root, t, Child(k, i)) &&
                 t[Child(k, i)] == GetPhysicalAddress(e) / PAGE_SIZE
            else (!IsValid(e) ==> e == 0) &&
                 forall x :: x in t && x.level < k.level && Under(k, x) ==> Branch(k, x) != i
  {
    assert Under(k, k);
    assert TableOk(m, t, k) && EntryOk(m, t, k, i) && LeavesPermit(m, t, k);
    var e := WordAt(m', t[k], i);
    if k.level > 0 {
      if Child(k, i) in t {
        TableReadsBack(t[Child(k, i)]);
        ChildIsCleanable(p, m, root, p', m', t, k, i, freed);
      } else {
        forall x | x in t && x.level < k.level && Under(k, x) ensures Branch(k, x) != i {
          UnderChild(k, x, i);
          if Branch(k, x) == i { UnderInTree(root, t, Child(k, i), x); }
        }
      }
    }
  }

  lemma ChildIsCleanable(p: Pool, m: Ram, root: nat, p': Pool, m': Ram, t: Tables, k: Key, i: nat, freed: seq<nat>)
    requires Cleanable(p, m, root, t, k) && Cleaning(p, m, p', m', t, k, i, freed) && i < 512
    requires k.level > 0 && Child(k, i) in t
    ensures Cleanable(p', m', root, t, Child(k, i))
  {
    forall x | x in t && Under(Child(k, i), x)
      ensures t[x] in p'.live && TableOk(m', t, x) && LeavesPermit(m', t, x)
    {
      UnderChild(k, x, i);
      assert TableOk(m, t, x) && LeavesPermit(m, t, x);
      assert t[x] != t[k];
      forall y | y in t && t[y] == t[x] ensures y == x {}
      assert PageAt(m', t[x]) == PageAt(m, t[x]);
      forall j: nat | j < 512 ensures EntryOk(m', t, x, j) {
        assert EntryOk(m, t, x, j);
      }
      forall j: nat | j < 512 ensures x.level == 0 ==> !Descends(WordAt(m', t[x], j)) {
        assert WordAt(m', t[x], j) == WordAt(m, t[x], j);
      }
    }
  }

  /** Clearing an entry with nothing left below it. */
  lemma EntryDone(p: Pool, m: Ram, root: nat, p1: Pool, m1: Ram, p2: Pool, m2: Ram, m3: Ram,
                  t: Tables, k: Key, i: nat, freed: seq<nat>, below: seq<nat>)
    requires Cleanable(p, m, root, t, k) && Cleaning(p, m, p1, m1, t, k, i, freed) && i < 512
    requires if below == [] then p2 == p1 && m2 == m1 &&
                                 forall x :: x in t && x.level < k.level && Under(k, x) ==> Branch(k, x) != i
             else k.level > 0 && Child(k, i) in t && Cleaned(p1, m1, p2, m2, t, Child(k, i), below)
    requires m3 == Store(m2, t[k], i, 0) || (m3 == m2 && WordAt(m2, t[k], i) == 0)
    ensures Cleaning(p, m, p2, m3, t, k, i + 1, freed + below)
  {
    hide Freed;
    hide BranchFrame;
    hide SubtreeFrame;
    hide Cleanable;
    hide Cleaned;
    hide Under;
    ParentStaysLive(p, m, root, p1, m1, p2, m2, t, k, i, freed, below);
    StillLive(p1, m1, p2, m2, t, k, i, below);
    FreedByEntry(p, p1, m1, p2, m2, t, k, i, freed, below);
    forall f | f in p2.live && f != t[k] ensures PageAt(m3, f) == PageAt(m, f) {
      assert PageAt(m2, f) == PageAt(m1, f);
    }
    forall j: nat | j < 512 ensures WordAt(m3, t[k], j) == if j < i + 1 then 0 else WordAt(m, t[k], j) {
      assert PageAt(m2, t[k]) == PageAt(m1, t[k]);
      assert WordAt(m1, t[k], j) == if j < i then 0 else WordAt(m, t[k], j);
    }
  }

  lemma FreedByEntry(p: Pool, p1: Pool, m1: Ram, p2: Pool, m2: Ram,
                     t: Tables, k: Key, i: nat, freed: seq<nat>, below: seq<nat>)
    requires Freed(p, p1, freed) && (forall f :: f in freed <==> BranchFrame(t, k, i, f)) && i < 512
    requires if below == [] then p2 == p1 &&
                                 forall x :: x in t && x.level < k.level && Under(k, x) ==> Branch(k, x) != i
             else k.level > 0 && Cleaned(p1, m1, p2, m2, t, Child(k, i), below)
    ensures Freed(p, p2, freed + below) && (forall f :: f in freed + below <==> BranchFrame(t, k, i + 1, f))
  {
    if below == [] { assert freed + below == freed; } else { FreedJoins(p, p1, p2, freed, below); }
    hide Freed;
    hide BranchFrame;
    hide SubtreeFrame;
    forall f ensures f in freed + below <==> BranchFrame(t, k, i + 1, f) {
      BranchSplits(t, k, i, f, below != []);
    }
  }

  lemma StillLive(p1: Pool, m1: Ram, p2: Pool, m2: Ram, t: Tables, k: Key, i: nat, below: seq<nat>)
    requires if below == [] then p2 == p1 && m2 == m1
             else k.level > 0 && Cleaned(p1, m1, p2, m2, t, Child(k, i), below)
    ensures forall f :: f in p2.live ==> f in p1.live && PageAt(m2, f) == PageAt(m1, f)
  {}

  lemma BranchSplits(t: Tables, k: Key, i: nat, f: nat, descended: bool)
    requires i < 512 && (descended ==> k.level > 0)
    requires !descended ==> forall x :: x in t && x.level < k.level && Under(k, x) ==> Branch(k, x) != i
    ensures BranchFrame(t, k, i + 1, f) <==>
            BranchFrame(t, k, i, f) || (descended && SubtreeFrame(t, Child(k, i), f))
  {
    if BranchFrame(t, k, i + 1, f) {
      var x :| x in t && x.level < k.level && Under(k, x) && Branch(k, x) < i + 1 && t[x] == f;
      UnderChild(k, x, i);
    }
    if descended && SubtreeFrame(t, Child(k, i), f) {
      var x :| x in t && Under(Child(k, i), x) && t[x] == f;
      UnderChild(k, x, i);
    }
  }

  /** A table is the last of its subtree when all its entries are done. */
  lemma WholeSubtree(t: Tables, k: Key, f: nat)
    requires k in t
    ensures SubtreeFrame(t, k, f) <==> f == t[k] || BranchFrame(t, k, 512, f)
  {
    assert Under(k, k);
    if SubtreeFrame(t, k, f) && f != t[k] {
      var x :| x in t && Under(k, x) && t[x] == f;
      assert x.level < k.level && Branch(k, x) < 512;
    }
  }

  lemma TableFreed(p: Pool, b: nat)
    requires |p.free| == 2560
    ensures Freed(p, Pools.Deallocate(p, b, 1), [b])
  {
    assert Pools.Span(b, 1) == {b};
  }

  /** Returning the table itself completes the clean-up. */
  lemma TableDone(p: Pool, m: Ram, p1: Pool, m1: Ram, m2: Ram, t: Tables, k: Key, freed: seq<nat>)
    requires Cleaning(p, m, p1, m1, t, k, 512, freed)
    requires |p1.free| == 2560
    requires ForeignKept(m1, m2, Pools.Deallocate(p1, t[k], 1))
    ensures Cleaned(p, m, Pools.Deallocate(p1, t[k], 1), m2, t, k, freed + [t[k]])
  {
    hide Pools.Deallocate;
    hide SubtreeFrame;
    hide BranchFrame;
    hide WordAt;
    hide Freed;
    var q, all := Pools.Deallocate(p1, t[k], 1), freed + [t[k]];
    TableFreed(p1, t[k]);
    FreedJoins(p, p1, q, freed, [t[k]]);
    forall f ensures f in all <==> SubtreeFrame(t, k, f) {
      WholeSubtree(t, k, f);
    }
    LiveShrinks(p1, q, [t[k]]);
  }

  lemma LiveShrinks(p: Pool, p': Pool, freed: seq<nat>)
    requires Freed(p, p', freed)
    ensures forall f :: f in p'.live ==> f in p.live && f !in freed
  {}

  method RecursiveClean(alloc: PageAllocator, page: nat, ghost root: nat, ghost t: Tables, ghost k: Key)
    returns (ghost freed: seq<nat>)
    requires alloc.Valid() && Cleanable(alloc.pool, alloc.mem.pages, root, t, k) && t[k] == page
    modifies alloc, alloc.mem, alloc.bitmaps.inner, alloc.list
    ensures alloc.Valid()
    ensures Cleaned(old(alloc.pool), old(alloc.mem.pages), alloc.pool, alloc.mem.pages, t, k, freed)
    decreases k.level
  {
    hide PageAllocator.Valid;
    hide Cleanable;
    hide Cleaning;
    hide Cleaned;
    hide IsValid;
    hide Readable;
    hide Writeable;
    hide Executable;
    hide GetPhysicalAddress;
    ghost var p, m := alloc.pool, alloc.mem.pages;
    assert k in t by { CleanableKey(p, m, root, t, k); }
    CleaningStarts(p, m, t, k);
    freed := [];
    for i := 0 to 512
      invariant alloc.Valid() && Cleaning(p, m, alloc.pool, alloc.mem.pages, t, k, i, freed)
    {
      ghost var p1, m1 := alloc.pool, alloc.mem.pages;
      EntryCases(p, m, root, p1, m1, t, k, i, freed);
      TableIsLive(p, m, root, p1, m1, t, k, i, freed);
      var e := WordAt(alloc.mem.pages, page, i);
      ghost var below := [];
      if IsValid(e) {
        if !Readable(e) && !Writeable(e) && !Executable(e) {
          below := RecursiveClean(alloc, GetPhysicalAddress(e) / PAGE_SIZE, root, t, Child(k, i));
          CleanedSomething(p1, m1, alloc.pool, alloc.mem.pages, root, t, Child(k, i), below);
        }
        ghost var p2, m2 := alloc.pool, alloc.mem.pages;
        ParentStaysLive(p, m, root, p1, m1, p2, m2, t, k, i, freed, below);
        ClearEntry(alloc, page, i);
        EntryDone(p, m, root, p1, m1, p2, m2, alloc.mem.pages, t, k, i, freed, below);
      } else {
        EntryDone(p, m, root, p1, m1, p1, m1, m1, t, k, i, freed, []);
      }
      freed := freed + below;
    }
    ghost var p1, m1 := alloc.pool, alloc.mem.pages;
    TableIsLive(p, m, root, p1, m1, t, k, 512, freed);
    ReturnPage(alloc, page);
    TableDone(p, m, p1, m1, alloc.mem.pages, t, k, freed);
    freed := freed + [page];
  }

  /** `clear_bits` on one entry of a live table. */
  method ClearEntry(alloc: PageAllocator, page: nat, i: nat)
    requires alloc.Valid() && page in alloc.pool.live && i < 512
    modifies alloc.mem
    ensures alloc.Valid() && alloc.mem.pages == Store(old(alloc.mem.pages), page, i, 0)
  {
    hide Pools.Sound;
    hide Represents;
    ghost var m := alloc.mem.pages;
    assert Pools.Partitioned(alloc.pool) by { SoundIsPartitioned(alloc.pool); }
    alloc.mem.WriteWord(page, i, 0);
    RepresentsFrame(m, alloc.mem.pages, alloc.list[..], alloc.pool);
  }

  lemma SoundIsPartitioned(p: Pool)
    requires Pools.Sound(p)
    ensures Pools.Partitioned(p)
  {}

  /** The `deallocate` closure for one page. */
  method ReturnPage(alloc: PageAllocator, page: nat)
    requires alloc.Valid() && page in alloc.pool.live
    modifies alloc, alloc.mem, alloc.bitmaps.inner, alloc.list
    ensures alloc.Valid() && |old(alloc.pool).free| == 2560
    ensures alloc.pool == Pools.Deallocate(old(alloc.pool), page, 1)
    ensures ForeignKept(old(alloc.mem.pages), alloc.mem.pages, alloc.pool)
  {
    hide Represents;
    hide Pools.Partitioned;
    hide Pools.Deallocate;
    hide ForeignKept;
    assert Pools.Span(page, 1) <= alloc.pool.live;
    var panicked := alloc.Deallocate(page * PAGE_SIZE, PAGE_SIZE);
  }

  /** `clean_up_page_table`: the whole tree goes back, and nothing else. */
  method CleanUpPageTable(alloc: PageAllocator, root: nat, ghost t: Tables) returns (ghost freed: seq<nat>)
    requires alloc.Valid() && IsTree(alloc.mem.pages, root, t) && Owned(alloc.pool, t)
    requires forall k :: k in t ==> LeavesPermit(alloc.mem.pages, t, k)
    modifies alloc, alloc.mem, alloc.bitmaps.inner, alloc.list
    ensures alloc.Valid()
    ensures forall f :: f in freed <==> IsTableFrame(t, f)
    ensures forall i, j :: 0 <= i < j < |freed| ==> freed[i] != freed[j]
    ensures forall f :: f in alloc.pool.live <==> f in old(alloc.pool).live && !IsTableFrame(t, f)
    ensures forall f :: f in alloc.pool.live ==> PageAt(alloc.mem.pages, f) == PageAt(old(alloc.mem.pages), f)
    ensures Pools.List(alloc.pool, 1) == Pools.List(old(alloc.pool), 1) + freed
    ensures forall n :: n != 1 ==> Pools.List(alloc.pool, n) == Pools.List(old(alloc.pool), n)
    ensures alloc.pool.end == old(alloc.pool).end && alloc.pool.bump == old(alloc.pool).bump
  {
    hide PageAllocator.Valid;
    WholeTree(alloc.pool, alloc.mem.pages, root, t);
    freed := RecursiveClean(alloc, root, root, t, ROOT_KEY);
    NoDuplicatesFiled(alloc, Pools.List(old(alloc.pool), 1), freed);
  }

  /** What is filed last in the lists of an allocator has no duplicates. */
  lemma NoDuplicatesFiled(alloc: PageAllocator, before: seq<nat>, freed: seq<nat>)
    requires alloc.Valid() && Pools.List(alloc.pool, 1) == before + freed
    ensures forall i, j :: 0 <= i < j < |freed| ==> freed[i] != freed[j]
  {
    hide Represents;
    forall i, j | 0 <= i < j < |freed| ensures freed[i] != freed[j] {
      if freed[i] == freed[j] {
        FiledOnce(alloc.pool, |before| + i, |before| + j);
      }
    }
  }

  lemma WholeTree(p: Pool, m: Ram, root: nat, t: Tables)
    requires IsTree(m, root, t) && Owned(p, t) && forall k :: k in t ==> LeavesPermit(m, t, k)
    ensures Cleanable(p, m, root, t, ROOT_KEY)
    ensures forall f :: SubtreeFrame(t, ROOT_KEY, f) <==> IsTableFrame(t, f)
  {
    forall x | x in t ensures Under(ROOT_KEY, x) { AllUnderRoot(root, t, x); }
  }

  lemma CleanableKey(p: Pool, m: Ram, root: nat, t: Tables, k: Key)
    requires Cleanable(p, m, root, t, k)
    ensures k in t
  {}

  lemma CleanedSomething(p: Pool, m: Ram, p': Pool, m': Ram, root: nat, t: Tables, k: Key, freed: seq<nat>)
    requires Cleanable(p, m, root, t, k) && Cleaned(p, m, p', m', t, k, freed)
    ensures freed != []
  {
    assert Under(k, k) && SubtreeFrame(t, k, t[k]);
  }

  lemma ParentStaysLive(p: Pool, m: Ram, root: nat, p1: Pool, m1: Ram, p2: Pool, m2: Ram,
                        t: Tables, k: Key, i: nat, freed: seq<nat>, below: seq<nat>)
    requires Cleanable(p, m, root, t, k) && Cleaning(p, m, p1, m1, t, k, i, freed)
    requires if below == [] then p2 == p1 else k.level > 0 && Cleaned(p1, m1, p2, m2, t, Child(k, i), below)
    ensures t[k] in p2.live
  {
    TableIsLive(p, m, root, p1, m1, t, k, i, freed);
  }

  /** In a sound pool a page is filed at most once. */
  lemma FiledOnce(p: Pool, i: nat, j: nat)
    requires Pools.Sound(p) && i < |Pools.List(p, 1)| && j < |Pools.List(p, 1)|
    requires Pools.List(p, 1)[i] == Pools.List(p, 1)[j]
    ensures i == j
  {
    var f := Pools.List(p, 1)[i];
    assert Pools.InBlock(p, f, 1, i) && Pools.InBlock(p, f, 1, j);
  }

  /** The clean-up stops at the entries that `map` writes exactly when the request asked
      for some permission; otherwise it would take the data page for a table. */
  lemma CleanupStopsAtLeafIff(ppn: nat, fl: Flags)
    requires ppn < FRAME_LIMIT
    ensures LeafWord(ppn, fl) < WORD_LIMIT
    ensures !Descends(LeafWord(ppn, fl)) <==> fl.read || fl.write || fl.execute
  {
    LeafReadsBack(ppn, fl);
  }

  /** `map` keeps a tree cleanable when every request asks for some permission. */
  lemma MapKeepsLeavesPermitting(p: Pool, m: Ram, t: Tables, p': Pool, m': Ram, t': Tables, root: nat,
                                 va: nat, pa: nat, fl: Flags, n: nat)
    requires IsTree(m, root, t) && Mapping(p, m, t, p', m', t', root, va, pa, fl, n)
    requires (n > 0 ==> pa / PAGE_SIZE + n <= FRAME_LIMIT) && (fl.read || fl.write || fl.execute)
    requires forall k :: k in t ==> LeavesPermit(m, t, k)
    ensures forall k :: k in t' ==> LeavesPermit(m', t', k)
  {
    forall k, i: nat | k in t' && k.level == 0 && i < 512 ensures !Descends(WordAt(m', t'[k], i)) {
      PrefixLt(root, t', k);
      var vpn := k.prefix * 512 + i;
      assert KeyOf(vpn, 0) == k && vpn % 512 == i;
      assert Leaf(m', t', vpn) == WordAt(m', t'[k], i);
      if Offset(vpn, va) < n {
        CleanupStopsAtLeafIff(pa / PAGE_SIZE + Offset(vpn, va), fl);
      } else if k in t {
        assert LeavesPermit(m, t, k);
      } else {
        ZeroIsInvalid();
      }
    }
  }

  /** The page numbers of a tree have 36 bits. */
  lemma PrefixLt(root: nat, t: Tables, k: Key)
    requires Shape(root, t) && k in t && k.level == 0
    ensures k.prefix < 0x800_0000
  {
    var a := Parent(k);
    var b := Parent(a);
    var c := Parent(b);
    assert a in t && b in t && c in t && c == ROOT_KEY;
  }
}
