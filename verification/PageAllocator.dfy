/** The allocator of allocator/src/page_allocator.rs over real memory: list heads, the
    packed bitmap and the bump region, tied to the pool of free and live pages. */
module PhysicalPages {
  import opened BitmapIndex
  import opened FreeList
  import opened PhysicalMemory
  import Pools = PagePool
  import opened Wrappers

  type Pool = Pools.Pool

  datatype Allocation = Address(addr: nat) | Unavailable | Panic

  /** Pages outside the allocator's control: those in clients' hands and those outside
      the managed range. */
  predicate Foreign(p: Pool, f: nat) {
    f in p.live || f < p.start || p.end <= f * PAGE_SIZE
  }

  ghost predicate ForeignKept(m: Ram, m': Ram, p: Pool) {
    forall f: nat :: Foreign(p, f) ==> PageAt(m', f) == PageAt(m, f)
  }

  ghost predicate Zeroed(m: Ram, b: nat, n: nat) {
    forall f :: b <= f < b + n ==> PageAt(m, f) == ZeroPage()
  }

  /** Memory holds, from these heads, exactly the lists of the pool. */
  ghost predicate Represents(m: Ram, heads: seq<nat>, p: Pool) {
    && |heads| == NUM_MULTIPLES && |p.free| == NUM_MULTIPLES
    && (forall n :: Pools.IsClass(n) ==> Chain(m, heads[n - 1], Pools.List(p, n), n))
  }

  /** Blocks of free lists hold no foreign page, and lists share no page. */
  lemma ListsApart(p: Pool, n: int, f: nat)
    requires Pools.Partitioned(p) && f in Pools.List(p, n)
    ensures !Foreign(p, f) && f < p.bump && 0 < f
    ensures forall m :: m != n ==> f !in Pools.List(p, m)
  {
    var i :| 0 <= i < |Pools.List(p, n)| && Pools.List(p, n)[i] == f;
    assert Pools.InBlock(p, f, n, i);
    forall m | f in Pools.List(p, m) ensures m == n {
      var j :| 0 <= j < |Pools.List(p, m)| && Pools.List(p, m)[j] == f;
      assert Pools.InBlock(p, f, m, j);
    }
  }

  lemma ForeignApart(p: Pool, n: int)
    requires Pools.Partitioned(p)
    ensures forall f :: f in Pools.List(p, n) ==> !Foreign(p, f)
  {
    forall f | f in Pools.List(p, n) ensures !Foreign(p, f) {
      ListsApart(p, n, f);
    }
  }

  lemma LiveBounds(p: Pool, b: nat, n: nat)
    requires Pools.Partitioned(p) && n >= 1 && Pools.Span(b, n) <= p.live
    ensures b in Pools.Span(b, n) && 0 < p.start <= b && b * PAGE_SIZE < p.end
  {
    assert b in Pools.Span(b, n);
  }

  lemma ChainAt(m: Ram, heads: seq<nat>, p: Pool, n: nat)
    requires Represents(m, heads, p) && Pools.IsClass(n)
    ensures Chain(m, heads[n - 1], Pools.List(p, n), n)
  {}

  lemma HeadIsNull(m: Ram, heads: seq<nat>, p: Pool, n: nat)
    requires Represents(m, heads, p) && Pools.IsClass(n)
    ensures heads[n - 1] == 0 <==> Pools.List(p, n) == []
  {
    assert Chain(m, heads[n - 1], Pools.List(p, n), n);
  }

  /** The lists survive any change to foreign pages. */
  lemma RepresentsFrame(m: Ram, m': Ram, heads: seq<nat>, p: Pool)
    requires Pools.Partitioned(p) && Represents(m, heads, p)
    requires forall f: nat :: !Foreign(p, f) ==> PageAt(m', f) == PageAt(m, f)
    ensures Represents(m', heads, p)
  {
    forall n | Pools.IsClass(n) ensures Chain(m', heads[n - 1], Pools.List(p, n), n) {
      forall f | f in Pools.List(p, n) ensures PageAt(m', f) == PageAt(m, f) {
        ListsApart(p, n, f);
      }
      ChainFrame(m, m', heads[n - 1], Pools.List(p, n), n);
    }
  }

  /** One list changes on its own pages and, at most, on one page in no list. */
  lemma RepresentsUpdate(m: Ram, m': Ram, heads: seq<nat>, head': nat, p: Pool, q: Pool, n: nat, other: nat)
    requires Pools.Partitioned(p) && Represents(m, heads, p) && Pools.IsClass(n)
    requires Foreign(p, other) || other in Pools.List(p, n)
    requires q.free == p.free[n - 1 := Pools.List(q, n)]
    requires Chain(m', head', Pools.List(q, n), n)
    requires forall f :: f !in Pools.List(p, n) && f != other ==> PageAt(m', f) == PageAt(m, f)
    ensures Represents(m', heads[n - 1 := head'], q)
  {
    forall k | Pools.IsClass(k) && k != n ensures Chain(m', heads[k - 1], Pools.List(q, k), k) {
      assert Pools.List(q, k) == Pools.List(p, k);
      forall f | f in Pools.List(p, k) ensures PageAt(m', f) == PageAt(m, f) {
        ListsApart(p, k, f);
      }
      ChainFrame(m, m', heads[k - 1], Pools.List(p, k), k);
    }
  }

  class PageAllocator {
    const mem: Memory
    const bitmaps: Bitmap
    const memoryStart: nat
    const memoryEnd: nat
    const list: array<nat>
    var currentSize: nat
    var currentStart: nat
    var nodeId: Word

    ghost var pool: Pool

    ghost predicate Valid()
      reads this, mem, bitmaps.inner, list
    {
      && (list as object) != bitmaps.inner
      && list.Length == NUM_MULTIPLES
      && bitmaps.Valid() && bitmaps.Contents() == pool.marked
      && Pools.Sound(pool)
      && memoryStart == pool.start * PAGE_SIZE && memoryEnd == pool.end < WORD_LIMIT
      && currentStart == pool.bump * PAGE_SIZE && currentSize == memoryEnd - currentStart
      && Represents(mem.pages, list[..], pool)
    }

    /** A null or reversed range panics in the source; the callers align the start. */
    constructor (mem: Memory, start: nat, end: nat)
      requires start != 0 && start <= end < WORD_LIMIT && start % PAGE_SIZE == 0
      ensures Valid() && this.mem == mem
      ensures fresh(list) && fresh(bitmaps) && fresh(bitmaps.inner)
      ensures pool == Pools.Fresh(start / PAGE_SIZE, end)
    {
      this.mem := mem;
      bitmaps := new Bitmap();
      memoryStart, memoryEnd := start, end;
      list := new nat[NUM_MULTIPLES](_ => 0);
      currentSize, currentStart := end - start, start;
      nodeId := 0;
      pool := Pools.Fresh(start / PAGE_SIZE, end);
    }

    /** `Node::new`, the raw write, `push_front` and `mark_available`, the four calls
        that both callers make in this order. */
    method FileBlock(b: nat, n: nat)
      requires Valid() && Pools.IsClass(n) && Pools.Span(b, n) <= pool.live
      modifies this`nodeId, this`pool, mem, bitmaps.inner, list
      ensures Valid() && pool == Pools.Deallocate(old(pool), b, n)
      ensures ForeignKept(old(mem.pages), mem.pages, pool)
    {
      hide Pools.Partitioned;
      hide Represents;
      hide Chain;
      hide Members;
      hide Words128;
      ghost var p, m, heads := pool, mem.pages, list[..];
      ghost var nodes := Pools.List(p, n);
      LiveBounds(p, b, n);
      ForeignApart(p, n);
      mem.WritePage(b, EncodeNode(PageAt(mem.pages, b), n * PAGE_SIZE, nodeId));
      EncodeIsFresh(m, b, n, nodeId);
      nodeId := (nodeId + 1) % WORD_LIMIT;
      RepresentsFrame(m, mem.pages, heads, p);
      ghost var m1 := mem.pages;
      ChainAt(m1, heads, p, n);
      var head := PushFront(mem, list[n - 1], b, nodes, n);
      list[n - 1] := head;
      bitmaps.MarkAvailable(n);
      pool := Pools.Deallocate(pool, b, n);
      Pools.DeallocateIsSound(p, b, n);
      RepresentsUpdate(m1, mem.pages, heads, head, p, pool, n, b);
      assert list[..] == heads[n - 1 := head];
    }

    /** `pop_front` on the list of `v`-page blocks. */
    method TakeBlock(v: nat) returns (b: nat)
      requires Valid() && Pools.List(pool, v) != []
      modifies this`pool, mem, list
      ensures Valid() && b == Pools.List(old(pool), v)[0] && pool == Pools.Take(old(pool), v)
      ensures ForeignKept(old(mem.pages), mem.pages, old(pool))
      ensures list[v - 1] == 0 <==> Pools.List(pool, v) == []
    {
      hide Pools.Partitioned;
      hide Represents;
      hide Chain;
      hide Members;
      hide Words128;
      ghost var p, m, heads := pool, mem.pages, list[..];
      ghost var nodes := Pools.List(p, v);
      ForeignApart(p, v);
      ChainAt(m, heads, p, v);
      var popped, head := PopFront(mem, list[v - 1], nodes, v);
      list[v - 1] := head;
      b := popped / PAGE_SIZE;
      pool := Pools.Take(pool, v);
      Pools.TakeIsSound(p, v);
      RepresentsUpdate(m, mem.pages, heads, head, p, pool, v, b);
      assert list[..] == heads[v - 1 := head];
      HeadIsNull(mem.pages, list[..], pool, v);
    }

    /** `mark_unavailable` for a size with no blocks. */
    method Unmark(n: nat)
      requires Valid() && Pools.IsClass(n) && Pools.List(pool, n) == []
      modifies this`pool, bitmaps.inner
      ensures Valid() && pool == old(pool).(marked := old(pool).marked - {n})
    {
      ghost var p := pool;
      bitmaps.MarkUnavailable(n);
      pool := pool.(marked := pool.marked - {n});
      Pools.UnmarkIsSound(p, n);
      assert forall k :: Pools.List(pool, k) == Pools.List(p, k);
    }

    /** Clears pages that a client is about to receive. */
    method ZeroLive(b: nat, n: nat)
      requires Valid() && Pools.Span(b, n) <= pool.live
      modifies mem
      ensures Valid()
      ensures forall f: nat :: PageAt(mem.pages, f) ==
                               if b <= f < b + n then ZeroPage() else PageAt(old(mem.pages), f)
    {
      ghost var m := mem.pages;
      mem.ZeroPages(b, n);
      RepresentsFrame(m, mem.pages, list[..], pool);
    }

    method Allocate(size: nat) returns (r: Allocation)
      requires Valid()
      modifies this, mem, bitmaps.inner, list
      ensures Valid()
      ensures ForeignKept(old(mem.pages), mem.pages, old(pool))
      ensures size < PAGE_SIZE || size % PAGE_SIZE != 0 ==> r == Panic && pool == old(pool)
      ensures size >= PAGE_SIZE && size % PAGE_SIZE == 0 ==>
                var (q, o) := Pools.Allocate(old(pool), size / PAGE_SIZE);
                pool == q && r == match o case Block(b) => Address(b * PAGE_SIZE)
                                          case NoMemory => Unavailable
                                          case Halt => Panic
      ensures r.Address? ==> Zeroed(mem.pages, r.addr / PAGE_SIZE, size / PAGE_SIZE)
    {
      if size < PAGE_SIZE || size % PAGE_SIZE != 0 {
        return Panic;
      }
      hide Pools.Partitioned;
      hide Represents;
      hide Members;
      hide Words128;
      var multiple := size / PAGE_SIZE;
      ghost var p, m := pool, mem.pages;
      Pools.AllocateIsSound(p, multiple);
      var first := bitmaps.FirstAvailable(multiple);
      Pools.LeastIsUnique(p.marked, multiple, first);
      if first.Some? {
        r := AllocateFromList(multiple, first.value);
        return;
      }
      r := AllocateFromTail(multiple);
    }

    /** The branch of `allocate` that cuts pages from the unused tail. */
    method AllocateFromTail(multiple: nat) returns (r: Allocation)
      requires Valid() && multiple >= 1
      modifies this, mem
      ensures Valid()
      ensures ForeignKept(old(mem.pages), mem.pages, old(pool))
      ensures if Pools.TailFits(old(pool), multiple)
              then pool == Pools.Grow(old(pool), multiple) && r == Address(old(pool).bump * PAGE_SIZE)
              else pool == old(pool) && r == Unavailable
      ensures r.Address? ==> Zeroed(mem.pages, r.addr / PAGE_SIZE, multiple)
    {
      var size := multiple * PAGE_SIZE;
      if currentStart < memoryEnd && size < currentSize {
        ghost var p := pool;
        var oldStart := currentStart;
        currentStart := currentStart + size;
        currentSize := currentSize - size;
        pool := Pools.Grow(pool, multiple);
        Pools.GrowKeepsPartition(p, multiple);
        assert forall n :: Pools.List(pool, n) == Pools.List(p, n);
        ZeroLive(oldStart / PAGE_SIZE, multiple);
        return Address(oldStart);
      }
      return Unavailable;
    }

    /** Takes the oldest block of `v` pages and files what is not needed of it. The
        bit that is cleared is that of `multiple`, as in the source. */
    method CarveBlock(multiple: nat, v: nat) returns (b: nat)
      requires Valid() && 1 <= multiple <= v && Pools.List(pool, v) != []
      requires v != multiple ==> Pools.List(pool, multiple) == []
      modifies this, mem, bitmaps.inner, list
      ensures Valid() && currentStart == old(currentStart)
      ensures b == Pools.List(old(pool), v)[0] && pool == Pools.Carve(old(pool), multiple, v)
      ensures ForeignKept(old(mem.pages), mem.pages, old(pool))
    {
      hide Pools.Partitioned;
      hide Represents;
      hide Members;
      hide Words128;
      ghost var p := pool;
      b := TakeBlock(v);
      if list[v - 1] == 0 {
        Unmark(multiple);
      }
      if v != multiple {
        Pools.SpanSplits(b, multiple, v);
        FileBlock(b + multiple, v - multiple);
        Pools.CarveKeepsPartition(p, multiple, v);
      }
    }

    /** The branch of `allocate` in which the bitmap names a list. An empty list there
        makes `unwrap` panic. */
    method AllocateFromList(multiple: nat, v: nat) returns (r: Allocation)
      requires Valid() && multiple >= 1 && Pools.FirstFrom(pool.marked, multiple) == Some(v)
      modifies this, mem, bitmaps.inner, list
      ensures Valid()
      ensures ForeignKept(old(mem.pages), mem.pages, old(pool))
      ensures var (q, o) := Pools.Allocate(old(pool), multiple);
              pool == q && if o.Halt? then r == Panic else o.Block? && r == Address(o.frame * PAGE_SIZE)
      ensures r.Address? ==> Zeroed(mem.pages, r.addr / PAGE_SIZE, multiple)
    {
      hide Pools.Partitioned;
      hide Represents;
      hide Members;
      hide Words128;
      ghost var p, m := pool, mem.pages;
      Pools.AllocateIsSound(p, multiple);
      Pools.FirstFromIsLeast(p.marked, multiple);
      HeadIsNull(m, list[..], p, v);
      if list[v - 1] == 0 {
        return Panic;
      }
      var b := CarveBlock(multiple, v);
      ZeroLive(b, multiple);
      return Address(b * PAGE_SIZE);
    }

    /** Clients return pages they hold, in any of the sizes that have a list; it panics
        at every other size, and only there. */
    method Deallocate(start: nat, size: nat) returns (panicked: bool)
      requires Valid()
      requires size % PAGE_SIZE == 0 && 1 <= size / PAGE_SIZE <= NUM_MULTIPLES ==>
                 start % PAGE_SIZE == 0 && Pools.Span(start / PAGE_SIZE, size / PAGE_SIZE) <= pool.live
      modifies this, mem, bitmaps.inner, list
      ensures Valid()
      ensures !panicked <==> size % PAGE_SIZE == 0 && 1 <= size / PAGE_SIZE <= NUM_MULTIPLES
      ensures panicked ==> pool == old(pool) && mem.pages == old(mem.pages)
      ensures !panicked ==> pool == Pools.Deallocate(old(pool), start / PAGE_SIZE, size / PAGE_SIZE)
      ensures ForeignKept(old(mem.pages), mem.pages, pool)
    {
      if size % PAGE_SIZE != 0 || size < PAGE_SIZE || size > Pools.MAX_ALLOC {
        return true;
      }
      FileBlock(start / PAGE_SIZE, size / PAGE_SIZE);
      return false;
    }
  }
}
