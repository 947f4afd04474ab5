/** What the page allocator of allocator/src/page_allocator.rs does, as steps on
    plain values: which pages are free and filed under which size, which are in a
    client's hands, and which were never handed out. Pages are named by frame
    number, that is address / 4096. */
module PagePool {
  import opened BitmapIndex
  import opened PhysicalMemory
  import opened Wrappers

  const MAX_ALLOC := 10485760

  /** `free[n - 1]` lists the blocks of `n` pages, oldest first; `marked` is the
      bitmap; `live` holds the pages that clients own; `bump` is the first page
      never handed out and `end` the byte address where the memory stops. */
  datatype Pool = Pool(
    start: nat, end: nat, bump: nat,
    free: seq<seq<nat>>, marked: set<nat>, live: set<nat>)

  datatype Outcome = Block(frame: nat) | NoMemory | Halt

  predicate Within(f: nat, b: nat, n: nat) {
    b <= f < b + n
  }

  function Span(b: nat, n: nat): set<nat> {
    set f | b <= f < b + n && Within(f, b, n)
  }

  predicate IsClass(n: int) {
    1 <= n <= NUM_MULTIPLES
  }

  /** The blocks of `n` pages, oldest first. */
  function List(p: Pool, n: int): seq<nat> {
    if |p.free| == NUM_MULTIPLES && IsClass(n) then p.free[n - 1] else []
  }

  /** Page `f` belongs to block `i` of the list for `n`-page blocks. */
  predicate InBlock(p: Pool, f: nat, n: int, i: int) {
    0 <= i < |List(p, n)| && List(p, n)[i] <= f < List(p, n)[i] + n
  }

  ghost predicate InSomeBlock(p: Pool, f: nat) {
    exists n, i :: InBlock(p, f, n, i)
  }

  ghost predicate Partitioned(p: Pool) {
    && |p.free| == NUM_MULTIPLES
    && 0 < p.start <= p.bump && p.bump * PAGE_SIZE <= p.end
    && (forall f :: f in p.live ==> p.start <= f < p.bump)
    && (forall f: nat, n, i :: InBlock(p, f, n, i) ==> p.start <= f < p.bump && f !in p.live)
    && (forall f, n, i, n', i' :: InBlock(p, f, n, i) && InBlock(p, f, n', i') ==> n == n' && i == i')
    && (forall f: nat :: p.start <= f < p.bump ==> f in p.live || InSomeBlock(p, f))
  }

  /** Every non-empty list has its bit set. The converse can fail. */
  ghost predicate Indexed(p: Pool) {
    && |p.free| == NUM_MULTIPLES
    && (forall n :: n in p.marked ==> IsClass(n))
    && (forall n :: List(p, n) != [] ==> n in p.marked)
  }

  ghost predicate Sound(p: Pool) {
    Partitioned(p) && Indexed(p)
  }

  /** The sizes whose bit is set over an empty list. */
  ghost function Stale(p: Pool): set<nat> {
    set v | v in p.marked && List(p, v) == []
  }

  /* ---------- the three ways in which pages change hands ---------- */

  /** The oldest block of a class goes to a client. */
  function Take(p: Pool, n: nat): Pool
    requires |p.free| == NUM_MULTIPLES && List(p, n) != []
  {
    p.(free := p.free[n - 1 := List(p, n)[1..]], live := p.live + Span(List(p, n)[0], n))
  }

  /** Pages of a client become the newest block of their class. */
  function File(p: Pool, b: nat, n: nat): Pool
    requires |p.free| == NUM_MULTIPLES && IsClass(n)
  {
    p.(free := p.free[n - 1 := p.free[n - 1] + [b]], live := p.live - Span(b, n))
  }

  /** Pages never used before go to a client. */
  function Grow(p: Pool, n: nat): Pool {
    p.(bump := p.bump + n, live := p.live + Span(p.bump, n))
  }

  lemma TakeKeepsPartition(p: Pool, n: nat)
    requires Partitioned(p) && List(p, n) != []
    ensures Partitioned(Take(p, n))
    ensures Span(List(p, n)[0], n) !! p.live
  {
    var q := Take(p, n);
    var b := List(p, n)[0];
    forall f | f in Span(b, n) ensures p.start <= f < p.bump && f !in p.live {
      assert InBlock(p, f, n, 0);
    }
    forall f, m, i | InBlock(q, f, m, i)
      ensures InBlock(p, f, m, if m == n then i + 1 else i)
    {}
    forall f: nat, m, i | InBlock(p, f, m, i) && !(m == n && i == 0)
      ensures InBlock(q, f, m, if m == n then i - 1 else i)
    {}
    forall f, m, i | InBlock(q, f, m, i) ensures f !in q.live {
      if f in Span(b, n) {
        assert InBlock(p, f, n, 0) && InBlock(p, f, m, if m == n then i + 1 else i);
      }
    }
    forall f, m, i, m', i' | InBlock(q, f, m, i) && InBlock(q, f, m', i')
      ensures m == m' && i == i'
    {
      assert InBlock(p, f, m, if m == n then i + 1 else i);
      assert InBlock(p, f, m', if m' == n then i' + 1 else i');
    }
    forall f: nat | q.start <= f < q.bump ensures f in q.live || InSomeBlock(q, f) {
      if f !in p.live {
        var m, i :| InBlock(p, f, m, i);
        if !(m == n && i == 0) {
          assert InBlock(q, f, m, if m == n then i - 1 else i);
        }
      }
    }
  }

  lemma FileKeepsPartition(p: Pool, b: nat, n: nat)
    requires Partitioned(p) && IsClass(n) && Span(b, n) <= p.live
    ensures Partitioned(File(p, b, n))
  {
    var q := File(p, b, n);
    var last := |List(p, n)|;
    assert b in Span(b, n) && b + n - 1 in Span(b, n);
    forall f: nat, m, i | InBlock(q, f, m, i)
      ensures if m == n && i == last then f in Span(b, n) else InBlock(p, f, m, i)
    {}
    forall f: nat, m, i | InBlock(p, f, m, i) ensures InBlock(q, f, m, i) {}
    forall f, m, i | InBlock(q, f, m, i) ensures f !in q.live {
      assert if m == n && i == last then f in Span(b, n) else InBlock(p, f, m, i);
    }
    forall f, m, i, m', i' | InBlock(q, f, m, i) && InBlock(q, f, m', i')
      ensures m == m' && i == i'
    {
      assert if m == n && i == last then f in Span(b, n) else InBlock(p, f, m, i);
      assert if m' == n && i' == last then f in Span(b, n) else InBlock(p, f, m', i');
    }
    forall f: nat | q.start <= f < q.bump ensures f in q.live || InSomeBlock(q, f) {
      if f in Span(b, n) {
        assert InBlock(q, f, n, last);
      } else if f !in p.live {
        var m, i :| InBlock(p, f, m, i);
        assert InBlock(q, f, m, i);
      }
    }
  }

  lemma GrowKeepsPartition(p: Pool, n: nat)
    requires Partitioned(p) && (p.bump + n) * PAGE_SIZE <= p.end
    ensures Partitioned(Grow(p, n)) && Span(p.bump, n) !! p.live
  {
    var q := Grow(p, n);
    forall f: nat, m, i ensures InBlock(q, f, m, i) == InBlock(p, f, m, i) {}
    forall f: nat | q.start <= f < q.bump ensures f in q.live || InSomeBlock(q, f) {
      if f < p.bump && f !in p.live {
        var m, i :| InBlock(p, f, m, i);
        assert InBlock(q, f, m, i);
      }
    }
  }

  /* ---------- allocate and deallocate ---------- */

  /** The least marked size not below `n`. */
  function FirstFrom(s: set<nat>, n: nat): Option<nat>
    decreases NUM_MULTIPLES + 1 - n
  {
    if n > NUM_MULTIPLES then None else if n in s then Some(n) else FirstFrom(s, n + 1)
  }

  lemma {:induction false} FirstFromIsLeast(s: set<nat>, n: nat)
    requires forall m :: m in s ==> IsClass(m)
    ensures IsLeastFrom(s, n, FirstFrom(s, n))
    decreases NUM_MULTIPLES + 1 - n
  {
    if n <= NUM_MULTIPLES && n !in s { FirstFromIsLeast(s, n + 1); }
  }

  lemma LeastIsUnique(s: set<nat>, n: nat, r: Option<nat>)
    requires forall m :: m in s ==> IsClass(m)
    requires IsLeastFrom(s, n, r)
    ensures r == FirstFrom(s, n)
  {
    FirstFromIsLeast(s, n);
  }

  /** The request for `n` pages served from the list of `v`-page blocks. The bit
      cleared when the list runs empty is that of `n`, not of `v`. */
  function Carve(p: Pool, n: nat, v: nat): Pool
    requires |p.free| == NUM_MULTIPLES && 1 <= n <= v && List(p, v) != []
  {
    var q := Take(p, v);
    var r := if List(q, v) == [] then q.(marked := q.marked - {n}) else q;
    if v == n then r
    else File(r, List(p, v)[0] + n, v - n).(marked := r.marked + {v - n})
  }

  predicate TailFits(p: Pool, n: nat) {
    p.bump * PAGE_SIZE < p.end && n * PAGE_SIZE < p.end - p.bump * PAGE_SIZE
  }

  /** A request for `n` pages. A set bit over an empty list stops the kernel. */
  function Allocate(p: Pool, n: nat): (Pool, Outcome)
    requires Indexed(p) && n >= 1
  {
    FirstFromIsLeast(p.marked, n);
    match FirstFrom(p.marked, n)
    case Some(v) =>
      if List(p, v) == [] then (p, Halt)
      else (Carve(p, n, v), Block(List(p, v)[0]))
    case None =>
      if TailFits(p, n) then (Grow(p, n), Block(p.bump)) else (p, NoMemory)
  }

  function Deallocate(p: Pool, b: nat, n: nat): Pool
    requires |p.free| == NUM_MULTIPLES && IsClass(n)
  {
    File(p, b, n).(marked := p.marked + {n})
  }

  /** The marks take no part in the partition. */
  lemma MarksApart(p: Pool, s: set<nat>)
    requires Partitioned(p)
    ensures Partitioned(p.(marked := s))
  {
    var q := p.(marked := s);
    forall f: nat, n, i ensures InBlock(q, f, n, i) == InBlock(p, f, n, i) {}
    forall f: nat | p.start <= f < p.bump && f !in p.live ensures InSomeBlock(q, f) {
      var n, i :| InBlock(p, f, n, i);
      assert InBlock(q, f, n, i);
    }
  }

  lemma SpanSplits(b: nat, n: nat, v: nat)
    requires n <= v
    ensures Span(b, v) == Span(b, n) + Span(b + n, v - n)
    ensures Span(b, n) !! Span(b + n, v - n)
  {}

  lemma PartitionHasClasses(p: Pool)
    requires Partitioned(p)
    ensures |p.free| == NUM_MULTIPLES
  {}

  lemma CarveKeepsPartition(p: Pool, n: nat, v: nat)
    requires Partitioned(p) && 1 <= n <= v && List(p, v) != []
    ensures Partitioned(Carve(p, n, v))
    ensures var b := List(p, v)[0];
            Span(b, n) !! p.live && Carve(p, n, v).live == p.live + Span(b, n)
  {
    hide Partitioned;
    hide Span;
    var b := List(p, v)[0];
    PartitionHasClasses(p);
    TakeKeepsPartition(p, v);
    var q := Take(p, v);
    var r := if List(q, v) == [] then q.(marked := q.marked - {n}) else q;
    MarksApart(q, r.marked);
    if v == n {
      assert Carve(p, n, v) == r;
    } else {
      SpanSplits(b, n, v);
      FileKeepsPartition(r, b + n, v - n);
      MarksApart(File(r, b + n, v - n), r.marked + {v - n});
      assert Carve(p, n, v) == File(r, b + n, v - n).(marked := r.marked + {v - n});
    }
  }

  lemma TakeIsSound(p: Pool, n: nat)
    requires Sound(p) && List(p, n) != []
    ensures Sound(Take(p, n)) && Span(List(p, n)[0], n) !! p.live
  {
    TakeKeepsPartition(p, n);
    assert forall m :: m != n ==> List(Take(p, n), m) == List(p, m);
  }

  lemma UnmarkIsSound(p: Pool, n: nat)
    requires Sound(p) && List(p, n) == []
    ensures Sound(p.(marked := p.marked - {n}))
  {
    var q := p.(marked := p.marked - {n});
    MarksApart(p, q.marked);
    assert forall m :: List(q, m) == List(p, m);
  }

  lemma CarveKeepsIndex(p: Pool, n: nat, v: nat)
    requires Indexed(p) && 1 <= n <= v && List(p, v) != []
    requires n != v ==> List(p, n) == []
    ensures Indexed(Carve(p, n, v))
  {
    var q := Carve(p, n, v);
    forall m | List(q, m) != [] ensures m in q.marked {
      assert m == v || m == v - n || List(p, m) != [];
    }
  }

  /** Allocation keeps every page accounted for and hands out only pages that
      nobody held. */
  lemma AllocateIsSound(p: Pool, n: nat)
    requires Sound(p) && n >= 1
    ensures Sound(Allocate(p, n).0)
    ensures Allocate(p, n).0.end == p.end && Allocate(p, n).0.bump >= p.bump
    ensures match Allocate(p, n).1
            case Block(b) =>
              Span(b, n) !! p.live && Allocate(p, n).0.live == p.live + Span(b, n) &&
              p.start <= b && (b + n) * PAGE_SIZE <= p.end
            case _ => Allocate(p, n).0 == p
  {
    FirstFromIsLeast(p.marked, n);
    match FirstFrom(p.marked, n)
    case Some(v) =>
      if List(p, v) != [] {
        CarveKeepsPartition(p, n, v);
        CarveKeepsIndex(p, n, v);
        assert InBlock(p, List(p, v)[0], v, 0) && InBlock(p, List(p, v)[0] + v - 1, v, 0);
      }
    case None =>
      if TailFits(p, n) { GrowKeepsPartition(p, n); }
  }

  lemma DeallocateIsSound(p: Pool, b: nat, n: nat)
    requires Sound(p) && IsClass(n) && Span(b, n) <= p.live
    ensures Sound(Deallocate(p, b, n))
    ensures Deallocate(p, b, n).live == p.live - Span(b, n)
    ensures List(Deallocate(p, b, n), n) == List(p, n) + [b]
    ensures forall m :: m != n ==> List(Deallocate(p, b, n), m) == List(p, m)
  {
    FileKeepsPartition(p, b, n);
    MarksApart(File(p, b, n), p.marked + {n});
  }

  /* ---------- whole runs ---------- */

  datatype Request = Alloc(pages: nat) | Dealloc(block: nat, pages: nat)

  /** Clients return only pages they hold, in any grouping. */
  predicate Legal(p: Pool, r: Request) {
    match r
    case Alloc(n) => n >= 1
    case Dealloc(b, n) => IsClass(n) && Span(b, n) <= p.live
  }

  function Apply(p: Pool, r: Request): Pool
    requires Indexed(p) && Legal(p, r)
  {
    match r
    case Alloc(n) => Allocate(p, n).0
    case Dealloc(b, n) => Deallocate(p, b, n)
  }

  lemma ApplyIsSound(p: Pool, r: Request)
    requires Sound(p) && Legal(p, r)
    ensures Sound(Apply(p, r))
    ensures Apply(p, r).start == p.start && Apply(p, r).end == p.end
  {
    match r
    case Alloc(n) => AllocateIsSound(p, n);
    case Dealloc(b, n) => DeallocateIsSound(p, b, n);
  }

  /** Every request of the run is one that its client may make. */
  ghost predicate LegalRun(p: Pool, rs: seq<Request>)
    requires Sound(p)
    decreases |rs|
  {
    rs == [] || (Legal(p, rs[0]) && (ApplyIsSound(p, rs[0]); LegalRun(Apply(p, rs[0]), rs[1..])))
  }

  ghost function Run(p: Pool, rs: seq<Request>): Pool
    requires Sound(p) && LegalRun(p, rs)
    decreases |rs|
  {
    if rs == [] then p else (ApplyIsSound(p, rs[0]); Run(Apply(p, rs[0]), rs[1..]))
  }

  function Fresh(start: nat, end: nat): (p: Pool)
    ensures 0 < start && start * PAGE_SIZE <= end ==> Sound(p)
  {
    Pool(start, end, start, seq(NUM_MULTIPLES, _ => []), {}, {})
  }

  lemma {:induction false} RunIsSound(p: Pool, rs: seq<Request>)
    requires Sound(p) && LegalRun(p, rs)
    ensures Sound(Run(p, rs))
    ensures Run(p, rs).start == p.start && Run(p, rs).end == p.end
    decreases |rs|
  {
    if rs != [] {
      ApplyIsSound(p, rs[0]);
      RunIsSound(Apply(p, rs[0]), rs[1..]);
    }
  }

  /** Exactly one of: in a client's hands, in one block of one list, in the tail. */
  ghost predicate ExactlyOnePlace(p: Pool, f: nat) {
    || (f in p.live && !InSomeBlock(p, f) && f < p.bump)
    || (f !in p.live && f < p.bump &&
        exists n, i :: InBlock(p, f, n, i) &&
                       forall n', i' :: InBlock(p, f, n', i') ==> n' == n && i' == i)
    || (f !in p.live && !InSomeBlock(p, f) && p.bump <= f)
  }

  /** After any run from a fresh allocator, every page of the memory is in exactly
      one place: nothing is lost and nothing is held twice. */
  lemma EveryPageInOnePlace(start: nat, end: nat, rs: seq<Request>, f: nat)
    requires 0 < start && start * PAGE_SIZE <= end && LegalRun(Fresh(start, end), rs)
    requires start <= f && f * PAGE_SIZE < end
    ensures ExactlyOnePlace(Run(Fresh(start, end), rs), f)
  {
    RunIsSound(Fresh(start, end), rs);
    var p := Run(Fresh(start, end), rs);
    if f < p.bump && f !in p.live {
      var n, i :| InBlock(p, f, n, i);
      assert forall n', i' :: InBlock(p, f, n', i') ==> n' == n && i' == i;
    }
  }

  /* ---------- best fit ---------- */

  /** Block `b` is the oldest of the smallest non-empty size `v` that fits; the rest
      of it is filed as the newest block of its own size; no other list changes. */
  ghost predicate BestFit(p: Pool, n: nat, b: nat, q: Pool, v: nat) {
    && n <= v && List(p, v) != [] && (forall m :: n <= m < v ==> List(p, m) == [])
    && b == List(p, v)[0]
    && List(q, v) == List(p, v)[1..]
    && (v > n ==> List(q, v - n) == List(p, v - n) + [b + n])
    && (forall m :: m != v && m != v - n ==> List(q, m) == List(p, m))
    && q.start == p.start && q.end == p.end && q.bump == p.bump
  }

  lemma AllocateIsBestFit(p: Pool, n: nat)
    requires Sound(p) && n >= 1
    requires Allocate(p, n).1.Block? && Allocate(p, n).1.frame < p.bump
    ensures exists v :: BestFit(p, n, Allocate(p, n).1.frame, Allocate(p, n).0, v)
  {
    hide Partitioned;
    hide Carve;
    hide BestFit;
    FirstFromIsLeast(p.marked, n);
    var v := FirstFrom(p.marked, n).value;
    CarveIsBestFit(p, n, v);
  }

  lemma CarveIsBestFit(p: Pool, n: nat, v: nat)
    requires Indexed(p) && n >= 1 && n <= v && List(p, v) != [] && IsLeastFrom(p.marked, n, Some(v))
    ensures BestFit(p, n, List(p, v)[0], Carve(p, n, v), v)
  {}

  /** A request served from the tail takes its first pages, and leaves every list and
      every mark alone. */
  lemma TailKeepsLists(p: Pool, n: nat)
    requires Sound(p) && n >= 1
    requires Allocate(p, n).1.Block? && Allocate(p, n).1.frame >= p.bump
    ensures var (q, o) := Allocate(p, n);
            o.frame == p.bump && q.bump == p.bump + n && q.start == p.start && q.end == p.end &&
            q.marked == p.marked && forall m :: List(q, m) == List(p, m)
  {
    FirstFromIsLeast(p.marked, n);
    match FirstFrom(p.marked, n)
    case None =>
    case Some(v) =>
      assert List(p, v) != [] ==> InBlock(p, List(p, v)[0], v, 0);
  }

  /** The unused tail is touched, and no memory is reported, only when every list that
      could serve is empty; no memory means that the tail has at most the requested
      bytes, and without stale bits these two conditions are also sufficient. */
  lemma NoMemoryIsHonest(p: Pool, n: nat)
    requires Sound(p) && n >= 1
    ensures var o := Allocate(p, n).1;
            o == NoMemory || o == Block(p.bump) ==> forall m :: n <= m && IsClass(m) ==> List(p, m) == []
    ensures Allocate(p, n).1 == NoMemory ==> p.end - p.bump * PAGE_SIZE <= n * PAGE_SIZE
    ensures Stale(p) == {} ==>
              (Allocate(p, n).1 == NoMemory <==>
               (forall m :: n <= m && IsClass(m) ==> List(p, m) == []) &&
               p.end - p.bump * PAGE_SIZE <= n * PAGE_SIZE)
  {
    FirstFromIsLeast(p.marked, n);
    var r := FirstFrom(p.marked, n);
    if r.Some? && List(p, r.value) != [] {
      assert InBlock(p, List(p, r.value)[0], r.value, 0);
    } else if r.Some? {
      assert r.value in Stale(p);
    }
  }

  /* ---------- when the kernel halts ---------- */

  /** A request halts exactly when the least marked size that fits has an empty list. */
  lemma HaltsExactlyOnStaleBit(p: Pool, n: nat)
    requires Indexed(p) && n >= 1
    ensures Allocate(p, n).1 == Halt <==>
            exists v :: v in p.marked && n <= v && List(p, v) == [] &&
                        forall m :: m in p.marked && n <= m ==> v <= m
  {
    FirstFromIsLeast(p.marked, n);
    if Allocate(p, n).1 == Halt {
      var v := FirstFrom(p.marked, n).value;
      assert v in p.marked && n <= v && List(p, v) == [];
    }
  }

  /** A request for `n` pages is served from the list of `v`-page blocks. */
  ghost predicate Serves(p: Pool, n: nat, v: nat) {
    n <= v && List(p, v) != [] && IsLeastFrom(p.marked, n, Some(v))
  }

  lemma CarvedLists(p: Pool, n: nat, v: nat)
    requires Indexed(p) && 1 <= n <= v && List(p, v) != []
    ensures var q := Carve(p, n, v);
            (forall m :: m != v && m != v - n ==> List(q, m) == List(p, m)) &&
            List(q, v) == List(p, v)[1..] && (v > n ==> List(q, v - n) != [] && v - n in q.marked) &&
            (forall m :: m != v - n && m != n ==> (m in q.marked <==> m in p.marked)) &&
            (n in p.marked && n != v - n ==> (n in q.marked <==> List(p, v)[1..] != [])) &&
            (n !in p.marked && n != v - n ==> n !in q.marked) && 0 !in p.marked && 0 !in q.marked
  {}

  lemma CarveChangesStale(p: Pool, n: nat, v: nat)
    requires Indexed(p) && n >= 1 && Serves(p, n, v)
    ensures Stale(Carve(p, n, v)) == Stale(p) - {v - n} + if v > n && |List(p, v)| == 1 then {v} else {}
  {
    var q := Carve(p, n, v);
    CarvedLists(p, n, v);
    hide Carve;
    hide List;
    assert v > n ==> n !in p.marked;
    assert forall m :: m in Stale(q) <==> m in q.marked && List(q, m) == [];
    assert forall m :: m in Stale(p) <==> m in p.marked && List(p, m) == [];
  }

  /** How a request changes the stale bits of any sound pool: served from the list of
      size `v` it clears the one of the remainder's size, and leaves a new one, that of
      `v`, exactly when it splits the last block of that size. */
  lemma StaleBitsComeFromSplits(p: Pool, n: nat)
    requires Sound(p) && n >= 1
    ensures forall v: nat :: Serves(p, n, v) ==>
                          Stale(Allocate(p, n).0) ==
                          Stale(p) - {v - n} + if v > n && |List(p, v)| == 1 then {v} else {}
    ensures (forall v: nat :: !Serves(p, n, v)) ==> Stale(Allocate(p, n).0) == Stale(p)
  {
    hide Carve;
    FirstFromIsLeast(p.marked, n);
    forall v: nat | Serves(p, n, v)
      ensures FirstFrom(p.marked, n) == Some(v)
      ensures Stale(Carve(p, n, v)) == Stale(p) - {v - n} + if v > n && |List(p, v)| == 1 then {v} else {}
    {
      LeastIsUnique(p.marked, n, Some(v));
      CarveChangesStale(p, n, v);
    }
    if forall v: nat :: !Serves(p, n, v) {
      var r := FirstFrom(p.marked, n);
      assert r.Some? ==> !Serves(p, n, r.value);
      assert forall m :: List(Grow(p, n), m) == List(p, m);
    }
  }

  /** A request to a pool without stale bits does not halt, and leaves the pool without
      stale bits unless it splits the last block of the smallest size that fits. */
  lemma CleanUntilSplit(p: Pool, n: nat)
    requires Sound(p) && Stale(p) == {} && n >= 1
    ensures Allocate(p, n).1 != Halt
    ensures Stale(Allocate(p, n).0) == {} <==>
            forall v: nat :: n < v && |List(p, v)| == 1 ==> exists m :: n <= m < v && List(p, m) != []
  {
    hide Carve;
    FirstFromIsLeast(p.marked, n);
    StaleBitsComeFromSplits(p, n);
    match FirstFrom(p.marked, n)
    case None =>
      assert forall v: nat :: !Serves(p, n, v);
    case Some(v) =>
      assert v !in Stale(p) && Serves(p, n, v);
      var q := Allocate(p, n).0;
      assert Stale(q) == {} - {v - n} + if v > n && |List(p, v)| == 1 then {v} else {};
      assert forall m :: n <= m < v ==> List(p, m) == [];
  }

  /** A return clears the stale bit of its size and no other. */
  lemma DeallocateLeavesNoStaleBit(p: Pool, b: nat, n: nat)
    requires Sound(p) && IsClass(n) && Span(b, n) <= p.live
    ensures Sound(Deallocate(p, b, n))
    ensures Stale(Deallocate(p, b, n)) == Stale(p) - {n}
  {
    hide Sound;
    hide Partitioned;
    DeallocateIsSound(p, b, n);
  }

  /** Runs in which all requests have one size never halt. The kernel's allocator also
      serves images and stacks of other sizes, so its requests for tables are not such a
      run. */
  lemma {:induction false} OneSizeNeverHalts(p: Pool, rs: seq<Request>, n: nat)
    requires Sound(p) && LegalRun(p, rs) && IsClass(n)
    requires forall m :: m in p.marked ==> m == n && List(p, n) != []
    requires forall i :: 0 <= i < |rs| ==> rs[i].pages == n
    ensures Sound(Run(p, rs)) && Stale(Run(p, rs)) == {} && Allocate(Run(p, rs), n).1 != Halt
    decreases |rs|
  {
    FirstFromIsLeast(p.marked, n);
    if rs != [] {
      ApplyIsSound(p, rs[0]);
      OneSizeNeverHalts(Apply(p, rs[0]), rs[1..], n);
    }
  }

  lemma RunCons(p: Pool, r: Request, rs: seq<Request>)
    requires Sound(p) && Legal(p, r) && Sound(Apply(p, r)) && LegalRun(Apply(p, r), rs)
    ensures LegalRun(p, [r] + rs) && Run(p, [r] + rs) == Run(Apply(p, r), rs)
  {
    assert ([r] + rs)[1..] == rs;
  }

  lemma ServedFrom(p: Pool, n: nat, v: nat)
    requires Indexed(p) && n >= 1 && IsLeastFrom(p.marked, n, Some(v)) && List(p, v) != []
    ensures Allocate(p, n) == (Carve(p, n, v), Block(List(p, v)[0]))
  {
    LeastIsUnique(p.marked, n, Some(v));
  }

  lemma SplitThenDrain(p: Pool, b: nat)
    requires Indexed(p) && p.marked == {4} && List(p, 4) == [b]
    ensures Indexed(Apply(p, Alloc(2))) && Indexed(Apply(Apply(p, Alloc(2)), Alloc(2)))
    ensures Allocate(Apply(Apply(p, Alloc(2)), Alloc(2)), 1).1 == Halt
  {
    ServedFrom(p, 2, 4);
    var q := Carve(p, 2, 4);
    assert List(p, 2) == [];
    CarveKeepsIndex(p, 2, 4);
    assert q.marked == {2, 4} && List(q, 4) == [] && List(q, 2) == [b + 2];
    ServedFrom(q, 2, 2);
    var r := Carve(q, 2, 2);
    CarveKeepsIndex(q, 2, 2);
    assert r.marked == {4} && List(r, 4) == [];
    LeastIsUnique(r.marked, 1, Some(4));
  }

  /** The halt is real: five legal requests on a fresh allocator reach it. */
  lemma HaltingRun(start: nat, end: nat)
    requires 0 < start && (start + 4) * PAGE_SIZE < end
    ensures var rs := [Alloc(4)] + ([Dealloc(start, 4)] + ([Alloc(2)] + ([Alloc(2)] + [])));
            LegalRun(Fresh(start, end), rs) && Sound(Run(Fresh(start, end), rs)) &&
            Allocate(Run(Fresh(start, end), rs), 1).1 == Halt
  {
    hide LegalRun;
    hide Run;
    hide Apply;
    hide Deallocate;
    var p0 := Fresh(start, end);
    BlockComesBack(start, end);
    var p2 := Apply(Apply(p0, Alloc(4)), Dealloc(start, 4));
    SplitThenDrain(p2, start);
    ApplyIsSound(p2, Alloc(2));
    HaltingRunUnrolled(p0, start);
  }

  /** Four pages handed out and returned by a fresh allocator. */
  lemma BlockComesBack(start: nat, end: nat)
    requires 0 < start && (start + 4) * PAGE_SIZE < end
    ensures var p := Fresh(start, end);
            Sound(Apply(p, Alloc(4))) && Legal(Apply(p, Alloc(4)), Dealloc(start, 4)) &&
            var q := Apply(Apply(p, Alloc(4)), Dealloc(start, 4));
            Sound(q) && q.marked == {4} && List(q, 4) == [start]
  {
    var p := Fresh(start, end);
    ApplyIsSound(p, Alloc(4));
    LeastIsUnique(p.marked, 4, None);
    assert Apply(p, Alloc(4)) == Grow(p, 4);
    ApplyIsSound(Grow(p, 4), Dealloc(start, 4));
    var q := Deallocate(Grow(p, 4), start, 4);
    assert q.marked == {4} && List(q, 4) == [start] && forall m :: m != 4 ==> List(q, m) == [];
  }

  lemma HaltingRunUnrolled(p0: Pool, b: nat)
    requires Sound(p0) && Legal(p0, Alloc(4))
    requires var p1 := Apply(p0, Alloc(4)); Sound(p1) && Legal(p1, Dealloc(b, 4))
    requires var p2 := Apply(Apply(p0, Alloc(4)), Dealloc(b, 4)); Sound(p2) && Sound(Apply(p2, Alloc(2)))
    ensures var rs := [Alloc(4)] + ([Dealloc(b, 4)] + ([Alloc(2)] + ([Alloc(2)] + [])));
            LegalRun(p0, rs) && Sound(Run(p0, rs)) &&
            Run(p0, rs) == Apply(Apply(Apply(Apply(p0, Alloc(4)), Dealloc(b, 4)), Alloc(2)), Alloc(2))
  {
    var p1 := Apply(p0, Alloc(4));
    var p2 := Apply(p1, Dealloc(b, 4));
    var p3 := Apply(p2, Alloc(2));
    ApplyIsSound(p3, Alloc(2));
    RunCons(p3, Alloc(2), []);
    RunCons(p2, Alloc(2), [Alloc(2)] + []);
    RunCons(p1, Dealloc(b, 4), [Alloc(2)] + ([Alloc(2)] + []));
    RunCons(p0, Alloc(4), [Dealloc(b, 4)] + ([Alloc(2)] + ([Alloc(2)] + [])));
  }
}
