/** The life of an address space: `assign_process` and `map_other_pages` of
    kernel/src/process.rs build it, the exit of the process in kernel/src/syscall.rs
    cleans it up. */
module AddressSpaces {
  import opened Wrappers
  import opened PhysicalMemory
  import opened PageTableEntries
  import opened PageTree
  import opened PhysicalPages
  import opened Paging
  import opened TableCleanup
  import Pools = PagePool

  /** What the creation of a process asks for: mappings in its tables, and pages for its
      image, stack and trap frame. */
  datatype BuildStep = MapPages(request: MapRequest) | TakePages(pages: nat)

  /** The outcome of a mapping, or the first page of a granted block. */
  datatype Answer = MapResult(outcome: Result<()>) | Grant(page: Option<nat>)

  /** The pages that a step was granted. */
  function Block(step: BuildStep, answer: Answer): set<nat> {
    if step.TakePages? && answer.Grant? && answer.page.Some? then Pools.Span(answer.page.value, step.pages) else {}
  }

  /** The pages that the first `|answers|` steps were granted. */
  function Covered(steps: seq<BuildStep>, answers: seq<Answer>): set<nat>
    requires |answers| <= |steps|
  {
    if answers == [] then {}
    else
      var i := |answers| - 1;
      Covered(steps, answers[..i]) + Block(steps[i], answers[i])
  }

  /** No page was granted twice. */
  ghost predicate Apart(steps: seq<BuildStep>, answers: seq<Answer>)
    requires |answers| <= |steps|
  {
    forall i, j :: 0 <= i < j < |answers| ==> Block(steps[i], answers[i]) !! Block(steps[j], answers[j])
  }

  /** The flat map when step `i` has mapped the first `done[i]` pages of its request. */
  ghost function BuiltLeaf(steps: seq<BuildStep>, done: seq<nat>, vpn: nat): nat
    requires |done| <= |steps|
  {
    if done == [] then 0
    else
      var i := |done| - 1;
      match steps[i]
      case MapPages(q) =>
        if Offset(vpn, q.va) < done[i] then LeafWord(q.pa / PAGE_SIZE + Offset(vpn, q.va), q.flags)
        else BuiltLeaf(steps, done[..i], vpn)
      case TakePages(_) => BuiltLeaf(steps, done[..i], vpn)
  }

  ghost predicate FlatIs(m: Ram, t: Tables, steps: seq<BuildStep>, done: seq<nat>)
    requires |done| <= |steps|
  {
    forall vpn: nat :: vpn < VPN_LIMIT ==> Leaf(m, t, vpn) as nat == BuiltLeaf(steps, done, vpn)
  }

  /** The outcome of a mapping that added `d` pages; `next` is the entry of the next one.
      Pool `p` is any later one. */
  predicate MapAnswer(p: Pool, q: MapRequest, r: Result<()>, d: nat, next: nat) {
    if q.va % PAGE_SIZE != 0 then d == 0 && r == Err(VirtualAddressMisaligned(q.va))
    else if q.size % PAGE_SIZE != 0 then d == 0 && r == Err(SizeMisaligned(q.size))
    else if q.size == 0 then d == 0 && r == Err(ZeroSize)
    else match r
      case Ok(_) => d == q.size / PAGE_SIZE
      case Err(error) =>
        d < q.size / PAGE_SIZE &&
        ((error == MemoryNotAvailable && !Pools.TailFits(p, 1)) ||
         (error == PageAlreadyMapped(PageAddress(q.va, d)) && next != 0))
      case Panicked => false
  }

  /** Step `i` was answered as it had to be: a refused request for pages is for more than
      the unused tail has, and a mapping ends after its last page or with a cause. */
  ghost predicate Answered(p: Pool, steps: seq<BuildStep>, answers: seq<Answer>, done: seq<nat>, i: nat)
    requires i < |answers| == |done| <= |steps|
  {
    match steps[i]
    case TakePages(n) => answers[i].Grant? && (answers[i].page.None? ==> !Pools.TailFits(p, n))
    case MapPages(q) =>
      answers[i].MapResult? &&
      MapAnswer(p, q, answers[i].outcome, done[i],
                BuiltLeaf(steps, done[..i + 1], Vpn(PageAddress(q.va, done[i]))))
  }

  ghost predicate AllAnswered(p: Pool, steps: seq<BuildStep>, answers: seq<Answer>, done: seq<nat>) {
    |answers| == |done| <= |steps| && forall i: nat :: i < |answers| ==> Answered(p, steps, answers, done, i)
  }

  /** A table that some page of some request needs. */
  ghost predicate Needed(k: Key, steps: seq<BuildStep>) {
    k.level <= 3 &&
    exists q, j: nat :: MapPages(q) in steps && j < q.size / PAGE_SIZE &&
                        k == KeyOf(Vpn(PageAddress(q.va, j)), k.level)
  }

  ghost predicate OnlyNeeded(t: Tables, steps: seq<BuildStep>) {
    forall k :: k in t ==> k == ROOT_KEY || Needed(k, steps)
  }

  lemma NeededGrows(t1: Tables, t2: Tables, q: MapRequest, n: nat, steps: seq<BuildStep>)
    requires OnlyNeeded(t1, steps) && MapPages(q) in steps
    requires AddsForPages(t1, t2, q.va, n) && n <= q.size / PAGE_SIZE
    ensures OnlyNeeded(t2, steps)
  {
    hide Vpn;
    hide KeyOf;
    hide PageAddress;
    forall k | k in t2 && k != ROOT_KEY ensures Needed(k, steps) {
      if k !in t1 {
        var j: nat :| j < n && k == KeyOf(Vpn(PageAddress(q.va, j)), k.level);
      }
    }
  }

  lemma MapNeeds(p1: Pool, m1: Ram, t1: Tables, p2: Pool, m2: Ram, t2: Tables, root: nat, q: MapRequest,
                 r: Result<()>, d: nat, steps: seq<BuildStep>)
    requires OnlyNeeded(t1, steps) && MapPages(q) in steps
    requires Mapped(p1, m1, t1, p2, m2, t2, root, q.va, q.pa, q.size, q.flags, r, d)
    ensures OnlyNeeded(t2, steps)
  {
    hide OnlyNeeded;
    hide Mapping;
    hide AddsForPages;
    NeededGrows(t1, t2, q, if d < q.size / PAGE_SIZE then d + 1 else d, steps);
  }

  /** No page can be had. */
  ghost predicate NoPage(p: Pool) {
    Pools.Indexed(p) && Pools.Allocate(p, 1).1.NoMemory?
  }

  /** The state while an address space is built beside pages `others` in clients' hands:
      the pages handed out are those and the tables, and the pages `kept` are as before. */
  ghost predicate Building(m: Ram, kept: set<nat>, others: set<nat>, p': Pool, m': Ram, t: Tables, root: nat) {
    && IsTree(m', root, t) && kept <= others
    && (forall f :: f in p'.live <==> f in others || IsTableFrame(t, f))
    && (forall k :: k in t ==> t[k] !in others)
    && (forall f :: f in kept ==> PageAt(m', f) == PageAt(m, f))
    && (forall k :: k in t ==> LeavesPermit(m', t, k))
  }

  /** Why the kernel can halt on the way: a request that meets a stale bit, or a mapping
      whose physical addresses do not fit a word. */
  ghost predicate MayHalt(p: Pool, steps: seq<BuildStep>) {
    || (Pools.Indexed(p) && exists n :: n >= 1 && (n == 1 || TakePages(n) in steps) && Pools.Allocate(p, n).1.Halt?)
    || (exists q :: MapPages(q) in steps && q.pa + q.size >= WORD_LIMIT)
  }

  /** A root page, and any sequence of mappings and page requests, failing ones included.
      Unless the kernel halts on the way, the flat map holds just what the mappings added,
      later ones on top; beside the tables, exactly the pages granted to requests for
      pages have been handed out, and no table but those that the requests need; and no
      page that clients had has changed. It fails
      exactly when there is no page for the root. */
  method BuildSpace(machine: Riscv, steps: seq<BuildStep>)
    returns (r: Result<nat>, answers: seq<Answer>, ghost t: Tables, ghost done: seq<nat>)
    requires machine.alloc.Valid()
    requires forall q :: MapPages(q) in steps ==> q.flags.read || q.flags.write || q.flags.execute
    requires forall n :: TakePages(n) in steps ==> n >= 1
    modifies machine.alloc, machine.alloc.mem, machine.alloc.bitmaps.inner, machine.alloc.list
    ensures machine.alloc.Valid() && AllAnswered(machine.alloc.pool, steps, answers, done)
    ensures (r.Ok? ==> |answers| == |steps|) && (r.Err? ==> answers == [])
    ensures Covered(steps, answers) !! old(machine.alloc.pool).live && Apart(steps, answers)
    ensures r.Ok? ==>
              FlatIs(machine.alloc.mem.pages, t, steps, done) && OnlyNeeded(t, steps) &&
              Building(old(machine.alloc.mem.pages), old(machine.alloc.pool).live,
                       old(machine.alloc.pool).live + Covered(steps, answers),
                       machine.alloc.pool, machine.alloc.mem.pages, t, r.value)
    ensures r.Err? ==> machine.alloc.pool == old(machine.alloc.pool)
    ensures forall f :: f in old(machine.alloc.pool).live + Covered(steps, answers) ==> f in machine.alloc.pool.live
    ensures forall f :: f in old(machine.alloc.pool).live ==>
                          PageAt(machine.alloc.mem.pages, f) == PageAt(old(machine.alloc.mem.pages), f)
    ensures r.Err? <==> NoPage(old(machine.alloc.pool))
    ensures r.Err? ==> r.error == MemoryNotAvailable
    ensures r.Panicked? ==> MayHalt(machine.alloc.pool, steps)
  {
    hide PageAllocator.Valid;
    hide Building;
    hide MayHalt;
    hide NoPage;
    hide Mapped;
    hide GivesPage;
    hide IsTree;
    hide LeavesPermit;
    hide Covered;
    hide Apart;
    hide Block;
    hide AllAnswered;
    hide MapAnswer;
    hide FlatIs;
    hide Needed;
    hide TailShrinks;
    var alloc := machine.alloc;
    ghost var p, m := alloc.pool, alloc.mem.pages;
    NothingAnswered(steps);
    answers, done, t := [], [], map[];
    var page := machine.AllocatePage();
    RootOutcome(p, m, alloc.pool, alloc.mem.pages, page, steps);
    if !page.Ok? {
      r := if page.Err? then Err(page.error) else Panicked;
      return;
    }
    var root := page.value;
    t := map[ROOT_KEY := root];
    BuildingStarts(p, m, alloc.pool, alloc.mem.pages, root, steps);
    assert p.live + Covered(steps, answers) == p.live;
    for i := 0 to |steps|
      invariant |answers| == |done| == i && alloc.Valid()
      invariant Covered(steps, answers) !! p.live && Apart(steps, answers)
      invariant AllAnswered(alloc.pool, steps, answers, done) && FlatIs(alloc.mem.pages, t, steps, done)
      invariant OnlyNeeded(t, steps)
      invariant Building(m, p.live, p.live + Covered(steps, answers), alloc.pool, alloc.mem.pages, t, root)
    {
      ghost var p1, m1, t1, others := alloc.pool, alloc.mem.pages, t, p.live + Covered(steps, answers);
      BuildingOnTree(m, p.live, others, p1, m1, t1, root);
      assert steps[i] in steps;
      var halted := false;
      var answer;
      ghost var d := 0;
      match steps[i] {
        case MapPages(q) =>
          var outcome;
          outcome, t, d := machine.Map(root, q.va, q.pa, q.size, q.flags, t);
          BuildingMaps(m, p.live, others, p1, m1, t1, alloc.pool, alloc.mem.pages, t, root, q, outcome, d, steps);
          FlatMaps(p1, m1, t1, alloc.pool, alloc.mem.pages, t, root, steps, done, outcome, d);
          MapNeeds(p1, m1, t1, alloc.pool, alloc.mem.pages, t, root, q, outcome, d, steps);
          halted := outcome.Panicked?;
          answer := MapResult(outcome);
        case TakePages(n) =>
          var block := machine.AllocateBlock(n);
          BuildingTakes(m, p.live, others, p1, m1, t1, alloc.pool, alloc.mem.pages, root, n, block, steps);
          FlatStays(m1, alloc.mem.pages, t, steps, done);
          halted := block.Panicked?;
          answer := Grant(if block.Ok? then Some(block.value) else None);
      }
      AnswersStay(p1, alloc.pool, steps, answers, done);
      if halted {
        BuildingKeeps(m, p.live, others, alloc.pool, alloc.mem.pages, t, root);
        r := Panicked;
        return;
      }
      BlockIs(steps[i], answer);
      CoveredGrows(steps, answers, answer);
      AnswersGrow(alloc.pool, steps, answers, answer, done, d);
      answers, done := answers + [answer], done + [d];
      assert p.live + Covered(steps, answers) == others + Block(steps[i], answer);
      assert Block(steps[i], answer) == {} ==> p.live + Covered(steps, answers) == others;
    }
    BuildingKeeps(m, p.live, p.live + Covered(steps, answers), alloc.pool, alloc.mem.pages, t, root);
    r := Ok(root);
  }

  /** A process's memory from its creation to its exit: the space is built as above and
      its tables cleaned up. Unless the kernel halts on the way, the tables have all gone
      back, exactly the pages granted to requests for pages are still handed out, and
      nothing else has changed hands or contents. */
  method BuildAndCleanUp(machine: Riscv, steps: seq<BuildStep>)
    returns (r: Result<()>, answers: seq<Answer>, ghost done: seq<nat>)
    requires machine.alloc.Valid()
    requires forall q :: MapPages(q) in steps ==> q.flags.read || q.flags.write || q.flags.execute
    requires forall n :: TakePages(n) in steps ==> n >= 1
    modifies machine.alloc, machine.alloc.mem, machine.alloc.bitmaps.inner, machine.alloc.list
    ensures machine.alloc.Valid() && AllAnswered(machine.alloc.pool, steps, answers, done)
    ensures (r.Ok? ==> |answers| == |steps|) && (r.Err? ==> answers == [])
    ensures Covered(steps, answers) !! old(machine.alloc.pool).live && Apart(steps, answers)
    ensures !r.Panicked? ==> machine.alloc.pool.live == old(machine.alloc.pool).live + Covered(steps, answers)
    ensures forall f :: f in old(machine.alloc.pool).live + Covered(steps, answers) ==> f in machine.alloc.pool.live
    ensures forall f :: f in old(machine.alloc.pool).live ==>
                          PageAt(machine.alloc.mem.pages, f) == PageAt(old(machine.alloc.mem.pages), f)
    ensures r.Err? <==> NoPage(old(machine.alloc.pool))
    ensures r.Err? ==> r.error == MemoryNotAvailable
    ensures r.Panicked? ==> MayHalt(machine.alloc.pool, steps)
  {
    hide PageAllocator.Valid;
    hide Building;
    hide MayHalt;
    hide NoPage;
    hide IsTree;
    hide LeavesPermit;
    hide Covered;
    hide Apart;
    hide Block;
    hide AllAnswered;
    hide FlatIs;
    hide TailShrinks;
    var alloc := machine.alloc;
    ghost var p, m := alloc.pool, alloc.mem.pages;
    var root;
    ghost var t;
    root, answers, t, done := BuildSpace(machine, steps);
    if !root.Ok? {
      r := if root.Err? then Err(root.error) else Panicked;
      NothingAnswered(steps);
      return;
    }
    ghost var others, p1, m1 := p.live + Covered(steps, answers), alloc.pool, alloc.mem.pages;
    BuildingOnTree(m, p.live, others, p1, m1, t, root.value);
    ghost var freed := CleanUpPageTable(alloc, root.value, t);
    BuildingEnds(m, p.live, others, p1, m1, t, alloc.pool, alloc.mem.pages, root.value);
    SameTail(p1, alloc.pool);
    assert |answers| == |done| <= |steps| by { AnswersFit(p1, steps, answers, done); }
    AnswersStay(p1, alloc.pool, steps, answers, done);
    r := Ok(());
  }

  lemma SameTail(p: Pool, p': Pool)
    requires p'.end == p.end && p'.bump == p.bump
    ensures TailShrinks(p, p')
  {}

  lemma NothingAnswered(steps: seq<BuildStep>)
    ensures Covered(steps, []) == {} && Apart(steps, []) && forall p :: AllAnswered(p, steps, [], [])
  {}

  lemma AnswersFit(p: Pool, steps: seq<BuildStep>, answers: seq<Answer>, done: seq<nat>)
    requires AllAnswered(p, steps, answers, done)
    ensures |answers| == |done| <= |steps|
  {}

  lemma AnswersStay(p: Pool, p': Pool, steps: seq<BuildStep>, answers: seq<Answer>, done: seq<nat>)
    requires AllAnswered(p, steps, answers, done) && TailShrinks(p, p')
    ensures AllAnswered(p', steps, answers, done)
  {
    forall i: nat | i < |answers| ensures Answered(p', steps, answers, done, i) {
      assert Answered(p, steps, answers, done, i);
    }
  }

  lemma AnswersGrow(p: Pool, steps: seq<BuildStep>, answers: seq<Answer>, answer: Answer, done: seq<nat>, d: nat)
    requires AllAnswered(p, steps, answers, done) && |answers| < |steps|
    requires match steps[|answers|]
             case TakePages(n) => answer.Grant? && (answer.page.None? ==> !Pools.TailFits(p, n))
             case MapPages(q) =>
               answer.MapResult? &&
               MapAnswer(p, q, answer.outcome, d, BuiltLeaf(steps, done + [d], Vpn(PageAddress(q.va, d))))
    ensures AllAnswered(p, steps, answers + [answer], done + [d])
  {
    hide MapAnswer;
    hide BuiltLeaf;
    var answers', done' := answers + [answer], done + [d];
    forall i: nat | i < |answers'| ensures Answered(p, steps, answers', done', i) {
      if i < |answers| {
        assert Answered(p, steps, answers, done, i) && done'[..i + 1] == done[..i + 1];
      } else {
        assert done'[..i + 1] == done';
      }
    }
  }

  lemma BlockIs(step: BuildStep, answer: Answer)
    ensures Block(step, answer) ==
            if step.TakePages? && answer.Grant? && answer.page.Some? then Pools.Span(answer.page.value, step.pages)
            else {}
  {}

  lemma {:induction false} BlockIsCovered(steps: seq<BuildStep>, answers: seq<Answer>, i: nat)
    requires i < |answers| <= |steps|
    ensures Block(steps[i], answers[i]) <= Covered(steps, answers)
    decreases |answers|
  {
    if i < |answers| - 1 { BlockIsCovered(steps, answers[..|answers| - 1], i); }
  }

  lemma CoveredGrows(steps: seq<BuildStep>, answers: seq<Answer>, answer: Answer)
    requires |answers| < |steps| && Apart(steps, answers)
    requires Block(steps[|answers|], answer) !! Covered(steps, answers)
    ensures Covered(steps, answers + [answer]) == Covered(steps, answers) + Block(steps[|answers|], answer)
    ensures Apart(steps, answers + [answer])
  {
    hide Block;
    assert (answers + [answer])[..|answers|] == answers;
    forall i | 0 <= i < |answers| ensures Block(steps[i], answers[i]) !! Block(steps[|answers|], answer) {
      BlockIsCovered(steps, answers, i);
    }
  }

  lemma FlatExtends(m1: Ram, t1: Tables, m2: Ram, t2: Tables, steps: seq<BuildStep>, done: seq<nat>, d: nat)
    requires |done| < |steps| && steps[|done|].MapPages? && FlatIs(m1, t1, steps, done)
    requires var q := steps[|done|].request; MapsPrefix(m1, t1, m2, t2, q.va, q.pa, q.flags, d)
    ensures FlatIs(m2, t2, steps, done + [d])
  {
    hide Leaf;
    hide LeafWord;
    hide Offset;
    assert (done + [d])[..|done|] == done;
  }

  lemma MapIsAnswered(p1: Pool, m1: Ram, t1: Tables, p2: Pool, m2: Ram, t2: Tables, root: nat,
                      q: MapRequest, r: Result<()>, d: nat)
    requires Mapped(p1, m1, t1, p2, m2, t2, root, q.va, q.pa, q.size, q.flags, r, d)
    ensures MapsPrefix(m1, t1, m2, t2, q.va, q.pa, q.flags, d)
    ensures !r.Panicked? ==> MapAnswer(p2, q, r, d, Leaf(m2, t2, Vpn(PageAddress(q.va, d))) as nat)
  {
    hide Grown;
    hide AddsForPages;
    hide WasUnmapped;
    hide MapsPrefix;
    hide Leaf;
    hide IsValid;
    hide KeyOf;
    hide Pools.Allocate;
    hide Pools.Indexed;
    hide Pools.TailFits;
    ZeroIsInvalid();
    NoMemoryMeansShort(p2);
  }

  /** A mapping extends the flat map, and is answered as it has to be. */
  lemma FlatMaps(p1: Pool, m1: Ram, t1: Tables, p2: Pool, m2: Ram, t2: Tables, root: nat,
                 steps: seq<BuildStep>, done: seq<nat>, r: Result<()>, d: nat)
    requires |done| < |steps| && steps[|done|].MapPages? && FlatIs(m1, t1, steps, done)
    requires var q := steps[|done|].request;
             Mapped(p1, m1, t1, p2, m2, t2, root, q.va, q.pa, q.size, q.flags, r, d)
    ensures FlatIs(m2, t2, steps, done + [d])
    ensures var q := steps[|done|].request;
            !r.Panicked? ==> MapAnswer(p2, q, r, d, BuiltLeaf(steps, done + [d], Vpn(PageAddress(q.va, d))))
  {
    hide Mapped;
    hide MapAnswer;
    hide MapsPrefix;
    hide BuiltLeaf;
    hide Leaf;
    MapIsAnswered(p1, m1, t1, p2, m2, t2, root, steps[|done|].request, r, d);
    FlatExtends(m1, t1, m2, t2, steps, done, d);
  }

  lemma NoMemoryMeansShort(p: Pool)
    ensures Pools.Indexed(p) && Pools.Allocate(p, 1).1.NoMemory? ==> !Pools.TailFits(p, 1)
  {}

  lemma FlatStays(m1: Ram, m2: Ram, t: Tables, steps: seq<BuildStep>, done: seq<nat>)
    requires |done| < |steps| && steps[|done|].TakePages? && FlatIs(m1, t, steps, done)
    requires forall k :: k in t ==> PageAt(m2, t[k]) == PageAt(m1, t[k])
    ensures FlatIs(m2, t, steps, done + [0])
  {
    assert (done + [0])[..|done|] == done;
  }

  lemma RootOutcome(p: Pool, m: Ram, p': Pool, m': Ram, r: Result<nat>, steps: seq<BuildStep>)
    requires GivesPage(p, m, p', m', r)
    ensures r.Err? <==> NoPage(p)
    ensures r.Err? ==> r.error == MemoryNotAvailable
    ensures !r.Ok? ==> p' == p && forall f :: f in p.live ==> PageAt(m', f) == PageAt(m, f)
    ensures r.Panicked? ==> MayHalt(p', steps)
  {
    hide Pools.Allocate;
  }

  lemma BuildingStarts(p: Pool, m: Ram, p': Pool, m': Ram, root: nat, steps: seq<BuildStep>)
    requires GivesPage(p, m, p', m', Ok(root))
    ensures FlatIs(m', map[ROOT_KEY := root], steps, [])
    ensures Building(m, p.live, p.live, p', m', map[ROOT_KEY := root], root)
  {
    hide Pools.Allocate;
    hide IsTree;
    hide LeavesPermit;
    var t := map[ROOT_KEY := root];
    EmptyTree(m', root);
    assert t[ROOT_KEY] == root;
    assert LeavesPermit(m', t, ROOT_KEY) by { RootPermits(m', root); }
  }

  lemma RootPermits(m: Ram, root: nat)
    ensures LeavesPermit(m, map[ROOT_KEY := root], ROOT_KEY)
  {}

  lemma BuildingOnTree(m: Ram, kept: set<nat>, others: set<nat>, p: Pool, m': Ram, t: Tables, root: nat)
    requires Building(m, kept, others, p, m', t, root)
    ensures IsTree(m', root, t) && Owned(p, t) && forall k :: k in t ==> LeavesPermit(m', t, k)
  {
    hide IsTree;
    hide LeavesPermit;
    forall k | k in t ensures t[k] in p.live {
      assert IsTableFrame(t, t[k]);
    }
  }

  lemma BuildingKeeps(m: Ram, kept: set<nat>, others: set<nat>, p: Pool, m': Ram, t: Tables, root: nat)
    requires Building(m, kept, others, p, m', t, root)
    ensures forall f :: f in others ==> f in p.live
    ensures forall f :: f in kept ==> f in p.live && PageAt(m', f) == PageAt(m, f)
  {}

  lemma BuildingMaps(m: Ram, kept: set<nat>, others: set<nat>, p1: Pool, m1: Ram, t1: Tables,
                     p2: Pool, m2: Ram, t2: Tables, root: nat, q: MapRequest, r: Result<()>, done: nat,
                     steps: seq<BuildStep>)
    requires Building(m, kept, others, p1, m1, t1, root) && MapPages(q) in steps
    requires Mapped(p1, m1, t1, p2, m2, t2, root, q.va, q.pa, q.size, q.flags, r, done)
    requires q.flags.read || q.flags.write || q.flags.execute
    ensures Building(m, kept, others, p2, m2, t2, root)
    ensures TailShrinks(p1, p2)
    ensures r.Panicked? ==> MayHalt(p2, steps)
  {
    hide IsTree;
    hide LeavesPermit;
    hide MapsPrefix;
    hide WasUnmapped;
    hide AddsForPages;
    hide KeyOf;
    hide Vpn;
    hide PageAddress;
    hide IsValid;
    hide Pools.Allocate;
    hide Leaf;
    GrownIsOwned(p1, m1, t1, p2, m2, t2, root);
    MapKeepsLeavesPermitting(p1, m1, t1, p2, m2, t2, root, q.va, q.pa, q.flags, done);
    forall f | f in p2.live ensures f in others || IsTableFrame(t2, f) {
      if f in p1.live && IsTableFrame(t1, f) {
        var k :| k in t1 && t1[k] == f;
        assert t2[k] == f;
      }
    }
    forall f | f in others ensures f in p1.live && !IsTableFrame(t1, f) {}
  }

  lemma RefusedMeansShort(p: Pool, n: nat)
    requires n >= 1 && Pools.Indexed(p) && Pools.Allocate(p, n).1.NoMemory?
    ensures !Pools.TailFits(p, n)
  {}

  lemma BuildingTakes(m: Ram, kept: set<nat>, others: set<nat>, p1: Pool, m1: Ram, t: Tables, p2: Pool, m2: Ram,
                      root: nat, n: nat, r: Result<nat>, steps: seq<BuildStep>)
    requires Building(m, kept, others, p1, m1, t, root) && TakePages(n) in steps
    requires n >= 1 && GivesBlock(p1, m1, p2, m2, n, r)
    ensures r.Ok? ==> Building(m, kept, others + Pools.Span(r.value, n), p2, m2, t, root)
    ensures r.Ok? ==> Pools.Span(r.value, n) !! others
    ensures TailShrinks(p1, p2) && (r.Err? ==> !Pools.TailFits(p2, n))
    ensures !r.Ok? ==> Building(m, kept, others, p2, m2, t, root)
    ensures forall k :: k in t ==> PageAt(m2, t[k]) == PageAt(m1, t[k])
    ensures r.Panicked? ==> MayHalt(p2, steps)
  {
    hide IsTree;
    hide Pools.Allocate;
    if r.Err? { RefusedMeansShort(p1, n); }
    BuildingOnTree(m, kept, others, p1, m1, t, root);
    TreeFrame(m1, m2, root, t);
    forall k | k in t ensures LeavesPermit(m2, t, k) {
      assert LeavesPermit(m1, t, k) && PageAt(m2, t[k]) == PageAt(m1, t[k]);
      forall i: nat | i < 512 ensures k.level == 0 ==> !Descends(WordAt(m2, t[k], i)) {
        assert WordAt(m2, t[k], i) == WordAt(m1, t[k], i);
      }
    }
  }

  lemma BuildingEnds(m: Ram, kept: set<nat>, others: set<nat>, p1: Pool, m1: Ram, t: Tables, p2: Pool, m2: Ram,
                     root: nat)
    requires Building(m, kept, others, p1, m1, t, root)
    requires forall f :: f in p2.live <==> f in p1.live && !IsTableFrame(t, f)
    requires forall f :: f in p2.live ==> PageAt(m2, f) == PageAt(m1, f)
    ensures p2.live == others && forall f :: f in kept ==> f in p2.live && PageAt(m2, f) == PageAt(m, f)
  {
    hide IsTree;
    hide LeavesPermit;
  }
}
