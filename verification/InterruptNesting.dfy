/** The interrupt bookkeeping of sync/src/lib.rs around the spin locks of
    sync/src/mutex.rs, on any number of harts. Every lock operation runs through its
    `push`, the atomic steps of the lock and its `pop`; steps of different harts
    interleave in any order, and on each hart an interrupt handler, which uses the same
    locks, may run between any two steps while interrupts are on. */
module InterruptNesting {
  import Spin = SpinMutex

  /** Where a context stands; `l` is the lock that its operation is about. */
  datatype Pc =
    | Code                                               // outside the lock's code
    | ReadEnabled(l: nat, call: Spin.Call)               // push: about to read the enable flag
    | Disable(l: nat, call: Spin.Call, were: bool)       // push: about to clear the enable flag
    | Save(l: nat, call: Spin.Call, were: bool)          // push: about to save, if the level is zero
    | Count(l: nat, call: Spin.Call)                     // push: about to raise the level
    | Acquiring(l: nat)                                  // in the rest of lock or try_lock
    | Releasing(l: nat)                                  // in unlock, before its pop
    | Decrease                                           // pop: about to lower the level
    | Restore                                            // pop: about to re-enable, if the level is zero

  /** `failed` counts the losing exchanges of `try_lock`; `outer` is the enable flag when
      the context last started a push while it owned no lock and had no failed try. */
  datatype Context = Context(pc: Pc, failed: nat, outer: bool)

  datatype Handler = NoHandler | InHandler(context: Context)

  /** `main` is the interrupted code when there is a handler. */
  datatype Hart = Hart(enabled: bool, level: nat, saved: bool, main: Context, handler: Handler)

  datatype System = System(locks: seq<Spin.Lock>, harts: seq<Hart>)

  datatype Event =
    | StartLock(l: nat, call: Spin.Call) | StartUnlock(l: nat) | Continue
    | Interrupt | Return
    | SetEnabled(value: bool)   // code outside any lock switches interrupts

  function Active(x: Hart): Context {
    match x.handler case NoHandler => x.main case InHandler(c) => c
  }

  function WithActive(x: Hart, c: Context): Hart {
    match x.handler case NoHandler => x.(main := c) case InHandler(_) => x.(handler := InHandler(c))
  }

  /* ---------- what a hart owns ---------- */

  predicate OwnedBy(lock: Spin.Lock, h: nat) {
    h < |lock.harts| && Spin.Owns(lock.harts[h])
  }

  /** The number of locks that hart `h` owns. */
  function OwnedCount(locks: seq<Spin.Lock>, h: nat): nat {
    if locks == [] then 0 else OwnedCount(locks[1..], h) + if OwnedBy(locks[0], h) then 1 else 0
  }

  lemma {:induction false} OwnedUpdate(locks: seq<Spin.Lock>, l: nat, lock: Spin.Lock, h: nat)
    requires l < |locks|
    ensures OwnedCount(locks[l := lock], h) ==
            OwnedCount(locks, h) - (if OwnedBy(locks[l], h) then 1 else 0) + if OwnedBy(lock, h) then 1 else 0
    ensures OwnedBy(locks[l], h) ==> OwnedCount(locks, h) > 0
  {
    if l > 0 {
      assert locks[l := lock][1..] == locks[1..][l - 1 := lock];
      OwnedUpdate(locks[1..], l - 1, lock, h);
    } else {
      assert locks[l := lock][1..] == locks[1..];
    }
  }

  /** Where hart `h` stands in the code of lock `l`. */
  function Seat(locks: seq<Spin.Lock>, h: nat, l: nat): Spin.Pc {
    if l < |locks| && h < |locks[l].harts| then locks[l].harts[h].pc else Spin.Outside
  }

  /* ---------- the steps ---------- */

  predicate Free(s: System, h: nat)
    requires h < |s.harts|
  {
    OwnedCount(s.locks, h) == 0 && Active(s.harts[h]).failed == 0
  }

  /** `unlock` is for the holder, and a handler has dropped its guards when it returns. */
  predicate Enabled(s: System, h: nat, e: Event) {
    h < |s.harts| &&
    var x := s.harts[h];
    match e
    case StartLock(l, call) => Active(x).pc == Code && l < |s.locks| && call != Spin.CallUnlock
    case StartUnlock(l) =>
      Active(x).pc == Code && l < |s.locks| && h < |s.locks[l].harts| && s.locks[l].harts[h].inside
    case Continue => Active(x).pc != Code
    case Interrupt => x.enabled && x.handler.NoHandler?
    case Return => x.handler.InHandler? && Active(x).pc == Code && Free(s, h)
    case SetEnabled(_) => x.handler.NoHandler? && Active(x).pc == Code && Free(s, h)
  }

  /** A step of hart `h` in the code of lock `l`, or the start of a call into it. */
  function MutexStep(locks: seq<Spin.Lock>, h: nat, l: nat, call: Spin.Call): seq<Spin.Lock> {
    if l < |locks| && Spin.Enabled(locks[l], h, call) then locks[l := Spin.Next(locks[l], h, call)] else locks
  }

  function Put(s: System, h: nat, x: Hart, locks: seq<Spin.Lock>): System
    requires h < |s.harts|
  {
    System(locks, s.harts[h := x])
  }

  /** A push begins; the outermost one remembers the enable flag. */
  function Started(x: Hart, owned: nat, l: nat, call: Spin.Call): Hart {
    var c := Active(x);
    WithActive(x, c.(pc := ReadEnabled(l, call), outer := if owned == 0 && c.failed == 0 then x.enabled else c.outer))
  }

  function Next(s: System, h: nat, e: Event): System
    requires Enabled(s, h, e)
  {
    var x, c := s.harts[h], Active(s.harts[h]);
    match e
    case StartLock(l, call) => Put(s, h, Started(x, OwnedCount(s.locks, h), l, call), s.locks)
    case StartUnlock(l) => Put(s, h, WithActive(x, c.(pc := Releasing(l))), MutexStep(s.locks, h, l, Spin.CallUnlock))
    case Continue => Advance(s, h)
    case Interrupt =>
      // the trap clears the enable flag and keeps its old value for the return
      Put(s, h, x.(enabled := false, handler := InHandler(Context(Code, 0, false))), s.locks)
    case Return => Put(s, h, x.(enabled := true, handler := NoHandler), s.locks)
    case SetEnabled(value) => Put(s, h, x.(enabled := value), s.locks)
  }

  function Advance(s: System, h: nat): System
    requires h < |s.harts|
  {
    var x, c := s.harts[h], Active(s.harts[h]);
    match c.pc
    case Count(l, call) =>
      Put(s, h, WithActive(x, c.(pc := Acquiring(l))).(level := x.level + 1), MutexStep(s.locks, h, l, call))
    case Acquiring(l) =>
      var locks := MutexStep(s.locks, h, l, Spin.CallLock);
      Put(s, h, WithActive(x, AfterAcquiring(c, Seat(s.locks, h, l), Seat(locks, h, l))), locks)
    case Releasing(l) =>
      var locks := MutexStep(s.locks, h, l, Spin.CallLock);
      Put(s, h, WithActive(x, AfterReleasing(c, Seat(locks, h, l))), locks)
    case _ => Put(s, h, Bookkeeping(x), s.locks)
  }

  /** The lock's code hands back to the caller: from `TryExchange` with a refusal. */
  function AfterAcquiring(c: Context, seat: Spin.Pc, seat': Spin.Pc): Context {
    if seat' != Spin.Outside then c
    else if seat == Spin.TryExchange then c.(pc := Code, failed := c.failed + 1)
    else c.(pc := Code)
  }

  function AfterReleasing(c: Context, seat: Spin.Pc): Context {
    if seat == Spin.Outside then c.(pc := Decrease) else c
  }

  /** The steps of push and pop that touch no lock. */
  function Bookkeeping(x: Hart): Hart {
    var c := Active(x);
    match c.pc
    case ReadEnabled(l, call) => WithActive(x, c.(pc := Disable(l, call, x.enabled)))
    case Disable(l, call, were) => WithActive(x, c.(pc := Save(l, call, were))).(enabled := false)
    case Save(l, call, were) =>
      var y := WithActive(x, c.(pc := Count(l, call)));
      if x.level == 0 then y.(saved := were) else y
    case Decrease =>
      WithActive(x, c.(pc := Restore)).(level := if x.level == 0 then 0xFFFF_FFFF_FFFF_FFFF else x.level - 1)
    case Restore =>
      var y := WithActive(x, c.(pc := Code));
      if x.level == 0 && x.saved then y.(enabled := true) else y
    case _ => x
  }

  /* ---------- the invariant ---------- */

  function Failed(x: Hart): nat {
    x.main.failed + if x.handler.InHandler? then x.handler.context.failed else 0
  }

  /** One more than the locks and failed tries between the count of a push and the outcome
      of its exchange, and between the clearing of a flag and the decrement of its pop. */
  function Window(pc: Pc, seat: Spin.Pc): nat {
    if pc == Decrease || (pc.Acquiring? && seat != Spin.StoreHolder && seat != Spin.Outside) then 1 else 0
  }

  /** Where the active context of hart `h` stands in the code of the lock it works on. */
  function Place(s: System, h: nat): Spin.Pc
    requires h < |s.harts|
  {
    match Active(s.harts[h]).pc
    case Acquiring(l) => Seat(s.locks, h, l)
    case Releasing(l) => Seat(s.locks, h, l)
    case _ => Spin.Outside
  }

  predicate ContextFine(x: Hart, c: Context, seat: Spin.Pc) {
    match c.pc
    case Code => true
    case ReadEnabled(_, call) => call != Spin.CallUnlock && (x.level == 0 ==> c.outer == x.enabled)
    case Disable(_, call, were) =>
      call != Spin.CallUnlock && if x.level == 0 then were == c.outer == x.enabled else !were
    case Save(_, call, were) => call != Spin.CallUnlock && !x.enabled && (x.level == 0 ==> were == c.outer)
    case Count(_, call) => call != Spin.CallUnlock && !x.enabled && x.saved == c.outer
    case Acquiring(_) =>
      !x.enabled && x.saved == c.outer &&
      seat != Spin.Outside && seat != Spin.ClearHolder && seat != Spin.ClearFlag
    case Releasing(_) =>
      !x.enabled && x.saved == c.outer && (seat == Spin.ClearHolder || seat == Spin.ClearFlag)
    case _ => !x.enabled && x.saved == c.outer
  }

  /** An interrupted context owns nothing and has not yet turned interrupts off. */
  predicate MayBeInterrupted(c: Context) {
    c.failed == 0 &&
    match c.pc
    case Code => true
    case ReadEnabled(_, call) => c.outer && call != Spin.CallUnlock
    case Disable(_, call, were) => were && c.outer && call != Spin.CallUnlock
    case _ => false
  }

  /** The bookkeeping of a hart that owns `owned` locks. */
  predicate HartFine(x: Hart, owned: nat, seat: Spin.Pc) {
    && x.level == owned + Failed(x) + Window(Active(x).pc, seat)
    && (x.level > 0 ==> !x.enabled && x.saved == Active(x).outer)
    && ContextFine(x, Active(x), seat)
    && (x.handler.InHandler? ==> !x.enabled && !x.handler.context.outer && MayBeInterrupted(x.main))
  }

  /** A hart is in the code of one lock at most: the one that its active context works on. */
  ghost predicate Seated(s: System, h: nat)
    requires h < |s.harts|
  {
    var c := Active(s.harts[h]);
    forall l: nat :: Seat(s.locks, h, l) != Spin.Outside ==> c.pc == Acquiring(l) || c.pc == Releasing(l)
  }

  ghost predicate LocksFine(s: System) {
    forall l :: 0 <= l < |s.locks| ==> Spin.Inv(s.locks[l]) && |s.locks[l].harts| == |s.harts|
  }

  predicate Known(s: System, c: Context) {
    match c.pc
    case ReadEnabled(l, _) => l < |s.locks|
    case Disable(l, _, _) => l < |s.locks|
    case Save(l, _, _) => l < |s.locks|
    case Count(l, _) => l < |s.locks|
    case Acquiring(l) => l < |s.locks|
    case Releasing(l) => l < |s.locks|
    case _ => true
  }

  ghost predicate Inv(s: System) {
    && LocksFine(s)
    && (forall h :: 0 <= h < |s.harts| ==>
          HartFine(s.harts[h], OwnedCount(s.locks, h), Place(s, h)) && Seated(s, h) &&
          Known(s, s.harts[h].main) && Known(s, Active(s.harts[h])))
  }

  /** What a step of hart `h` in the code of lock `l` does to the locks. */
  ghost predicate LockStep(locks: seq<Spin.Lock>, locks': seq<Spin.Lock>, h: nat, l: nat, n: nat)
    requires l < |locks|
  {
    && |locks'| == |locks|
    && (forall j :: 0 <= j < |locks| ==> Spin.Inv(locks'[j]) && |locks'[j].harts| == n)
    && (forall k, j: nat :: k != h || j != l ==> Seat(locks', k, j) == Seat(locks, k, j))
    && (forall k :: k != h ==> OwnedCount(locks', k) == OwnedCount(locks, k))
  }

  lemma MutexStepIs(s: System, h: nat, l: nat, call: Spin.Call)
    requires LocksFine(s) && h < |s.harts| && l < |s.locks|
    ensures LockStep(s.locks, MutexStep(s.locks, h, l, call), h, l, |s.harts|)
  {
    var locks' := MutexStep(s.locks, h, l, call);
    if Spin.Enabled(s.locks[l], h, call) {
      Spin.NextKeepsInv(s.locks[l], h, call);
      Spin.OwnerChanges(s.locks[l], h, call);
      hide Spin.Inv;
      hide Spin.Next;
      hide Spin.Enabled;
      hide Spin.Owns;
      forall k | k != h ensures OwnedCount(locks', k) == OwnedCount(s.locks, k) {
        OwnedUpdate(s.locks, l, locks'[l], k);
      }
    }
  }

  /** The paths through the lock's code. */
  predicate Follows(was: Spin.Pc, now: Spin.Pc, call: Spin.Call) {
    match was
    case Outside =>
      now == (match call case CallLock => Spin.LoadFlag
                         case CallTryLock => Spin.TryExchange
                         case CallUnlock => Spin.ClearHolder)
    case LoadFlag => now == Spin.LoadHolder || now == Spin.Exchange
    case LoadHolder => now == Spin.Panicked || now == Spin.Exchange
    case Exchange => now == Spin.Exchange || now == Spin.StoreHolder
    case TryExchange => now == Spin.Outside || now == Spin.StoreHolder
    case StoreHolder => now == Spin.Outside
    case ClearHolder => now == Spin.ClearFlag
    case ClearFlag => now == Spin.Outside
    case Panicked => now == Spin.Panicked
  }

  /** How the place of `h` in the lock's code and the number of its locks move together. */
  lemma SeatStep(s: System, h: nat, l: nat, call: Spin.Call)
    requires LocksFine(s) && h < |s.harts| && l < |s.locks|
    requires Seat(s.locks, h, l) == Spin.Outside && call == Spin.CallUnlock ==> s.locks[l].harts[h].inside
    ensures var locks' := MutexStep(s.locks, h, l, call);
            var was, now := Seat(s.locks, h, l), Seat(locks', h, l);
            OwnedCount(locks', h) == OwnedCount(s.locks, h)
                                     + (if was != Spin.StoreHolder && now == Spin.StoreHolder then 1 else 0)
                                     - (if was == Spin.ClearFlag then 1 else 0) &&
            Follows(was, now, call)
  {
    var locks' := MutexStep(s.locks, h, l, call);
    if Spin.Enabled(s.locks[l], h, call) {
      Spin.OwnerChanges(s.locks[l], h, call);
      OwnedUpdate(s.locks, l, locks'[l], h);
    }
  }

  /** A step that fits hart `h` and leaves the others alone keeps the invariant. */
  lemma PutKeepsInv(s: System, h: nat, x: Hart, locks: seq<Spin.Lock>, l: nat)
    requires Inv(s) && h < |s.harts|
    requires locks == s.locks || (l < |s.locks| && LockStep(s.locks, locks, h, l, |s.harts|))
    requires HartFine(x, OwnedCount(locks, h), Place(Put(s, h, x, locks), h)) && Seated(Put(s, h, x, locks), h)
    requires Known(s, x.main) && Known(s, Active(x))
    ensures Inv(Put(s, h, x, locks))
  {
    var t := Put(s, h, x, locks);
    forall k | 0 <= k < |t.harts|
      ensures HartFine(t.harts[k], OwnedCount(t.locks, k), Place(t, k)) && Seated(t, k) &&
              Known(t, t.harts[k].main) && Known(t, Active(t.harts[k]))
    {
      if k != h {
        assert HartFine(s.harts[k], OwnedCount(s.locks, k), Place(s, k)) && Seated(s, k);
      }
    }
  }

  /** A step of hart `h` that touches no lock. */
  lemma LocalKeepsInv(s: System, h: nat, x: Hart)
    requires Inv(s) && h < |s.harts|
    requires UsesNoLock(Active(s.harts[h]).pc) && UsesNoLock(Active(x).pc)
    requires HartFine(s.harts[h], OwnedCount(s.locks, h), Spin.Outside) ==>
               HartFine(x, OwnedCount(s.locks, h), Spin.Outside)
    requires Known(s, x.main) && Known(s, Active(x))
    ensures Inv(Put(s, h, x, s.locks))
  {
    hide HartFine;
    hide Known;
    hide LocksFine;
    var t := Put(s, h, x, s.locks);
    assert Seated(s, h) && HartFine(s.harts[h], OwnedCount(s.locks, h), Place(s, h));
    assert Seated(t, h);
    PutKeepsInv(s, h, x, s.locks, 0);
  }

  predicate UsesNoLock(pc: Pc) {
    !pc.Acquiring? && !pc.Releasing?
  }

  /** A step of hart `h` in the code of lock `l`. */
  lemma LockStepKeepsInv(s: System, h: nat, x: Hart, l: nat, call: Spin.Call)
    requires Inv(s) && h < |s.harts| && l < |s.locks|
    requires Active(x).pc == Acquiring(l) || Active(x).pc == Releasing(l) || UsesNoLock(Active(x).pc)
    requires var pc := Active(s.harts[h]).pc; UsesNoLock(pc) || pc == Acquiring(l) || pc == Releasing(l)
    requires var locks := MutexStep(s.locks, h, l, call);
             HartFine(x, OwnedCount(locks, h), if UsesNoLock(Active(x).pc) then Spin.Outside else Seat(locks, h, l)) &&
             (UsesNoLock(Active(x).pc) ==> Seat(locks, h, l) == Spin.Outside)
    requires Known(s, x.main) && Known(s, Active(x))
    ensures Inv(Put(s, h, x, MutexStep(s.locks, h, l, call)))
  {
    hide HartFine;
    hide Known;
    hide MutexStep;
    hide Seat;
    hide OwnedCount;
    var t := Put(s, h, x, MutexStep(s.locks, h, l, call));
    MutexStepIs(s, h, l, call);
    hide LocksFine;
    assert Seated(s, h);
    assert Seated(t, h);
    PutKeepsInv(s, h, x, t.locks, l);
  }

  /* The single steps of a hart. */

  /** What a step of the active context to `c` leaves of the rest. */
  lemma ActiveIs(x: Hart, c: Context, y: Hart)
    requires y.main == WithActive(x, c).main && y.handler == WithActive(x, c).handler
    ensures Active(y) == c && Failed(y) == Failed(x) - Active(x).failed + c.failed
    ensures y.handler.InHandler? == x.handler.InHandler?
    ensures x.handler.InHandler? ==> y.main == x.main && y.handler.context == c && x.handler.context == Active(x)
    ensures var z := WithActive(x, c); z.enabled == x.enabled && z.level == x.level && z.saved == x.saved
  {}

  /** A step of the active context keeps the bookkeeping when it keeps the equation and
      fits the context's new place. */
  lemma ContextMoves(x: Hart, c: Context, y: Hart, owned: nat, seat: Spin.Pc)
    requires x.handler.InHandler? ==> MayBeInterrupted(x.main) && !y.enabled && !c.outer
    requires y.main == WithActive(x, c).main && y.handler == WithActive(x, c).handler
    requires y.level == owned + Failed(x) - Active(x).failed + c.failed + Window(c.pc, seat)
    requires y.level > 0 ==> !y.enabled && y.saved == c.outer
    requires ContextFine(y, c, seat)
    ensures HartFine(y, owned, seat)
  {
    hide ContextFine;
    hide MayBeInterrupted;
    hide Window;
    hide Active;
    hide WithActive;
    hide Failed;
    ActiveIs(x, c, y);
  }

  lemma BookkeepingIsFine(x: Hart, owned: nat)
    requires HartFine(x, owned, Spin.Outside) && UsesNoLock(Active(x).pc)
    requires !Active(x).pc.Code? && !Active(x).pc.Count?
    ensures HartFine(Bookkeeping(x), owned, Spin.Outside) && UsesNoLock(Active(Bookkeeping(x)).pc)
  {
    hide Active;
    hide WithActive;
    hide Failed;
    hide MayBeInterrupted;
    var c, y := Active(x), Bookkeeping(x);
    var c' := c.(pc := match c.pc case ReadEnabled(l, call) => Disable(l, call, x.enabled)
                                  case Disable(l, call, were) => Save(l, call, were)
                                  case Save(l, call, _) => Count(l, call)
                                  case Decrease => Restore
                                  case _ => Code);
    ActiveIs(x, c', y);
    HandlerIsActive(x);
    ContextMoves(x, c', y, owned, Spin.Outside);
  }

  lemma HandlerIsActive(x: Hart)
    ensures x.handler.InHandler? ==> Active(x) == x.handler.context
  {}

  lemma CountIsFine(x: Hart, owned: nat, l: nat, call: Spin.Call, seat: Spin.Pc)
    requires HartFine(x, owned, Spin.Outside) && Active(x).pc == Count(l, call) && Follows(Spin.Outside, seat, call)
    ensures HartFine(WithActive(x, Active(x).(pc := Acquiring(l))).(level := x.level + 1), owned, seat)
  {
    hide Active;
    hide WithActive;
    hide Failed;
    hide MayBeInterrupted;
    var c := Active(x).(pc := Acquiring(l));
    var y := WithActive(x, c).(level := x.level + 1);
    ActiveIs(x, c, y);
    HandlerIsActive(x);
    ContextMoves(x, c, y, owned, seat);
  }

  lemma AcquiringIsFine(x: Hart, owned: nat, owned': nat, seat: Spin.Pc, seat': Spin.Pc)
    requires HartFine(x, owned, seat) && Active(x).pc.Acquiring? && Follows(seat, seat', Spin.CallLock)
    requires owned' == owned + if seat != Spin.StoreHolder && seat' == Spin.StoreHolder then 1 else 0
    ensures HartFine(WithActive(x, AfterAcquiring(Active(x), seat, seat')), owned', seat')
  {
    hide Active;
    hide WithActive;
    hide Failed;
    hide MayBeInterrupted;
    var c := AfterAcquiring(Active(x), seat, seat');
    ActiveIs(x, c, WithActive(x, c));
    HandlerIsActive(x);
    ContextMoves(x, c, WithActive(x, c), owned', seat');
  }

  lemma UnlockIsFine(x: Hart, owned: nat, l: nat)
    requires HartFine(x, owned, Spin.Outside) && Active(x).pc == Code && owned > 0
    ensures HartFine(WithActive(x, Active(x).(pc := Releasing(l))), owned, Spin.ClearHolder)
  {
    hide Active;
    hide WithActive;
    hide Failed;
    hide MayBeInterrupted;
    var c := Active(x).(pc := Releasing(l));
    ActiveIs(x, c, WithActive(x, c));
    HandlerIsActive(x);
    ContextMoves(x, c, WithActive(x, c), owned, Spin.ClearHolder);
  }

  lemma ReleasingIsFine(x: Hart, owned: nat, owned': nat, seat: Spin.Pc, seat': Spin.Pc)
    requires HartFine(x, owned, seat) && Active(x).pc.Releasing? && Follows(seat, seat', Spin.CallLock)
    requires owned' == owned - if seat == Spin.ClearFlag then 1 else 0
    ensures HartFine(WithActive(x, AfterReleasing(Active(x), seat')), owned', seat')
  {
    hide Active;
    hide WithActive;
    hide Failed;
    hide MayBeInterrupted;
    var c := AfterReleasing(Active(x), seat');
    ActiveIs(x, c, WithActive(x, c));
    HandlerIsActive(x);
    ContextMoves(x, c, WithActive(x, c), owned', seat');
  }

  lemma StartIsFine(x: Hart, owned: nat, l: nat, call: Spin.Call)
    requires HartFine(x, owned, Spin.Outside) && Active(x).pc == Code && call != Spin.CallUnlock
    ensures HartFine(Started(x, owned, l, call), owned, Spin.Outside)
  {
    hide Active;
    hide WithActive;
    hide Failed;
    hide MayBeInterrupted;
    FailedInMain(x);
    HandlerIsActive(x);
    var c := Active(x);
    assert x.level == 0 <==> owned == 0 && c.failed == 0;
    var c' := c.(pc := ReadEnabled(l, call), outer := if x.level == 0 then x.enabled else c.outer);
    ActiveIs(x, c', WithActive(x, c'));
    ContextMoves(x, c', WithActive(x, c'), owned, Spin.Outside);
  }

  /** Code that was interrupted has no failed try. */
  lemma FailedInMain(x: Hart)
    requires x.handler.InHandler? ==> MayBeInterrupted(x.main)
    ensures Failed(x) == Active(x).failed
  {}

  /** Interrupts are on only while the hart owns nothing and is in no lock's code. */
  lemma EnabledMeansFree(x: Hart, owned: nat, seat: Spin.Pc)
    requires HartFine(x, owned, seat) && x.enabled
    ensures UsesNoLock(Active(x).pc) && owned == 0 && x.level == 0
    ensures x.handler.NoHandler? && MayBeInterrupted(x.main)
  {}

  lemma InterruptIsFine(x: Hart)
    requires x.level == 0 && MayBeInterrupted(x.main)
    ensures HartFine(x.(enabled := false, handler := InHandler(Context(Code, 0, false))), 0, Spin.Outside)
  {}

  lemma ReturnIsFine(x: Hart)
    requires HartFine(x, 0, Spin.Outside) && x.handler.InHandler? && Active(x).pc == Code && Active(x).failed == 0
    ensures HartFine(x.(enabled := true, handler := NoHandler), 0, Spin.Outside) && UsesNoLock(x.main.pc)
  {}

  lemma SetIsFine(x: Hart, value: bool)
    requires HartFine(x, 0, Spin.Outside) && x.handler.NoHandler? && Active(x).pc == Code && Active(x).failed == 0
    ensures HartFine(x.(enabled := value), 0, Spin.Outside)
  {}

  /* All steps. */

  lemma FineHart(s: System, h: nat)
    requires Inv(s) && h < |s.harts|
    ensures LocksFine(s) && HartFine(s.harts[h], OwnedCount(s.locks, h), Place(s, h)) && Seated(s, h)
    ensures Known(s, s.harts[h].main) && Known(s, Active(s.harts[h]))
  {}

  lemma NextKeepsInv(s: System, h: nat, e: Event)
    requires Inv(s) && Enabled(s, h, e)
    ensures Inv(Next(s, h, e))
  {
    hide Inv;
    hide Advance;
    FineHart(s, h);
    match e
    case StartUnlock(l) => UnlockKeepsInv(s, h, l);
    case Continue => AdvanceKeepsInv(s, h);
    case _ => PlainKeepsInv(s, h, e);
  }

  lemma PlainKeepsInv(s: System, h: nat, e: Event)
    requires Inv(s) && Enabled(s, h, e) && !e.Continue? && !e.StartUnlock?
    ensures Inv(Next(s, h, e))
  {
    hide Inv;
    hide HartFine;
    hide OwnedCount;
    hide Seated;
    hide LocksFine;
    FineHart(s, h);
    var x, owned := s.harts[h], OwnedCount(s.locks, h);
    match e {
      case StartLock(l, call) => StartIsFine(x, owned, l, call);
      case Interrupt =>
        EnabledMeansFree(x, owned, Place(s, h));
        InterruptIsFine(x);
      case Return => ReturnIsFine(x);
      case SetEnabled(value) => SetIsFine(x, value);
    }
    LocalKeepsInv(s, h, Next(s, h, e).harts[h]);
  }

  lemma UnlockKeepsInv(s: System, h: nat, l: nat)
    requires Inv(s) && Enabled(s, h, StartUnlock(l))
    ensures Inv(Next(s, h, StartUnlock(l)))
  {
    hide Inv;
    hide HartFine;
    hide OwnedCount;
    hide MutexStep;
    FineHart(s, h);
    OwnedUpdate(s.locks, l, s.locks[l], h);
    InsideIsOutside(s, h, l);
    SeatStep(s, h, l, Spin.CallUnlock);
    UnlockIsFine(s.harts[h], OwnedCount(s.locks, h), l);
    LockStepKeepsInv(s, h, Next(s, h, StartUnlock(l)).harts[h], l, Spin.CallUnlock);
  }

  lemma InsideIsOutside(s: System, h: nat, l: nat)
    requires h < |s.harts| && Seated(s, h) && UsesNoLock(Active(s.harts[h]).pc)
    ensures Seat(s.locks, h, l) == Spin.Outside
    ensures l < |s.locks| && h < |s.locks[l].harts| && s.locks[l].harts[h].inside ==> OwnedBy(s.locks[l], h)
  {}

  lemma AdvanceKeepsInv(s: System, h: nat)
    requires Inv(s) && h < |s.harts| && Active(s.harts[h]).pc != Code
    ensures Inv(Advance(s, h))
  {
    hide Inv;
    hide HartFine;
    hide OwnedCount;
    hide MutexStep;
    hide Seat;
    hide Follows;
    hide LocksFine;
    var x, owned := s.harts[h], OwnedCount(s.locks, h);
    FineHart(s, h);
    match Active(x).pc
    case Count(l, call) =>
      InsideIsOutside(s, h, l);
      CountHasNoUnlock(x, owned);
      SeatStep(s, h, l, call);
      CountIsFine(x, owned, l, call, Seat(MutexStep(s.locks, h, l, call), h, l));
      LockStepKeepsInv(s, h, Advance(s, h).harts[h], l, call);
    case Acquiring(l) => AcquireKeepsInv(s, h, l);
    case Releasing(l) => ReleaseKeepsInv(s, h, l);
    case _ =>
      BookkeepingIsFine(x, owned);
      LocalKeepsInv(s, h, Bookkeeping(x));
  }

  lemma AcquireKeepsInv(s: System, h: nat, l: nat)
    requires Inv(s) && h < |s.harts| && Active(s.harts[h]).pc == Acquiring(l)
    ensures Inv(Advance(s, h))
  {
    hide Inv;
    hide HartFine;
    hide OwnedCount;
    hide MutexStep;
    hide Seat;
    hide Follows;
    hide LocksFine;
    hide AfterAcquiring;
    FineHart(s, h);
    var x, owned, locks := s.harts[h], OwnedCount(s.locks, h), MutexStep(s.locks, h, l, Spin.CallLock);
    var was, now := Seat(s.locks, h, l), Seat(locks, h, l);
    NotOutside(x, owned, was);
    SeatStep(s, h, l, Spin.CallLock);
    AcquiringIsFine(x, owned, OwnedCount(locks, h), was, now);
    AfterLock(Active(x), l, was, now);
    LockStepKeepsInv(s, h, WithActive(x, AfterAcquiring(Active(x), was, now)), l, Spin.CallLock);
  }

  lemma ReleaseKeepsInv(s: System, h: nat, l: nat)
    requires Inv(s) && h < |s.harts| && Active(s.harts[h]).pc == Releasing(l)
    ensures Inv(Advance(s, h))
  {
    hide Inv;
    hide HartFine;
    hide OwnedCount;
    hide MutexStep;
    hide Seat;
    hide Follows;
    hide LocksFine;
    FineHart(s, h);
    var x, owned, locks := s.harts[h], OwnedCount(s.locks, h), MutexStep(s.locks, h, l, Spin.CallLock);
    var was, now := Seat(s.locks, h, l), Seat(locks, h, l);
    NotOutside(x, owned, was);
    SeatStep(s, h, l, Spin.CallLock);
    ReleasingIsFine(x, owned, OwnedCount(locks, h), was, now);
    LockStepKeepsInv(s, h, Advance(s, h).harts[h], l, Spin.CallLock);
  }

  lemma CountHasNoUnlock(x: Hart, owned: nat)
    requires HartFine(x, owned, Spin.Outside) && Active(x).pc.Count?
    ensures Active(x).pc.call != Spin.CallUnlock
  {}

  lemma NotOutside(x: Hart, owned: nat, seat: Spin.Pc)
    requires HartFine(x, owned, seat) && !UsesNoLock(Active(x).pc)
    ensures seat != Spin.Outside
    ensures if Active(x).pc.Acquiring? then seat != Spin.ClearFlag
            else forall seat' :: Follows(seat, seat', Spin.CallLock) ==> seat' != Spin.StoreHolder
  {}

  lemma AfterLock(c: Context, l: nat, seat: Spin.Pc, seat': Spin.Pc)
    requires c.pc == Acquiring(l)
    ensures var c' := AfterAcquiring(c, seat, seat');
            if seat' == Spin.Outside then c'.pc == Code else c' == c
  {}

  /* ---------- runs ---------- */

  type Schedule = seq<(nat, Event)>

  ghost predicate LegalRun(s: System, steps: Schedule)
    decreases |steps|
  {
    steps == [] || (Enabled(s, steps[0].0, steps[0].1) && LegalRun(Next(s, steps[0].0, steps[0].1), steps[1..]))
  }

  ghost function Run(s: System, steps: Schedule): System
    requires LegalRun(s, steps)
    decreases |steps|
  {
    if steps == [] then s else Run(Next(s, steps[0].0, steps[0].1), steps[1..])
  }

  lemma {:induction false} RunKeepsInv(s: System, steps: Schedule)
    requires Inv(s) && LegalRun(s, steps)
    ensures Inv(Run(s, steps)) && |Run(s, steps).harts| == |s.harts| && |Run(s, steps).locks| == |s.locks|
    decreases |steps|
  {
    hide Inv;
    if steps != [] {
      NextKeepsInv(s, steps[0].0, steps[0].1);
      RunKeepsInv(Next(s, steps[0].0, steps[0].1), steps[1..]);
    }
  }

  /** `n` free locks, and one hart for each enable flag. */
  function Start(n: nat, enabled: seq<bool>): System {
    System(seq(n, _ => Spin.Unlocked(|enabled|)),
           seq(|enabled|, h requires 0 <= h < |enabled| => Idle(enabled[h])))
  }

  function Idle(enabled: bool): Hart {
    Hart(enabled, 0, false, Context(Code, 0, enabled), NoHandler)
  }

  lemma {:induction false} OwnsNothing(locks: seq<Spin.Lock>, h: nat)
    requires forall l :: 0 <= l < |locks| ==> !OwnedBy(locks[l], h)
    ensures OwnedCount(locks, h) == 0
  {
    if locks != [] { OwnsNothing(locks[1..], h); }
  }

  lemma StartIsSound(n: nat, enabled: seq<bool>)
    ensures Inv(Start(n, enabled))
  {
    hide HartFine;
    hide Spin.Inv;
    var s := Start(n, enabled);
    Spin.UnlockedIsFine(|enabled|);
    forall h | 0 <= h < |s.harts|
      ensures HartFine(s.harts[h], OwnedCount(s.locks, h), Place(s, h)) && Active(s.harts[h]).pc == Code
    {
      OwnsNothing(s.locks, h);
      StartHartIsFine(enabled[h]);
    }
  }

  lemma StartHartIsFine(enabled: bool)
    ensures HartFine(Idle(enabled), 0, Spin.Outside)
  {}

  /** In every reachable state the level of each hart is the number of locks that it owns,
      by the state of those locks, plus its failed tries, give or take the one that is
      being decided. Interrupts are off while it is positive, the decrement never wraps,
      and between calls the owned locks are those that name the hart as their holder. */
  lemma LevelCountsLocks(n: nat, enabled: seq<bool>, steps: Schedule, h: nat)
    requires LegalRun(Start(n, enabled), steps) && h < |enabled|
    ensures var s := Run(Start(n, enabled), steps);
            |s.harts| == |enabled| && |s.locks| == n &&
            var x := s.harts[h];
            x.level == OwnedCount(s.locks, h) + Failed(x) + Window(Active(x).pc, Place(s, h)) &&
            (x.level > 0 ==> !x.enabled) &&
            (Active(x).pc == Decrease ==> x.level > 0) &&
            (Active(x).pc == Code ==>
               forall l :: 0 <= l < n ==> (OwnedBy(s.locks[l], h) <==> s.locks[l].holdingHart == h + 1))
  {
    hide Run;
    hide LegalRun;
    hide Inv;
    StartIsSound(n, enabled);
    RunKeepsInv(Start(n, enabled), steps);
    LevelCounts(Run(Start(n, enabled), steps), h);
  }

  lemma LevelCounts(s: System, h: nat)
    requires Inv(s) && h < |s.harts|
    ensures var x := s.harts[h];
            x.level == OwnedCount(s.locks, h) + Failed(x) + Window(Active(x).pc, Place(s, h)) &&
            (x.level > 0 ==> !x.enabled) && (Active(x).pc == Decrease ==> x.level > 0)
    ensures Active(s.harts[h]).pc == Code ==>
              forall l :: 0 <= l < |s.locks| ==> (OwnedBy(s.locks[l], h) <==> s.locks[l].holdingHart == h + 1)
  {
    hide OwnedCount;
    if Active(s.harts[h]).pc == Code {
      forall l | 0 <= l < |s.locks| ensures OwnedBy(s.locks[l], h) <==> s.locks[l].holdingHart == h + 1 {
        InsideIsOutside(s, h, l);
      }
    }
  }

  /** What the bookkeeping is for: an interrupt never finds its hart owning a lock or on
      the way to one, so no handler waits for a lock of the code that it interrupted. */
  lemma InterruptsMeetNoLock(n: nat, enabled: seq<bool>, steps: Schedule, h: nat)
    requires LegalRun(Start(n, enabled), steps)
    requires Enabled(Run(Start(n, enabled), steps), h, Interrupt)
    ensures var s := Run(Start(n, enabled), steps);
            s.harts[h].level == 0 &&
            forall l :: 0 <= l < |s.locks| ==> Seat(s.locks, h, l) == Spin.Outside && !OwnedBy(s.locks[l], h)
  {
    hide Run;
    hide LegalRun;
    hide Inv;
    StartIsSound(n, enabled);
    RunKeepsInv(Start(n, enabled), steps);
    FreeWhenEnabled(Run(Start(n, enabled), steps), h);
  }

  lemma FreeWhenEnabled(s: System, h: nat)
    requires Inv(s) && Enabled(s, h, Interrupt)
    ensures s.harts[h].level == 0
    ensures forall l :: 0 <= l < |s.locks| ==> Seat(s.locks, h, l) == Spin.Outside && !OwnedBy(s.locks[l], h)
  {
    hide Inv;
    hide HartFine;
    hide OwnedCount;
    hide LocksFine;
    FineHart(s, h);
    EnabledMeansFree(s.harts[h], OwnedCount(s.locks, h), Place(s, h));
    forall l | 0 <= l < |s.locks| ensures Seat(s.locks, h, l) == Spin.Outside && !OwnedBy(s.locks[l], h) {
      InsideIsOutside(s, h, l);
      OwnedUpdate(s.locks, l, s.locks[l], h);
    }
  }

  /** When the last lock is released, interrupts are what they were when the outermost
      push began, whatever handlers ran in between. */
  lemma OutermostPopRestores(n: nat, enabled: seq<bool>, steps: Schedule, h: nat)
    requires LegalRun(Start(n, enabled), steps) && h < |enabled|
    requires var s := Run(Start(n, enabled), steps);
             |s.harts| == |enabled| && Active(s.harts[h]).pc == Restore && s.harts[h].level == 0
    ensures var s := Run(Start(n, enabled), steps);
            Enabled(s, h, Continue) &&
            var x := Next(s, h, Continue).harts[h];
            Active(x).pc == Code && x.enabled == Active(s.harts[h]).outer
  {
    hide Run;
    hide LegalRun;
    hide Inv;
    hide OwnedCount;
    StartIsSound(n, enabled);
    RunKeepsInv(Start(n, enabled), steps);
    FineHart(Run(Start(n, enabled), steps), h);
  }

  /** The value remembered for the outermost push stays what it was until the hart is free
      again, in the code's own steps, across handlers, and whatever other harts do. */
  lemma OuterIsRemembered(s: System, h: nat, e: Event)
    requires Inv(s) && Enabled(s, h, e)
    ensures var x, y := s.harts[h], Next(s, h, e).harts[h];
            if e.StartLock? && x.handler.NoHandler? && Free(s, h) then y.main.outer == x.enabled
            else y.main.outer == x.main.outer
    ensures forall k :: 0 <= k < |s.harts| && k != h ==> Next(s, h, e).harts[k] == s.harts[k]
    ensures e.SetEnabled? ==> Next(s, h, e).harts[h] == s.harts[h].(enabled := e.value)
  {
    hide Inv;
    hide OwnedCount;
    hide MutexStep;
  }

  /** Until its handler returns, the interrupted context of hart `h` does not move. */
  lemma MainStands(s: System, k: nat, e: Event, h: nat)
    requires Enabled(s, k, e) && h < |s.harts| && s.harts[h].handler.InHandler? && (k, e) != (h, Return)
    ensures var t := Next(s, k, e);
            |t.harts| == |s.harts| && t.harts[h].handler.InHandler? && t.harts[h].main == s.harts[h].main
  {
    hide OwnedCount;
    hide MutexStep;
    hide Seat;
  }

  /** Hart `h` may return from its handler in `u`, and is then as it was, owning nothing. */
  ghost predicate NoTrace(u: System, h: nat, was: Hart) {
    && Enabled(u, h, Return)
    && var t := Next(u, h, Return);
       OwnedCount(t.locks, h) == 0 && t.harts[h] == was.(saved := t.harts[h].saved)
  }

  lemma ReturnsAsBefore(s: System, h: nat, was: Hart)
    requires Inv(s) && Enabled(s, h, Return)
    requires was.enabled && was.level == 0 && was.handler.NoHandler? && s.harts[h].main == was.main
    ensures NoTrace(s, h, was)
  {
    hide Inv;
    hide OwnedCount;
    hide LocksFine;
    LevelCounts(s, h);
    FineHart(s, h);
  }

  /** A handler leaves no trace: until it returns the interrupted context does not move,
      and after the return level and enable flag are as before and the hart owns nothing. */
  lemma {:induction false} HandlerLeavesNoTrace(s: System, steps: Schedule, h: nat, was: Hart, u: System)
    requires Inv(s) && LegalRun(s, steps) && u == Run(s, steps)
    requires h < |s.harts| && s.harts[h].handler.InHandler?
    requires was.enabled && was.level == 0 && was.handler.NoHandler? && s.harts[h].main == was.main
    requires forall i :: 0 <= i < |steps| ==> steps[i] != (h, Return)
    requires Enabled(u, h, Return)
    ensures NoTrace(u, h, was)
    decreases |steps|
  {
    hide Inv;
    hide Next;
    hide Enabled;
    hide NoTrace;
    if steps == [] {
      ReturnsAsBefore(s, h, was);
    } else {
      var (k, e) := steps[0];
      NextKeepsInv(s, k, e);
      MainStands(s, k, e, h);
      HandlerLeavesNoTrace(Next(s, k, e), steps[1..], h, was, u);
    }
  }

  /** A failed `try_lock` is never undone: from then on interrupts stay off for good. */
  lemma {:induction false} FailedTryLockSticks(s: System, steps: Schedule, h: nat)
    requires Inv(s) && LegalRun(s, steps) && h < |s.harts| && s.harts[h].main.failed > 0
    ensures var t := Run(s, steps);
            h < |t.harts| && t.harts[h].main.failed > 0 && t.harts[h].level > 0 && !t.harts[h].enabled
    decreases |steps|
  {
    hide Inv;
    hide OwnedCount;
    hide MutexStep;
    LevelCounts(s, h);
    if steps != [] {
      NextKeepsInv(s, steps[0].0, steps[0].1);
      FailedTryLockSticks(Next(s, steps[0].0, steps[0].1), steps[1..], h);
    }
  }
}
