/** What a call of the spin lock achieves, from the start of its push to the end of the
    call, with interrupt handlers and the steps of all other harts in between. */
module LockCalls {
  import Spin = SpinMutex
  import opened InterruptNesting

  /** The locks that hart `h` owns. */
  ghost function Mine(locks: seq<Spin.Lock>, h: nat): set<nat> {
    set l: nat | l < |locks| && OwnedBy(locks[l], h)
  }

  /** The context that made the call: the handler's or the interrupted code's. */
  function Caller(x: Hart, inHandler: bool): Context {
    if inHandler && x.handler.InHandler? then x.handler.context else x.main
  }

  predicate Interrupted(x: Hart, inHandler: bool) { !inHandler && x.handler.InHandler? }

  /** The caller is back in its code at the end of the run and not before. */
  ghost predicate FirstReturn(s: System, steps: Schedule, h: nat, inHandler: bool)
    requires LegalRun(s, steps) && h < |s.harts|
    decreases |steps|
  {
    if steps == [] then Caller(s.harts[h], inHandler).pc == Code
    else
      var t := Next(s, steps[0].0, steps[0].1);
      Caller(s.harts[h], inHandler).pc != Code && h < |t.harts| && FirstReturn(t, steps[1..], h, inHandler)
  }

  /** A call on lock `l` by a context that had `failed` tries, on a hart that owned `had`. */
  datatype LockCall = LockCall(l: nat, call: Spin.Call, had: set<nat>, failed: nat)

  /** A call to lock or try_lock has its place in the lock's code. */
  predicate SeatFits(call: Spin.Call, seat: Spin.Pc) {
    match call
    case CallLock =>
      seat == Spin.LoadFlag || seat == Spin.LoadHolder || seat == Spin.Exchange || seat == Spin.StoreHolder ||
      seat == Spin.Panicked
    case CallTryLock => seat == Spin.TryExchange || seat == Spin.StoreHolder
    case CallUnlock => false
  }

  /** How far the call is, by the caller's context, the place of the hart in the code of
      lock `l`, and the locks it owns now. */
  ghost predicate Stage(k: LockCall, c: Context, seat: Spin.Pc, mine: set<nat>) {
    match c.pc
    case Code => c.failed == k.failed + Lost(k, mine) && Achieved(k, mine)
    case Acquiring(l) =>
      l == k.l && SeatFits(k.call, seat) && c.failed == k.failed &&
      if seat == Spin.StoreHolder then l !in k.had && mine == k.had + {l} else mine == k.had
    case Releasing(l) => l == k.l && k.call == Spin.CallUnlock && c.failed == k.failed && mine == k.had && l in mine
    case Decrease => k.call == Spin.CallUnlock && c.failed == k.failed && Achieved(k, mine)
    case Restore => k.call == Spin.CallUnlock && c.failed == k.failed && Achieved(k, mine)
    case _ => Pushing(k, c.pc) && c.failed == k.failed && mine == k.had
  }

  predicate Pushing(k: LockCall, pc: Pc) {
    k.call != Spin.CallUnlock &&
    match pc
    case ReadEnabled(l, call) => l == k.l && call == k.call
    case Disable(l, call, _) => l == k.l && call == k.call
    case Save(l, call, _) => l == k.l && call == k.call
    case Count(l, call) => l == k.l && call == k.call
    case _ => false
  }

  /** A try that took nothing has failed. */
  ghost function Lost(k: LockCall, mine: set<nat>): nat {
    if k.call == Spin.CallTryLock && mine == k.had then 1 else 0
  }

  ghost predicate Achieved(k: LockCall, mine: set<nat>) {
    match k.call
    case CallLock => k.l !in k.had && mine == k.had + {k.l}
    case CallTryLock => (k.l !in k.had && mine == k.had + {k.l}) || mine == k.had
    case CallUnlock => k.l in k.had && mine == k.had - {k.l}
  }

  /** The state of the call. A caller is interrupted only in its push, and then its hart
      owned nothing. */
  ghost predicate Underway(k: LockCall, s: System, h: nat, inHandler: bool)
    requires h < |s.harts|
  {
    var x := s.harts[h];
    if Interrupted(x, inHandler) then k.had == {} && x.main.failed == k.failed && Pushing(k, x.main.pc)
    else x.handler.InHandler? == inHandler && Stage(k, Active(x), Seat(s.locks, h, k.l), Mine(s.locks, h))
  }

  /* ---------- the steps ---------- */

  /** Which locks a hart's step in the code of lock `l` makes its own. */
  lemma MineStep(s: System, h: nat, l: nat, call: Spin.Call)
    requires LocksFine(s) && h < |s.harts| && l < |s.locks|
    requires Seat(s.locks, h, l) == Spin.Outside && call == Spin.CallUnlock ==> s.locks[l].harts[h].inside
    ensures var locks' := MutexStep(s.locks, h, l, call);
            var was, now, mine := Seat(s.locks, h, l), Seat(locks', h, l), Mine(s.locks, h);
            Follows(was, now, call) &&
            Mine(locks', h) == (if was == Spin.ClearFlag then mine - {l}
                                else if was != Spin.StoreHolder && now == Spin.StoreHolder then mine + {l}
                                else mine) &&
            (was != Spin.StoreHolder && now == Spin.StoreHolder ==> l !in mine)
  {
    SeatStep(s, h, l, call);
    hide OwnedCount;
    var locks' := MutexStep(s.locks, h, l, call);
    if Spin.Enabled(s.locks[l], h, call) {
      Spin.OwnerChanges(s.locks[l], h, call);
    }
  }

  lemma MutexStepApart(s: System, k: nat, l: nat, call: Spin.Call, h: nat)
    requires LocksFine(s) && k < |s.harts| && l < |s.locks| && k != h
    ensures var locks' := MutexStep(s.locks, k, l, call);
            Mine(locks', h) == Mine(s.locks, h) && forall j :: Seat(locks', h, j) == Seat(s.locks, h, j)
  {
    var locks' := MutexStep(s.locks, k, l, call);
    if Spin.Enabled(s.locks[l], k, call) {
      Spin.OwnerChanges(s.locks[l], k, call);
      hide Spin.Inv;
      hide Spin.Next;
      hide Spin.Owns;
    }
  }

  /** The one lock that a step can touch, and the call it makes there. */
  function Touched(e: Event, pc: Pc): (nat, Spin.Call) {
    match e
    case StartUnlock(l) => (l, Spin.CallUnlock)
    case Continue => TouchedAt(pc)
    case _ => (0, Spin.CallLock)
  }

  function TouchedAt(pc: Pc): (nat, Spin.Call) {
    match pc
    case Count(l, call) => (l, call)
    case Acquiring(l) => (l, Spin.CallLock)
    case Releasing(l) => (l, Spin.CallLock)
    case _ => (0, Spin.CallLock)
  }

  lemma OneLockTouched(s: System, k: nat, e: Event)
    requires Inv(s) && Enabled(s, k, e)
    ensures var (l, call) := Touched(e, Active(s.harts[k]).pc);
            Next(s, k, e).locks == s.locks ||
            (l < |s.locks| && Next(s, k, e).locks == MutexStep(s.locks, k, l, call))
  {
    hide Inv;
    hide OwnedCount;
    hide MutexStep;
    hide HartFine;
    hide LocksFine;
    hide Seat;
    FineHart(s, k);
  }

  /** A step of another hart. */
  lemma OthersStep(s: System, k: nat, e: Event, h: nat)
    requires Inv(s) && Enabled(s, k, e) && h < |s.harts| && k != h
    ensures var t := Next(s, k, e);
            |t.harts| == |s.harts| && t.harts[h] == s.harts[h] && Mine(t.locks, h) == Mine(s.locks, h) &&
            forall l :: Seat(t.locks, h, l) == Seat(s.locks, h, l)
  {
    hide OwnedCount;
    hide MutexStep;
    hide Mine;
    hide Seat;
    hide HartFine;
    OuterIsRemembered(s, k, e);
    OneLockTouched(s, k, e);
    var (l, call) := Touched(e, Active(s.harts[k]).pc);
    if Next(s, k, e).locks != s.locks { MutexStepApart(s, k, l, call, h); }
    SizesStay(s, k, e);
    hide Next;
    hide Enabled;
  }

  lemma SizesStay(s: System, k: nat, e: Event)
    requires Enabled(s, k, e)
    ensures |Next(s, k, e).harts| == |s.harts|
  {
    hide OwnedCount;
    hide MutexStep;
    hide Seat;
  }

  /* ---------- the caller's own steps ---------- */

  lemma OwnsNothingFree(s: System, h: nat)
    requires OwnedCount(s.locks, h) == 0
    ensures Mine(s.locks, h) == {}
  {
    forall l: nat | l < |s.locks| ensures !OwnedBy(s.locks[l], h) {
      OwnedUpdate(s.locks, l, s.locks[l], h);
    }
  }

  /** A lock call begins. */
  lemma CallBegins(s: System, h: nat, e: Event, k: LockCall, inHandler: bool)
    requires Inv(s) && Enabled(s, h, e) && inHandler == s.harts[h].handler.InHandler?
    requires k.had == Mine(s.locks, h) && k.failed == Active(s.harts[h]).failed
    requires e == (if k.call == Spin.CallUnlock then StartUnlock(k.l) else StartLock(k.l, k.call))
    ensures var t := Next(s, h, e);
            |t.harts| == |s.harts| && Underway(k, t, h, inHandler) && Caller(t.harts[h], inHandler).pc != Code
  {
    hide Inv;
    hide OwnedCount;
    hide MutexStep;
    hide Mine;
    hide Seat;
    hide HartFine;
    hide LocksFine;
    FineHart(s, h);
    if k.call == Spin.CallUnlock {
      InsideIsOutside(s, h, k.l);
      MineStep(s, h, k.l, Spin.CallUnlock);
      InsideIsMine(s, h, k.l);
    }
  }

  lemma InsideIsMine(s: System, h: nat, l: nat)
    requires l < |s.locks| && h < |s.locks[l].harts| && s.locks[l].harts[h].inside
    ensures l in Mine(s.locks, h)
  {}

  /** An interrupted caller waits for its handler. */
  lemma CallSleeps(s: System, h: nat, e: Event, k: LockCall, inHandler: bool)
    requires Inv(s) && Enabled(s, h, e) && Underway(k, s, h, inHandler) && Interrupted(s.harts[h], inHandler)
    ensures var t := Next(s, h, e); |t.harts| == |s.harts| && Underway(k, t, h, inHandler)
  {
    hide Inv;
    hide OwnedCount;
    hide MutexStep;
    hide Mine;
    hide Seat;
    if e == Return {
      OwnsNothingFree(s, h);
    } else {
      MainStands(s, h, e, h);
      SizesStay(s, h, e);
      hide Next;
    }
  }

  /** The active caller is interrupted. */
  lemma CallIsInterrupted(s: System, h: nat, k: LockCall, inHandler: bool)
    requires Inv(s) && Enabled(s, h, Interrupt) && Underway(k, s, h, inHandler)
    requires Caller(s.harts[h], inHandler).pc != Code
    ensures var t := Next(s, h, Interrupt); |t.harts| == |s.harts| && Underway(k, t, h, inHandler)
  {
    hide Inv;
    hide OwnedCount;
    hide Mine;
    hide Seat;
    FineHart(s, h);
    EnabledMeansFree(s.harts[h], OwnedCount(s.locks, h), Place(s, h));
    OwnsNothingFree(s, h);
    hide HartFine;
    hide LocksFine;
  }

  /** One step in the code of the lock, by the caller's context alone. */
  lemma StageMoves(k: LockCall, c: Context, was: Spin.Pc, now: Spin.Pc, mine: set<nat>, mine': set<nat>)
    requires Stage(k, c, was, mine) && (c.pc.Acquiring? || c.pc.Releasing?)
    requires Follows(was, now, Spin.CallLock) && was != Spin.Outside
    requires c.pc.Releasing? ==> was == Spin.ClearHolder || was == Spin.ClearFlag
    requires mine' == (if was == Spin.ClearFlag then mine - {k.l}
                       else if was != Spin.StoreHolder && now == Spin.StoreHolder then mine + {k.l}
                       else mine)
    requires was != Spin.StoreHolder && now == Spin.StoreHolder ==> k.l !in mine
    ensures Stage(k, if c.pc.Acquiring? then AfterAcquiring(c, was, now) else AfterReleasing(c, now), now, mine')
  {}

  lemma SeatOf(s: System, h: nat)
    requires Inv(s) && h < |s.harts| && !UsesNoLock(Active(s.harts[h]).pc)
    ensures var seat := Place(s, h);
            seat != Spin.Outside &&
            (Active(s.harts[h]).pc.Releasing? ==> seat == Spin.ClearHolder || seat == Spin.ClearFlag)
  {
    hide OwnedCount;
    hide LocksFine;
    FineHart(s, h);
  }

  /** The active caller takes a step in the code of its lock. */
  lemma CallInLock(s: System, h: nat, k: LockCall, inHandler: bool)
    requires Inv(s) && h < |s.harts| && Underway(k, s, h, inHandler) && !Interrupted(s.harts[h], inHandler)
    requires !UsesNoLock(Active(s.harts[h]).pc)
    ensures var t := Advance(s, h); |t.harts| == |s.harts| && Underway(k, t, h, inHandler)
  {
    hide Inv;
    hide OwnedCount;
    hide MutexStep;
    hide Mine;
    hide Seat;
    hide HartFine;
    hide LocksFine;
    hide Follows;
    hide AfterAcquiring;
    hide AfterReleasing;
    FineHart(s, h);
    SeatOf(s, h);
    var x, locks := s.harts[h], MutexStep(s.locks, h, k.l, Spin.CallLock);
    var c, was, now := Active(x), Seat(s.locks, h, k.l), Seat(locks, h, k.l);
    StageLock(k, c, was, Mine(s.locks, h));
    MineStep(s, h, k.l, Spin.CallLock);
    StageMoves(k, c, was, now, Mine(s.locks, h), Mine(locks, h));
    hide Stage;
    var c' := if c.pc.Acquiring? then AfterAcquiring(c, was, now) else AfterReleasing(c, now);
    ActiveIs(x, c', Advance(s, h).harts[h]);
  }

  lemma StageLock(k: LockCall, c: Context, seat: Spin.Pc, mine: set<nat>)
    requires Stage(k, c, seat, mine) && !UsesNoLock(c.pc)
    ensures c.pc == if c.pc.Acquiring? then Acquiring(k.l) else Releasing(k.l)
  {}

  /** The active caller raises the level and enters the lock's code. */
  lemma CallCounts(s: System, h: nat, k: LockCall, inHandler: bool)
    requires Inv(s) && h < |s.harts| && Underway(k, s, h, inHandler) && !Interrupted(s.harts[h], inHandler)
    requires Active(s.harts[h]).pc.Count?
    ensures var t := Advance(s, h); |t.harts| == |s.harts| && Underway(k, t, h, inHandler)
  {
    hide Inv;
    hide OwnedCount;
    hide MutexStep;
    hide Mine;
    hide Seat;
    hide HartFine;
    hide LocksFine;
    FineHart(s, h);
    InsideIsOutside(s, h, k.l);
    MineStep(s, h, k.l, k.call);
  }

  /** The active caller takes a step of push or pop. */
  lemma CallBooks(s: System, h: nat, k: LockCall, inHandler: bool)
    requires h < |s.harts| && Underway(k, s, h, inHandler) && !Interrupted(s.harts[h], inHandler)
    requires UsesNoLock(Active(s.harts[h]).pc)
    requires !Active(s.harts[h]).pc.Code? && !Active(s.harts[h]).pc.Count?
    ensures var t := Advance(s, h); |t.harts| == |s.harts| && Underway(k, t, h, inHandler)
  {
    hide Mine;
    hide Seat;
  }

  /* ---------- whole calls ---------- */

  lemma OnlyContinues(s: System, h: nat, e: Event, k: LockCall, inHandler: bool)
    requires Enabled(s, h, e) && Caller(s.harts[h], inHandler).pc != Code && e != Interrupt
    requires Underway(k, s, h, inHandler) && !Interrupted(s.harts[h], inHandler)
    ensures e == Continue && Active(s.harts[h]).pc != Code && Next(s, h, e) == Advance(s, h)
  {
    hide Stage;
    hide OwnedCount;
    hide Advance;
  }

  lemma CallAdvances(s: System, h: nat, e: Event, k: LockCall, inHandler: bool)
    requires Inv(s) && Enabled(s, h, e) && Underway(k, s, h, inHandler) && Caller(s.harts[h], inHandler).pc != Code
    ensures var t := Next(s, h, e); |t.harts| == |s.harts| && Underway(k, t, h, inHandler)
  {
    hide Inv;
    hide Next;
    hide Advance;
    hide Stage;
    hide Mine;
    hide Seat;
    if Interrupted(s.harts[h], inHandler) {
      CallSleeps(s, h, e, k, inHandler);
    } else if e == Interrupt {
      CallIsInterrupted(s, h, k, inHandler);
    } else {
      OnlyContinues(s, h, e, k, inHandler);
      if !UsesNoLock(Active(s.harts[h]).pc) {
        CallInLock(s, h, k, inHandler);
      } else if Active(s.harts[h]).pc.Count? {
        CallCounts(s, h, k, inHandler);
      } else {
        CallBooks(s, h, k, inHandler);
      }
    }
  }

  lemma {:induction false} CallRuns(s: System, steps: Schedule, h: nat, k: LockCall, inHandler: bool)
    requires Inv(s) && LegalRun(s, steps) && h < |s.harts| && FirstReturn(s, steps, h, inHandler)
    requires Underway(k, s, h, inHandler)
    ensures var t := Run(s, steps);
            h < |t.harts| && Underway(k, t, h, inHandler) && Caller(t.harts[h], inHandler).pc == Code
    decreases |steps|
  {
    hide Inv;
    hide Next;
    hide Enabled;
    hide Stage;
    hide Caller;
    if steps != [] {
      var (i, e) := steps[0];
      NextKeepsInv(s, i, e);
      if i == h { CallAdvances(s, h, e, k, inHandler); } else { OthersStep(s, i, e, h); }
      CallRuns(Next(s, i, e), steps[1..], h, k, inHandler);
    }
  }

  /** From the start of a call to its return, whatever handlers and other harts do
      meanwhile: `lock` takes the lock that was asked for, `try_lock` takes it or counts
      one more failed try, `unlock` gives it back, and no other lock changes hands on
      the hart. */
  lemma CallsAchieve(s: System, steps: Schedule, h: nat, e: Event, inHandler: bool)
    requires Inv(s) && LegalRun(s, steps) && steps != [] && steps[0] == (h, e)
    requires (e.StartLock? || e.StartUnlock?) && h < |Next(s, h, e).harts|
    requires inHandler == s.harts[h].handler.InHandler?
    requires FirstReturn(Next(s, h, e), steps[1..], h, inHandler)
    ensures h < |Run(s, steps).harts|
    ensures var t := Run(s, steps);
            var had, has := Mine(s.locks, h), Mine(t.locks, h);
            var failed, failed' := Caller(s.harts[h], inHandler).failed, Caller(t.harts[h], inHandler).failed;
            if e.StartUnlock? then e.l in had && has == had - {e.l} && failed' == failed
            else if e.call == Spin.CallLock then e.l !in had && has == had + {e.l} && failed' == failed
            else (e.l !in had && has == had + {e.l} && failed' == failed) || (has == had && failed' == failed + 1)
  {
    hide Inv;
    hide Next;
    hide Mine;
    hide Seat;
    var k := LockCall(e.l, if e.StartUnlock? then Spin.CallUnlock else e.call, Mine(s.locks, h),
                      Caller(s.harts[h], inHandler).failed);
    CallBegins(s, h, e, k, inHandler);
    NextKeepsInv(s, h, e);
    CallRuns(Next(s, h, e), steps[1..], h, k, inHandler);
  }
}
