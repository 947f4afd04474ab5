/** The readers-writer lock of sync/src/rwlock.rs: a reader count inside a spin mutex. Its
    operations run on top of the atomic steps of that mutex. The load and the store of
    the count are steps of their own, so every interleaving of loads, exchanges and
    stores of all harts is covered. */
module ReadersWriter {
  import Spin = SpinMutex

  /** What an operation wants to do once it is inside the mutex. */
  datatype Goal = AddReader | TryAddReader | DropReader | Write(retry: bool)

  datatype Phase =
    | Away                        // in the caller's code
    | Acquiring(goal: Goal)       // in the mutex's lock or try_lock
    | Inside(goal: Goal)          // about to load the count
    | Loaded(goal: Goal, value: nat)  // about to store the count, one more or one less than `value`
    | Releasing(again: bool)      // in the mutex's unlock; `again` repeats the loop of lock_exclusive
    | Underflow                   // the decrement of a zero count panicked

  /** `shared` counts the read locks a hart holds, `writer` its write lock. */
  datatype User = User(phase: Phase, shared: nat, writer: bool)

  datatype RwLock = RwLock(mutex: Spin.Lock, numReaders: nat, users: seq<User>)

  /** What a hart in the caller's code does next. */
  datatype Op = LockShared | TryLockShared | UnlockShared | LockExclusive | TryLockExclusive | UnlockExclusive

  function GoalOf(op: Op): Goal
    requires op != UnlockExclusive
  {
    match op
    case LockShared => AddReader
    case TryLockShared => TryAddReader
    case UnlockShared => DropReader
    case LockExclusive => Write(true)
    case TryLockExclusive => Write(false)
  }

  /** Only `try_lock_shared` uses the mutex's `try_lock`. */
  function EntryCall(g: Goal): Spin.Call {
    if g == TryAddReader then Spin.CallTryLock else Spin.CallLock
  }

  predicate Enabled(s: RwLock, h: nat, op: Op) {
    h < |s.users| == |s.mutex.harts| &&
    s.mutex.harts[h].pc != Spin.Panicked && s.users[h].phase != Underflow &&
    (s.users[h].phase == Away && op == UnlockShared ==> s.users[h].shared > 0) &&
    (s.users[h].phase == Away && op == UnlockExclusive ==> s.users[h].writer)
  }

  function Put(s: RwLock, h: nat, u: User): RwLock
    requires h < |s.users|
  {
    s.(users := s.users[h := u])
  }

  /** A step of hart `h` inside the mutex's code, or the start of a call into it. */
  function MutexStep(s: RwLock, h: nat, call: Spin.Call): RwLock {
    if Spin.Enabled(s.mutex, h, call) then s.(mutex := Spin.Next(s.mutex, h, call)) else s
  }

  function Next(s: RwLock, h: nat, op: Op): RwLock
    requires Enabled(s, h, op)
  {
    var u := s.users[h];
    var x := s.mutex.harts[h];
    if x.pc != Spin.Outside then MutexStep(s, h, Spin.CallLock)
    else match u.phase
      case Away =>
        if op == UnlockExclusive
        then MutexStep(Put(s, h, u.(phase := Releasing(false), writer := false)), h, Spin.CallUnlock)
        else MutexStep(Put(s, h, u.(phase := Acquiring(GoalOf(op)))), h, EntryCall(GoalOf(op)))
      case Acquiring(g) => Put(s, h, u.(phase := if x.ok then Inside(g) else Away))
      case Inside(Write(retry)) =>
        // the guard is kept when the count is zero
        if s.numReaders == 0 then Put(s, h, u.(phase := Away, writer := true))
        else MutexStep(Put(s, h, u.(phase := Releasing(retry))), h, Spin.CallUnlock)
      case Inside(g) => Put(s, h, u.(phase := Loaded(g, s.numReaders)))
      case Loaded(g, value) =>
        if g == DropReader && value == 0 then Put(s, h, u.(phase := Underflow))
        else MutexStep(Put(s, h, Stored(u)), h, Spin.CallUnlock)
               .(numReaders := if g == DropReader then value - 1 else value + 1)
      case Releasing(again) =>
        if again then MutexStep(Put(s, h, u.(phase := Acquiring(Write(true)))), h, Spin.CallLock)
        else Put(s, h, u.(phase := Away))
      case Underflow => s
  }

  /** The store of the count takes or gives back a read lock and starts the unlock. */
  function Stored(u: User): User
    requires u.phase.Loaded?
  {
    User(Releasing(false),
         if u.phase.goal != DropReader then u.shared + 1 else if u.shared > 0 then u.shared - 1 else 0,
         u.writer)
  }

  /** All read locks of all harts. */
  function Holders(users: seq<User>): nat {
    if users == [] then 0 else users[0].shared + Holders(users[1..])
  }

  lemma {:induction false} HoldersUpdate(users: seq<User>, h: nat, u: User)
    requires h < |users|
    ensures Holders(users[h := u]) == Holders(users) - users[h].shared + u.shared
    ensures users[h].shared <= Holders(users)
  {
    if h > 0 {
      assert users[h := u][1..] == users[1..][h - 1 := u];
      HoldersUpdate(users[1..], h - 1, u);
    } else {
      assert users[h := u][1..] == users[1..];
    }
  }

  /** How a hart's use of the lock fits its place in the mutex. */
  predicate Fits(u: User, x: Spin.Hart) {
    match u.phase
    case Away => x.pc == Spin.Outside && (x.inside <==> u.writer)
    case Acquiring(g) =>
      x.pc != Spin.ClearHolder && x.pc != Spin.ClearFlag &&
      (g == DropReader ==> u.shared > 0) &&
      (u.writer ==> x.inside && (x.pc == Spin.Outside ==> !x.ok)) &&
      (!u.writer && x.inside ==> x.pc == Spin.Outside && x.ok) &&
      (!x.inside && x.pc == Spin.Outside ==> !x.ok) &&
      (x.pc == Spin.TryExchange ==> g == TryAddReader) &&
      (g == TryAddReader ==> x.pc == Spin.TryExchange || x.pc == Spin.StoreHolder || x.pc == Spin.Outside) &&
      (x.pc == Spin.Outside && !x.ok ==> g == TryAddReader)
    case Inside(g) => x.pc == Spin.Outside && x.inside && !u.writer && (g == DropReader ==> u.shared > 0)
    case Loaded(g, _) =>
      x.pc == Spin.Outside && x.inside && !u.writer && !g.Write? && (g == DropReader ==> u.shared > 0)
    case Releasing(again) =>
      !u.writer && (x.pc == Spin.ClearHolder || x.pc == Spin.ClearFlag || x.pc == Spin.Outside) &&
      (x.inside <==> x.pc == Spin.ClearHolder)
    case Underflow => false
  }

  ghost predicate Inv(s: RwLock) {
    && |s.users| == |s.mutex.harts|
    && Spin.Inv(s.mutex)
    && s.numReaders == Holders(s.users)
    && (forall h :: 0 <= h < |s.users| ==> Fits(s.users[h], s.mutex.harts[h]))
    && (forall h :: 0 <= h < |s.users| && s.users[h].writer ==> s.numReaders == 0)
    && (forall h :: 0 <= h < |s.users| && s.users[h].phase.Loaded? ==> s.users[h].phase.value == s.numReaders)
  }

  function Unused(n: nat): RwLock {
    RwLock(Spin.Unlocked(n), 0, seq(n, _ => User(Away, 0, false)))
  }

  lemma {:induction false} NoHolders(users: seq<User>)
    requires forall h :: 0 <= h < |users| ==> users[h].shared == 0
    ensures Holders(users) == 0
  {
    if users != [] { NoHolders(users[1..]); }
  }

  lemma UnusedIsFine(n: nat)
    ensures Inv(Unused(n))
  {
    Spin.UnlockedIsFine(n);
    NoHolders(Unused(n).users);
  }

  /** What one step does: it touches the user and the mutex's hart of `h` only, and the
      count or a write lock changes only inside the mutex. */
  ghost predicate LocalStep(s: RwLock, t: RwLock, h: nat)
    requires h < |s.users| == |s.mutex.harts|
  {
    |t.users| == |s.users| == |t.mutex.harts| && Spin.Inv(t.mutex) &&
    t.users == s.users[h := t.users[h]] &&
    (forall k :: 0 <= k < |s.users| && k != h ==> t.mutex.harts[k] == s.mutex.harts[k]) &&
    t.numReaders - s.numReaders == t.users[h].shared - s.users[h].shared &&
    (t.numReaders != s.numReaders || (t.users[h].writer && !s.users[h].writer) ==>
       s.mutex.harts[h].inside && !s.users[h].writer) &&
    (t.users[h].writer && !s.users[h].writer ==> t.numReaders == 0) &&
    (t.users[h].phase.Loaded? ==> t.users[h].phase.value == t.numReaders) &&
    Fits(t.users[h], t.mutex.harts[h])
  }

  lemma StepIsLocal(s: RwLock, h: nat, op: Op)
    requires Inv(s) && Enabled(s, h, op)
    ensures LocalStep(s, Next(s, h, op), h)
  {
    hide LocalStep;
    hide Spin.Inv;
    var u, x := s.users[h], s.mutex.harts[h];
    CountIsPositive(s, h);
    if x.pc != Spin.Outside {
      InsideMutexCode(s, h);
    } else if u.phase.Away? && op == UnlockExclusive {
      CallsMutex(s, h, s.numReaders, u.(phase := Releasing(false), writer := false), Spin.CallUnlock);
    } else if u.phase.Away? {
      CallsMutex(s, h, s.numReaders, u.(phase := Acquiring(GoalOf(op))), EntryCall(GoalOf(op)));
    } else if u.phase.Releasing? && u.phase.again {
      CallsMutex(s, h, s.numReaders, u.(phase := Acquiring(Write(true))), Spin.CallLock);
    } else if u.phase.Inside? {
      match u.phase.goal
      case Write(retry) =>
        if s.numReaders == 0 {
          StaysOutside(s, h, u.(phase := Away, writer := true));
        } else {
          CallsMutex(s, h, s.numReaders, u.(phase := Releasing(retry)), Spin.CallUnlock);
        }
      case g =>
        StaysOutside(s, h, u.(phase := Loaded(g, s.numReaders)));
    } else if u.phase.Loaded? {
      CallsMutex(s, h, Next(s, h, op).numReaders, Stored(u), Spin.CallUnlock);
    } else {
      StaysOutside(s, h, Next(s, h, op).users[h]);
    }
  }

  lemma CountIsPositive(s: RwLock, h: nat)
    requires Inv(s) && h < |s.users|
    ensures s.users[h].shared <= s.numReaders && Fits(s.users[h], s.mutex.harts[h])
    ensures Spin.Inv(s.mutex) && |s.users| == |s.mutex.harts|
  {
    HoldersUpdate(s.users, h, s.users[h]);
  }

  /** A step in the mutex's own code. */
  lemma InsideMutexCode(s: RwLock, h: nat)
    requires h < |s.users| == |s.mutex.harts| && Spin.Inv(s.mutex) && Fits(s.users[h], s.mutex.harts[h])
    requires s.mutex.harts[h].pc != Spin.Outside && s.mutex.harts[h].pc != Spin.Panicked
    ensures LocalStep(s, MutexStep(s, h, Spin.CallLock), h)
  {
    Spin.NextKeepsInv(s.mutex, h, Spin.CallLock);
    var t := MutexStep(s, h, Spin.CallLock);
    assert t.users == s.users[h := t.users[h]];
  }

  /** A change of the user and the count together with the start of a call. */
  lemma CallsMutex(s: RwLock, h: nat, readers: nat, u: User, call: Spin.Call)
    requires h < |s.users| == |s.mutex.harts| && Spin.Inv(s.mutex) && Fits(s.users[h], s.mutex.harts[h])
    requires s.mutex.harts[h].pc == Spin.Outside
    requires readers - s.numReaders == u.shared - s.users[h].shared
    requires readers != s.numReaders ==> s.users[h].phase.Loaded?
    requires u.writer ==> s.users[h].writer
    requires !u.phase.Loaded?
    requires match call
             case CallUnlock => s.mutex.harts[h].inside && !u.writer && u.phase.Releasing?
             case CallLock => u.phase.Acquiring? && u.phase.goal != TryAddReader
             case CallTryLock => u.phase == Acquiring(TryAddReader)
    requires u.phase == Acquiring(DropReader) ==> u.shared > 0
    requires u.phase.Acquiring? ==> (s.mutex.harts[h].inside <==> u.writer)
    ensures Spin.Enabled(s.mutex, h, call)
    ensures LocalStep(s, s.(users := s.users[h := u], numReaders := readers, mutex := Spin.Next(s.mutex, h, call)), h)
  {
    Spin.NextKeepsInv(s.mutex, h, call);
    hide Spin.Inv;
  }

  /** A change of the user alone. */
  lemma StaysOutside(s: RwLock, h: nat, u: User)
    requires h < |s.users| == |s.mutex.harts| && Spin.Inv(s.mutex)
    requires u.shared == s.users[h].shared && Fits(u, s.mutex.harts[h])
    requires u.writer && !s.users[h].writer ==> s.mutex.harts[h].inside && s.numReaders == 0
    requires u.phase.Loaded? ==> u.phase.value == s.numReaders
    ensures LocalStep(s, Put(s, h, u), h)
  {}

  lemma RwNextKeepsInv(s: RwLock, h: nat, op: Op)
    requires Inv(s) && Enabled(s, h, op)
    ensures Inv(Next(s, h, op))
  {
    var t := Next(s, h, op);
    StepIsLocal(s, h, op);
    hide Next;
    hide Enabled;
    HoldersUpdate(s.users, h, t.users[h]);
    forall k | 0 <= k < |t.users| ensures Fits(t.users[k], t.mutex.harts[k]) {
      assert Fits(s.users[k], s.mutex.harts[k]);
    }
    forall k | 0 <= k < |t.users| && t.users[k].writer ensures t.numReaders == 0 {
      if k != h {
        assert Fits(s.users[k], s.mutex.harts[k]) && s.mutex.harts[k].inside && s.users[k].writer;
        assert Spin.Owns(s.mutex.harts[k]);
      }
    }
    forall k | 0 <= k < |t.users| && t.users[k].phase.Loaded? ensures t.users[k].phase.value == t.numReaders {
      if k != h {
        assert Fits(s.users[k], s.mutex.harts[k]) && s.mutex.harts[k].inside;
        assert Spin.Owns(s.mutex.harts[k]);
      }
    }
  }

  type Schedule = seq<(nat, Op)>

  ghost predicate LegalRun(s: RwLock, steps: Schedule)
    decreases |steps|
  {
    steps == [] || (Enabled(s, steps[0].0, steps[0].1) && LegalRun(Next(s, steps[0].0, steps[0].1), steps[1..]))
  }

  ghost function Run(s: RwLock, steps: Schedule): RwLock
    requires LegalRun(s, steps)
    decreases |steps|
  {
    if steps == [] then s else Run(Next(s, steps[0].0, steps[0].1), steps[1..])
  }

  lemma {:induction false} RwRunKeepsInv(s: RwLock, steps: Schedule)
    requires Inv(s) && LegalRun(s, steps)
    ensures Inv(Run(s, steps)) && |Run(s, steps).users| == |s.users|
    decreases |steps|
  {
    if steps != [] {
      RwNextKeepsInv(s, steps[0].0, steps[0].1);
      StepIsLocal(s, steps[0].0, steps[0].1);
      RwRunKeepsInv(Next(s, steps[0].0, steps[0].1), steps[1..]);
    }
  }

  lemma {:induction false} ZeroHolders(users: seq<User>, h: nat)
    requires Holders(users) == 0 && h < |users|
    ensures users[h].shared == 0
  {
    HoldersUpdate(users, h, users[h]);
  }

  /** No writer together with a reader or another writer, the count is always the number
      of read locks held, and the decrement never meets a zero count. */
  lemma ReadersAndWritersExclude(n: nat, steps: Schedule, h: nat, k: nat)
    requires LegalRun(Unused(n), steps) && h < n && k < n
    ensures var s := Run(Unused(n), steps);
            |s.users| == n && s.numReaders == Holders(s.users) &&
            (s.users[h].writer ==> s.users[k].shared == 0) &&
            (s.users[h].writer && s.users[k].writer ==> h == k) &&
            s.users[h].phase != Underflow
  {
    UnusedIsFine(n);
    RwRunKeepsInv(Unused(n), steps);
    var s := Run(Unused(n), steps);
    assert Fits(s.users[h], s.mutex.harts[h]) && Fits(s.users[k], s.mutex.harts[k]);
    if s.users[h].writer {
      assert s.mutex.harts[h].inside;
      ZeroHolders(s.users, k);
      if s.users[k].writer {
        assert Spin.Owns(s.mutex.harts[h]) && Spin.Owns(s.mutex.harts[k]);
      }
    }
  }

  /** The double-lock panic strikes only a writer that enters the lock again by one of
      the blocking calls. */
  lemma OnlyWritersReenter(n: nat, steps: Schedule, h: nat)
    requires LegalRun(Unused(n), steps) && h < n
    ensures var s := Run(Unused(n), steps);
            |s.users| == |s.mutex.harts| == n && (s.mutex.harts[h].pc == Spin.Panicked ==> Reenters(s.users[h]))
  {
    UnusedIsFine(n);
    RwRunKeepsInv(Unused(n), steps);
    var s := Run(Unused(n), steps);
    assert Fits(s.users[h], s.mutex.harts[h]);
  }

  predicate Reenters(u: User) {
    u.writer && u.phase.Acquiring? && u.phase.goal != TryAddReader
  }

  /** How many steps of its own separate a hart in the double-lock check from the panic. */
  function StepsToPanic(pc: Spin.Pc): nat {
    match pc case LoadFlag => 2 case LoadHolder => 1 case _ => 0
  }

  function StepsOf(steps: Schedule, h: nat): nat {
    if steps == [] then 0 else StepsOf(steps[1..], h) + if steps[0].0 == h then 1 else 0
  }

  /** And every such writer ends there: its next two steps, whatever the other harts do in
      between, are the two loads of the check and the panic. */
  lemma {:induction false} ReenteringWriterPanics(s: RwLock, steps: Schedule, h: nat)
    requires Inv(s) && LegalRun(s, steps) && h < |s.users| && Reenters(s.users[h])
    ensures var t := Run(s, steps);
            |t.users| == |t.mutex.harts| == |s.users| == |s.mutex.harts| && Reenters(t.users[h]) &&
            StepsToPanic(t.mutex.harts[h].pc) + StepsOf(steps, h) == StepsToPanic(s.mutex.harts[h].pc) &&
            (StepsToPanic(t.mutex.harts[h].pc) == 0 <==> t.mutex.harts[h].pc == Spin.Panicked)
    decreases |steps|
  {
    assert Fits(s.users[h], s.mutex.harts[h]);
    if steps != [] {
      var (k, op) := steps[0];
      StepIsLocal(s, k, op);
      RwNextKeepsInv(s, k, op);
      ReenteringWriterPanics(Next(s, k, op), steps[1..], h);
    }
  }

  /* ---------- what a call achieves ---------- */

  /** Hart `h` returns to its caller's code at the end of the run and not before. */
  ghost predicate FirstReturn(s: RwLock, steps: Schedule, h: nat)
    requires LegalRun(s, steps) && h < |s.users|
    decreases |steps|
  {
    if steps == [] then s.users[h].phase == Away
    else
      var t := Next(s, steps[0].0, steps[0].1);
      s.users[h].phase != Away && h < |t.users| && FirstReturn(t, steps[1..], h)
  }

  /** What makes a call fail or repeat: a `try_lock_shared` while the mutex is taken, or a
      writer that has entered and finds readers. */
  predicate Refused(op: Op, s: RwLock, h: nat) {
    if op == TryLockShared then s.mutex.isLocked
    else h < |s.mutex.harts| && s.mutex.harts[h].inside && s.numReaders > 0
  }

  ghost predicate MeetsRefusal(op: Op, s: RwLock, steps: Schedule, h: nat)
    requires LegalRun(s, steps)
    decreases |steps|
  {
    steps != [] && (Refused(op, s, h) || MeetsRefusal(op, Next(s, steps[0].0, steps[0].1), steps[1..], h))
  }

  predicate Enters(s: RwLock, t: RwLock, h: nat) {
    h < |s.mutex.harts| == |t.mutex.harts| && s.mutex.harts[h].pc == Spin.Outside &&
    (t.mutex.harts[h].pc == Spin.LoadFlag || t.mutex.harts[h].pc == Spin.TryExchange)
  }

  /** How often hart `h` enters the mutex's lock or try_lock. */
  ghost function Entries(s: RwLock, steps: Schedule, h: nat): nat
    requires LegalRun(s, steps)
    decreases |steps|
  {
    if steps == [] then 0
    else
      var t := Next(s, steps[0].0, steps[0].1);
      Entries(t, steps[1..], h) + if Enters(s, t, h) then 1 else 0
  }

  /** The state of a call of `op` by a hart that was `was`; `met` tells whether it was
      refused on the way. */
  predicate Underway(op: Op, was: User, u: User, x: Spin.Hart, met: bool) {
    match u.phase
    case Acquiring(g) =>
      Pursues(op, g) && u == was.(phase := u.phase) && (op == TryLockShared && x.pc == Spin.Outside && !x.ok ==> met)
    case Inside(g) => Pursues(op, g) && u == was.(phase := u.phase)
    case Loaded(g, _) => Pursues(op, g) && u == was.(phase := u.phase)
    case Releasing(again) => (again <==> op == LockExclusive) && Given(op, was, u, met)
    case Away => (op != LockExclusive && Given(op, was, u, met)) || Taken(op, was, u)
    case Underflow => false
  }

  predicate Pursues(op: Op, g: Goal) {
    match g
    case AddReader => op == LockShared
    case TryAddReader => op == TryLockShared
    case DropReader => op == UnlockShared
    case Write(again) => op == if again then LockExclusive else TryLockExclusive
  }

  /** What is left of the call's work on the count, and of a refused call. */
  predicate Given(op: Op, was: User, u: User, met: bool) {
    match op
    case LockShared => u == was.(phase := u.phase, shared := was.shared + 1)
    case TryLockShared =>
      u == was.(phase := u.phase, shared := was.shared + 1) || (u == was.(phase := u.phase) && met)
    case UnlockShared => was.shared > 0 && u == was.(phase := u.phase, shared := was.shared - 1)
    case LockExclusive => u == was.(phase := u.phase) && met
    case TryLockExclusive => u == was.(phase := u.phase) && met
    case UnlockExclusive => u == was.(phase := u.phase, writer := false)
  }

  predicate Taken(op: Op, was: User, u: User) {
    (op == LockExclusive || op == TryLockExclusive) && u == was.(phase := Away, writer := true)
  }

  lemma CallStarts(s: RwLock, h: nat, op: Op)
    requires Inv(s) && Enabled(s, h, op) && s.users[h].phase == Away
    ensures var t := Next(s, h, op);
            h < |t.users| == |t.mutex.harts| && t.users[h].phase != Away &&
            Underway(op, s.users[h], t.users[h], t.mutex.harts[h], false) &&
            (Enters(s, t, h) <==> op != UnlockExclusive) && (op == UnlockExclusive ==> s.users[h].writer)
  {
    StepIsLocal(s, h, op);
    CountIsPositive(s, h);
    hide Inv;
    hide LocalStep;
  }

  /** A step of the calling hart in the mutex's code. */
  lemma CallInMutex(s: RwLock, h: nat, op: Op, was: User, met: bool)
    requires h < |s.users| == |s.mutex.harts| && Fits(s.users[h], s.mutex.harts[h])
    requires s.users[h].phase != Away
    requires s.mutex.harts[h].pc != Spin.Outside && s.mutex.harts[h].pc != Spin.Panicked
    requires Underway(op, was, s.users[h], s.mutex.harts[h], met)
    ensures var t := MutexStep(s, h, Spin.CallLock);
            h < |t.users| == |t.mutex.harts| &&
            Underway(op, was, t.users[h], t.mutex.harts[h], met || Refused(op, s, h)) && !Enters(s, t, h)
  {
    hide Pursues;
  }

  /** A step of the calling hart on the count, or the start of a call into the mutex. */
  lemma CallOutsideMutex(s: RwLock, h: nat, next: Op, op: Op, was: User, met: bool)
    requires Enabled(s, h, next) && Fits(s.users[h], s.mutex.harts[h]) && s.mutex.harts[h].pc == Spin.Outside
    requires s.users[h].phase != Away && Underway(op, was, s.users[h], s.mutex.harts[h], met)
    requires s.users[h].phase.Loaded? ==> s.users[h].phase.value == s.numReaders
    requires s.users[h].shared <= s.numReaders
    ensures var t := Next(s, h, next);
            h < |t.users| == |t.mutex.harts| &&
            Underway(op, was, t.users[h], t.mutex.harts[h], met || Refused(op, s, h)) &&
            (Enters(s, t, h) ==> op == LockExclusive && met)
  {}

  /** A step of the calling hart. */
  lemma CallAdvances(s: RwLock, h: nat, next: Op, op: Op, was: User, met: bool)
    requires Inv(s) && Enabled(s, h, next) && s.users[h].phase != Away
    requires Underway(op, was, s.users[h], s.mutex.harts[h], met)
    ensures var t := Next(s, h, next);
            h < |t.users| == |t.mutex.harts| &&
            Underway(op, was, t.users[h], t.mutex.harts[h], met || Refused(op, s, h)) &&
            (Enters(s, t, h) ==> op == LockExclusive && met)
  {
    hide Underway;
    hide Refused;
    hide Enters;
    hide Fits;
    hide Holders;
    CountIsPositive(s, h);
    if s.mutex.harts[h].pc == Spin.Outside {
      CallOutsideMutex(s, h, next, op, was, met);
    } else {
      CallInMutex(s, h, op, was, met);
    }
  }

  /** A step of another hart. */
  lemma CallWaits(s: RwLock, k: nat, next: Op, h: nat)
    requires Inv(s) && Enabled(s, k, next) && h < |s.users| && k != h
    ensures var t := Next(s, k, next);
            |t.users| == |s.users| == |t.mutex.harts| == |s.mutex.harts| &&
            t.users[h] == s.users[h] && t.mutex.harts[h] == s.mutex.harts[h] && !Enters(s, t, h)
  {
    StepIsLocal(s, k, next);
    hide Next;
    hide Inv;
  }

  lemma {:induction false} CallRuns(s: RwLock, steps: Schedule, h: nat, op: Op, was: User, met: bool)
    requires Inv(s) && LegalRun(s, steps) && h < |s.users| == |s.mutex.harts| && FirstReturn(s, steps, h)
    requires Underway(op, was, s.users[h], s.mutex.harts[h], met)
    ensures var t, refused := Run(s, steps), met || MeetsRefusal(op, s, steps, h);
            h < |t.users| == |t.mutex.harts| && t.users[h].phase == Away && Inv(t) &&
            Underway(op, was, t.users[h], t.mutex.harts[h], refused) &&
            (Entries(s, steps, h) > 0 ==> op == LockExclusive && refused)
    decreases |steps|
  {
    hide Inv;
    hide Next;
    hide Enabled;
    hide Underway;
    hide Enters;
    hide Refused;
    if steps != [] {
      var (k, next) := steps[0];
      var t := Next(s, k, next);
      RwNextKeepsInv(s, k, next);
      if k == h { CallAdvances(s, h, next, op, was, met); } else { CallWaits(s, k, next, h); }
      CallRuns(t, steps[1..], h, op, was, if k == h then met || Refused(op, s, h) else met);
      MetMonotone(op, was, Run(s, steps).users[h], Run(s, steps).mutex.harts[h]);
    }
  }

  lemma MetMonotone(op: Op, was: User, u: User, x: Spin.Hart)
    ensures Underway(op, was, u, x, false) ==> Underway(op, was, u, x, true)
  {}

  /** A call that found its hart as `was` has left it as `u`. */
  predicate Achieved(op: Op, was: User, u: User, refused: bool) {
    match op
    case LockShared => u == was.(shared := was.shared + 1)
    case TryLockShared => u == was.(shared := was.shared + 1) || (u == was && refused)
    case UnlockShared => was.shared > 0 && u == was.(shared := was.shared - 1)
    case LockExclusive => u == was.(writer := true)
    case TryLockExclusive => u == was.(writer := true) || (u == was && refused)
    case UnlockExclusive => u == was.(writer := false)
  }

  /** From the call to its return, whatever other harts do meanwhile: the shared calls
      take or give back one read lock of the hart, the exclusive ones its write lock. A
      try may come back without, after a refusal and one entry into the mutex; only
      `lock_exclusive` enters again, after meeting readers. The hart stays inside the
      mutex just when it is the writer. */
  lemma CallsAchieve(s: RwLock, steps: Schedule, h: nat, op: Op)
    requires Inv(s) && LegalRun(s, steps) && h < |s.users| && s.users[h].phase == Away
    requires steps != [] && steps[0] == (h, op) && h < |Next(s, h, op).users|
    requires FirstReturn(Next(s, h, op), steps[1..], h)
    ensures h < |Run(s, steps).users| == |Run(s, steps).mutex.harts|
    ensures var was, u, refused := s.users[h], Run(s, steps).users[h], MeetsRefusal(op, s, steps, h);
            Achieved(op, was, u, refused) && (op == UnlockExclusive ==> was.writer)
    ensures var entries := Entries(s, steps, h);
            if op == UnlockExclusive then entries == 0
            else entries == 1 || (op == LockExclusive && entries > 1 && MeetsRefusal(op, s, steps, h))
    ensures var t := Run(s, steps); t.mutex.harts[h].inside <==> t.users[h].writer
  {
    hide Inv;
    hide Next;
    hide Enabled;
    hide Enters;
    hide Refused;
    var was := s.users[h];
    CallStarts(s, h, op);
    RwNextKeepsInv(s, h, op);
    CallRuns(Next(s, h, op), steps[1..], h, op, was, false);
    CallEnded(op, was, Run(s, steps).users[h], Run(s, steps).mutex.harts[h],
              MeetsRefusal(op, Next(s, h, op), steps[1..], h));
    CountIsPositive(Run(s, steps), h);
  }

  lemma CallEnded(op: Op, was: User, u: User, x: Spin.Hart, met: bool)
    requires was.phase == Away && u.phase == Away && Underway(op, was, u, x, met)
    ensures Achieved(op, was, u, met)
  {}
}
