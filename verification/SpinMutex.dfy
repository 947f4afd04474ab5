/** The spin lock of sync/src/mutex.rs as atomic steps of any number of harts. Each load,
    compare-exchange and store of the source is one step, and steps of different harts
    interleave in any order. */
module SpinMutex {
  import opened Wrappers

  /** Where a hart stands in the code of the lock. */
  datatype Pc =
    | Outside       // in the caller's code
    | LoadFlag      // lock: first load of the double-lock check
    | LoadHolder    // lock: second load of the double-lock check
    | Exchange      // lock: the spinning compare-exchange
    | TryExchange   // try_lock: its only compare-exchange
    | StoreHolder   // the flag is won, the holder is about to be written
    | ClearHolder   // unlock: first store
    | ClearFlag     // unlock: second store
    | Panicked

  /** `inside` holds from the store of the holder to its clearing; `ok` is the result of
      the last finished call. */
  datatype Hart = Hart(pc: Pc, inside: bool, ok: bool)

  datatype Lock = Lock(isLocked: bool, holdingHart: nat, harts: seq<Hart>)

  /** What a hart in the caller's code does next. */
  datatype Call = CallLock | CallTryLock | CallUnlock

  predicate Enabled(s: Lock, h: nat, call: Call) {
    h < |s.harts| && s.harts[h].pc != Panicked &&
    (s.harts[h].pc == Outside && call == CallUnlock ==> s.harts[h].inside)
  }

  function At(s: Lock, h: nat, x: Hart): Lock
    requires h < |s.harts|
  {
    s.(harts := s.harts[h := x])
  }

  /** One atomic step of hart `h`; `call` matters only in the caller's code. */
  function Next(s: Lock, h: nat, call: Call): Lock
    requires Enabled(s, h, call)
  {
    var x := s.harts[h];
    match x.pc
    case Outside =>
      At(s, h, x.(pc := match call case CallLock => LoadFlag
                                   case CallTryLock => TryExchange
                                   case CallUnlock => ClearHolder))
    case LoadFlag => At(s, h, x.(pc := if s.isLocked then LoadHolder else Exchange))
    case LoadHolder => At(s, h, x.(pc := if s.holdingHart == h + 1 then Panicked else Exchange))
    case Exchange => if s.isLocked then s else At(s, h, x.(pc := StoreHolder)).(isLocked := true)
    case TryExchange =>
      if s.isLocked then At(s, h, x.(pc := Outside, ok := false))
      else At(s, h, x.(pc := StoreHolder)).(isLocked := true)
    case StoreHolder => At(s, h, x.(pc := Outside, inside := true, ok := true)).(holdingHart := h + 1)
    case ClearHolder => At(s, h, x.(pc := ClearFlag, inside := false)).(holdingHart := 0)
    case ClearFlag => At(s, h, x.(pc := Outside)).(isLocked := false)
    case Panicked => s
  }

  /** From winning the flag to clearing it, the lock belongs to the hart. */
  predicate Owns(x: Hart) {
    x.inside || x.pc == StoreHolder || x.pc == ClearFlag
  }

  ghost predicate Inv(s: Lock) {
    && (forall h, k :: 0 <= h < |s.harts| && 0 <= k < |s.harts| && Owns(s.harts[h]) && Owns(s.harts[k]) ==> h == k)
    && (forall h :: 0 <= h < |s.harts| && Owns(s.harts[h]) ==> s.isLocked)
    && (s.isLocked ==> exists h :: 0 <= h < |s.harts| && Owns(s.harts[h]))
    && (forall h :: 0 <= h < |s.harts| ==> (s.harts[h].inside <==> s.holdingHart == h + 1))
    && (forall h :: 0 <= h < |s.harts| && s.harts[h].inside ==>
          s.harts[h].pc != Exchange && s.harts[h].pc != StoreHolder && s.harts[h].pc != ClearFlag)
    && (forall h :: 0 <= h < |s.harts| && s.harts[h].pc == ClearHolder ==> s.harts[h].inside)
    && (forall h :: 0 <= h < |s.harts| && s.harts[h].pc == Panicked ==> s.harts[h].inside)
  }

  function Unlocked(n: nat): Lock {
    Lock(false, 0, seq(n, _ => Hart(Outside, false, false)))
  }

  lemma UnlockedIsFine(n: nat)
    ensures Inv(Unlocked(n))
  {}

  /** Only the winning exchange and the clearing of the flag move ownership. */
  lemma OwnerChanges(s: Lock, h: nat, call: Call)
    requires Inv(s) && Enabled(s, h, call)
    ensures var t := Next(s, h, call);
            |t.harts| == |s.harts| &&
            (forall k :: 0 <= k < |s.harts| && k != h ==> t.harts[k] == s.harts[k]) &&
            (Owns(t.harts[h]) <==> (Owns(s.harts[h]) && s.harts[h].pc != ClearFlag) ||
                                   (!s.isLocked && (s.harts[h].pc == Exchange || s.harts[h].pc == TryExchange))) &&
            (t.isLocked <==> exists k :: 0 <= k < |t.harts| && Owns(t.harts[k]))
  {
    var t := Next(s, h, call);
    if s.isLocked {
      var o :| 0 <= o < |s.harts| && Owns(s.harts[o]);
      if t.isLocked { assert Owns(t.harts[o]); }
    } else if t.isLocked {
      assert Owns(t.harts[h]);
    }
  }

  /** Every step of every hart keeps the invariant. */
  lemma NextKeepsInv(s: Lock, h: nat, call: Call)
    requires Inv(s) && Enabled(s, h, call)
    ensures Inv(Next(s, h, call))
  {
    OwnerChanges(s, h, call);
    NextKeepsHolder(s, h, call);
    hide Next;
    hide Enabled;
    hide Owns;
  }

  lemma NextKeepsHolder(s: Lock, h: nat, call: Call)
    requires Inv(s) && Enabled(s, h, call)
    ensures var t := Next(s, h, call);
            (forall k :: 0 <= k < |t.harts| ==> (t.harts[k].inside <==> t.holdingHart == k + 1)) &&
            (forall k :: 0 <= k < |t.harts| && t.harts[k].inside ==>
               t.harts[k].pc != Exchange && t.harts[k].pc != StoreHolder && t.harts[k].pc != ClearFlag) &&
            (forall k :: 0 <= k < |t.harts| && (t.harts[k].pc == ClearHolder || t.harts[k].pc == Panicked) ==>
               t.harts[k].inside)
  {}

  type Schedule = seq<(nat, Call)>

  ghost predicate LegalRun(s: Lock, steps: Schedule)
    decreases |steps|
  {
    steps == [] || (Enabled(s, steps[0].0, steps[0].1) && LegalRun(Next(s, steps[0].0, steps[0].1), steps[1..]))
  }

  ghost function Run(s: Lock, steps: Schedule): Lock
    requires LegalRun(s, steps)
    decreases |steps|
  {
    if steps == [] then s else Run(Next(s, steps[0].0, steps[0].1), steps[1..])
  }

  lemma {:induction false} RunKeepsInv(s: Lock, steps: Schedule)
    requires Inv(s) && LegalRun(s, steps)
    ensures Inv(Run(s, steps)) && |Run(s, steps).harts| == |s.harts|
    decreases |steps|
  {
    if steps != [] {
      NextKeepsInv(s, steps[0].0, steps[0].1);
      RunKeepsInv(Next(s, steps[0].0, steps[0].1), steps[1..]);
    }
  }

  /** Mutual exclusion for any number of harts under every interleaving. */
  lemma MutualExclusion(n: nat, steps: Schedule, h: nat, k: nat)
    requires LegalRun(Unlocked(n), steps) && h < n && k < n
    ensures |Run(Unlocked(n), steps).harts| == n
    ensures Run(Unlocked(n), steps).harts[h].inside && Run(Unlocked(n), steps).harts[k].inside ==> h == k
  {
    UnlockedIsFine(n);
    RunKeepsInv(Unlocked(n), steps);
  }

  /** The double-lock check, in any reachable state: a hart that holds the lock goes from
      the first load to the second and from there to the panic; a hart that does not
      never panics, whatever the other harts do between the two loads. */
  lemma DoubleLockPanicsExactly(n: nat, steps: Schedule, h: nat, call: Call)
    requires LegalRun(Unlocked(n), steps) && h < n
    requires var s := Run(Unlocked(n), steps); |s.harts| == n && Enabled(s, h, call)
    ensures var s := Run(Unlocked(n), steps);
            (s.harts[h].pc == LoadFlag && s.harts[h].inside ==> Next(s, h, call).harts[h].pc == LoadHolder) &&
            (Next(s, h, call).harts[h].pc == Panicked <==> s.harts[h].pc == LoadHolder && s.harts[h].inside)
  {
    UnlockedIsFine(n);
    RunKeepsInv(Unlocked(n), steps);
  }

  /* ---------- the lock as a single atomic step ---------- */

  /** The hart that owns the lock. */
  ghost function Owner(s: Lock): Option<nat>
    requires Inv(s)
  {
    if s.isLocked then
      var h: nat :| h < |s.harts| && Owns(s.harts[h]);
      Some(h)
    else None
  }

  lemma OwnerIs(s: Lock, h: nat)
    requires Inv(s) && h < |s.harts|
    ensures Owner(s) == Some(h) <==> Owns(s.harts[h])
  {}

  /** The machine refines an atomic lock: ownership passes from nobody to a hart at its
      winning exchange, back at the clearing of the flag, and at no other step. */
  lemma RefinesAtomicLock(s: Lock, h: nat, call: Call)
    requires Inv(s) && Enabled(s, h, call)
    ensures Inv(Next(s, h, call))
    ensures var o, o' := Owner(s), Owner(Next(s, h, call));
            if o == None && (s.harts[h].pc == Exchange || s.harts[h].pc == TryExchange) then o' == Some(h)
            else if s.harts[h].pc == ClearFlag then o == Some(h) && o' == None
            else o' == o
  {
    NextKeepsInv(s, h, call);
    OwnerChanges(s, h, call);
    var t := Next(s, h, call);
    OwnerIs(s, h);
    OwnerIs(t, h);
    if Owner(s).Some? && Owner(s).value != h {
      OwnerIs(t, Owner(s).value);
    }
  }
}
