/**
 The shutdown interleaving of the health checker, the main goroutine, the controller and the
 locked read-modify-write of the bypass flag (cmd/bpf-dns-gateway/main.go,
 internal/health/checker.go, internal/ebpf/maps.go, internal/controller/controller.go).
 */
module Shutdown {
  import opened Datapath
  import opened Health

  /** Progress of one `SetBypass` call. */
  datatype Rmw = Waiting | Locked | HasRead(copy: Config)

  /** The checker: between probes, inside the query, inside `SetBypass`, about to cache its result, or done. */
  datatype CheckerPc = Idle | Querying | Calling(on: bool, rmw: Rmw) | Recording(on: bool) | Exited

  /** Main: serving, waiting for the checker, inside `SetBypass(true)`, or past it. */
  datatype MainPc = Serving | Awaiting | Setting(viaDone: bool, rmw: Rmw) | Past(viaDone: bool, ok: bool)

  datatype System = System(
    threshold: nat, failures: nat, active: bool, checker: CheckerPc,
    canceled: bool, monitorDown: bool, main: MainPc, detached: bool, config: Config)

  datatype Action =
    | Cancel
    | ProbeStarts
    | ProbeEnds(answered: bool)
    | CheckerLocks
    | CheckerReads(fails: bool)
    | CheckerWrites(fails: bool)
    | CheckerRecords
    | CheckerExits
    | MainNotices
    | MainSeesDone
    | MainTimesOut
    | MainLocks
    | MainReads(fails: bool)
    | MainWrites(fails: bool)
    | MonitorStops
    | ControllerDetaches

  predicate Holds(rmw: Rmw) {
    !rmw.Waiting?
  }

  predicate LockFree(s: System) {
    !(s.checker.Calling? && Holds(s.checker.rmw)) && !(s.main.Setting? && Holds(s.main.rmw))
  }

  predicate Enabled(s: System, a: Action) {
    match a
    case Cancel => true
    case ProbeStarts => s.checker.Idle?
    case ProbeEnds(_) => s.checker.Querying?
    case CheckerLocks => s.checker.Calling? && s.checker.rmw.Waiting? && LockFree(s)
    case CheckerReads(_) => s.checker.Calling? && s.checker.rmw.Locked?
    case CheckerWrites(_) => s.checker.Calling? && s.checker.rmw.HasRead?
    case CheckerRecords => s.checker.Recording?
    case CheckerExits => s.checker.Idle? && s.canceled
    case MainNotices => s.main.Serving? && s.canceled
    case MainSeesDone => s.main.Awaiting? && s.checker.Exited?
    case MainTimesOut => s.main.Awaiting?
    case MainLocks => s.main.Setting? && s.main.rmw.Waiting? && LockFree(s)
    case MainReads(_) => s.main.Setting? && s.main.rmw.Locked?
    case MainWrites(_) => s.main.Setting? && s.main.rmw.HasRead?
    case MonitorStops => !s.monitorDown
    case ControllerDetaches => (s.canceled || s.monitorDown) && !s.detached
  }

  /** What the checker makes of a finished probe, before the flag is written. */
  function Reacts(s: System, answered: bool): Reaction {
    React(Health(s.failures, s.active, 0, s.config.bypass != 0), Probe(s.canceled, answered, true), s.threshold)
  }

  function Apply(s: System, a: Action): System
    requires Enabled(s, a)
  {
    match a
    case Cancel => s.(canceled := true)
    case ProbeStarts => s.(checker := Querying)
    case ProbeEnds(answered) =>
      var r := Reacts(s, answered);
      s.(failures := r.health.failures, checker := if r.call.NoCall? then Idle else Calling(r.call.on, Waiting))
    case CheckerLocks => s.(checker := Calling(s.checker.on, Locked))
    case CheckerReads(fails) =>
      if fails then s.(checker := Idle) else s.(checker := Calling(s.checker.on, HasRead(s.config)))
    case CheckerWrites(fails) =>
      if fails then s.(checker := Idle)
      else s.(checker := Recording(s.checker.on),
              config := s.checker.rmw.copy.(bypass := if s.checker.on then 1 else 0))
    case CheckerRecords => s.(checker := Idle, active := s.checker.on)
    case CheckerExits => s.(checker := Exited)
    case MainNotices => s.(main := Awaiting)
    case MainSeesDone => s.(main := Setting(true, Waiting))
    case MainTimesOut => s.(main := Setting(false, Waiting))
    case MainLocks => s.(main := Setting(s.main.viaDone, Locked))
    case MainReads(fails) =>
      if fails then s.(main := Past(s.main.viaDone, false))
      else s.(main := Setting(s.main.viaDone, HasRead(s.config)))
    case MainWrites(fails) =>
      if fails then s.(main := Past(s.main.viaDone, false))
      else s.(main := Past(s.main.viaDone, true), config := s.main.rmw.copy.(bypass := 1))
    case MonitorStops => s.(monitorDown := true)
    case ControllerDetaches => s.(detached := true)
  }

  /** Startup: no probe yet, bypass off in the map and in the cache. */
  predicate Init(s: System) {
    && s == System(s.threshold, 0, false, Idle, false, false, Serving, false, s.config)
    && s.threshold >= 1 && s.config.bypass == 0
  }

  predicate Moves(s: System, a: Action, t: System) {
    Enabled(s, a) && t == Apply(s, a)
  }

  /** The states passed through by `actions`. */
  ghost predicate IsPath(states: seq<System>, actions: seq<Action>) {
    |states| == |actions| + 1 && forall i :: 0 <= i < |actions| ==> Moves(states[i], actions[i], states[i + 1])
  }

  ghost predicate IsRun(states: seq<System>, actions: seq<Action>) {
    IsPath(states, actions) && Init(states[0])
  }

  /** Two configurations that differ at most in the bypass flag. */
  predicate SameButBypass(a: Config, b: Config) {
    a.(bypass := 0) == b.(bypass := 0)
  }

  /** The map's flag and the checker's cache agree, except between a write and its recording. */
  predicate CacheAgrees(s: System) {
    if s.checker.Recording? then (s.config.bypass != 0) == s.checker.on && s.active == !s.checker.on
    else (s.config.bypass != 0) == s.active
  }

  /** At most one lock holder, whose copy is current. */
  ghost predicate LockInv(s: System) {
    && !(s.checker.Calling? && Holds(s.checker.rmw) && s.main.Setting? && Holds(s.main.rmw))
    && (s.checker.Calling? && s.checker.rmw.HasRead? ==> s.checker.rmw.copy == s.config)
    && (s.main.Setting? && s.main.rmw.HasRead? ==> s.main.rmw.copy == s.config)
  }

  /**
   Main acts after cancellation and the controller after that or after the monitor's end; once main
   saw Done the checker is gone.
   */
  ghost predicate OrderInv(s: System) {
    && (!s.main.Serving? || s.checker.Exited? ==> s.canceled)
    && (s.detached ==> s.canceled || s.monitorDown)
    && (s.main.Setting? && s.main.viaDone ==> s.checker.Exited?)
    && (s.main.Past? && s.main.viaDone ==> s.checker.Exited? && (s.main.ok ==> s.config.bypass == 1))
  }

  /** A call is for the opposite of the cache, and until main has written the cache agrees with the map. */
  ghost predicate CacheInv(s: System) {
    && (s.checker.Calling? || s.checker.Recording? ==> s.checker.on == !s.active)
    && (!(s.main.Past? && s.main.ok) ==> CacheAgrees(s))
  }

  ghost predicate Inv(s: System) {
    LockInv(s) && OrderInv(s) && CacheInv(s)
  }

  lemma StepKeepsLocks(s: System, a: Action)
    requires LockInv(s) && Enabled(s, a)
    ensures LockInv(Apply(s, a)) && SameButBypass(Apply(s, a).config, s.config)
  {
  }

  lemma StepKeepsOrder(s: System, a: Action)
    requires OrderInv(s) && Enabled(s, a)
    ensures OrderInv(Apply(s, a))
  {
  }

  lemma ProbeKeepsCache(s: System, answered: bool)
    requires CacheInv(s) && Enabled(s, ProbeEnds(answered))
    ensures CacheInv(Apply(s, ProbeEnds(answered)))
  {
  }

  lemma StepKeepsCache(s: System, a: Action)
    requires LockInv(s) && CacheInv(s) && Enabled(s, a)
    ensures CacheInv(Apply(s, a))
  {
    if a.ProbeEnds? {
      ProbeKeepsCache(s, a.answered);
    }
  }

  /** What every step keeps. */
  lemma StepKeepsInv(s: System, a: Action, t: System)
    requires Inv(s) && Moves(s, a, t)
    ensures Inv(t) && SameButBypass(t.config, s.config)
  {
    StepKeepsLocks(s, a);
    StepKeepsOrder(s, a);
    StepKeepsCache(s, a);
  }

  /** The invariant holds in every run, and no field of the configuration but the flag ever changes. */
  lemma {:induction false} RunKeepsInv(states: seq<System>, actions: seq<Action>, n: nat)
    requires IsRun(states, actions) && n < |states|
    ensures Inv(states[n]) && SameButBypass(states[n].config, states[0].config)
  {
    if n > 0 {
      RunKeepsInv(states, actions, n - 1);
      StepKeepsInv(states[n - 1], actions[n - 1], states[n - 1 + 1]);
    }
  }

  /** With main's write as the only other writer, cache and map agree in every run until it happens. */
  lemma CacheAgreesUntilMainWrites(states: seq<System>, actions: seq<Action>, n: nat)
    requires IsRun(states, actions) && n < |states|
    requires forall i :: 0 <= i < n ==> actions[i] != MainWrites(false)
    ensures CacheAgrees(states[n])
  {
    RunKeepsInv(states, actions, n);
    NotPastWithoutWrite(states, actions, n);
  }

  predicate Wrote(s: System) {
    s.main.Past? && s.main.ok
  }

  lemma OnlyMainWrites(s: System, a: Action, t: System)
    requires Moves(s, a, t) && !Wrote(s) && a != MainWrites(false)
    ensures !Wrote(t)
  {
  }

  lemma {:induction false} NotPastWithoutWrite(states: seq<System>, actions: seq<Action>, n: nat)
    requires IsRun(states, actions) && n < |states|
    requires forall i :: 0 <= i < n ==> actions[i] != MainWrites(false)
    ensures !Wrote(states[n])
  {
    if n > 0 {
      NotPastWithoutWrite(states, actions, n - 1);
      OnlyMainWrites(states[n - 1], actions[n - 1], states[n - 1 + 1]);
    }
  }

  // ----- Main went on because the checker was done

  lemma PastStep(s: System, a: Action, t: System)
    requires Moves(s, a, t) && s.main.Past?
    ensures t.main == s.main
  {
  }

  /** Main's result never changes once `SetBypass(true)` has returned. */
  lemma {:induction false} PastIsFinal(states: seq<System>, actions: seq<Action>, i: nat, j: nat)
    requires IsPath(states, actions) && i <= j < |states| && states[i].main.Past?
    ensures states[j].main == states[i].main
    decreases j - i
  {
    if i < j {
      PastIsFinal(states, actions, i, j - 1);
      PastStep(states[j - 1], actions[j - 1], states[j - 1 + 1]);
    }
  }

  /**
   Shutdown keeps bypass on: once main went on because the checker was done and its own
   write succeeded, the flag is 1 in every later state and the rest of the
   configuration is what it was at startup.
   */
  lemma ShutdownKeepsBypass(states: seq<System>, actions: seq<Action>, i: nat, j: nat)
    requires IsRun(states, actions) && i <= j < |states|
    requires states[i].main == Past(true, true)
    ensures states[j].config.bypass == 1 && SameButBypass(states[j].config, states[0].config)
  {
    PastIsFinal(states, actions, i, j);
    RunKeepsInv(states, actions, j);
  }

  // ----- After cancellation: who can clear the flag

  /** The checker is inside a `SetBypass(false)` that has not written yet. */
  predicate Clearing(s: System) {
    s.checker.Calling? && !s.checker.on
  }

  /** After cancellation no new call begins. */
  lemma CanceledStep(s: System, a: Action, t: System)
    requires s.canceled && Moves(s, a, t)
    ensures t.canceled && (Clearing(t) ==> Clearing(s))
  {
  }

  lemma {:induction false} NoNewCall(states: seq<System>, actions: seq<Action>, c: nat, m: nat)
    requires IsPath(states, actions) && c <= m < |states| && states[c].canceled
    ensures states[m].canceled && (Clearing(states[m]) ==> Clearing(states[c]))
    decreases m - c
  {
    if c < m {
      NoNewCall(states, actions, c, m - 1);
      CanceledStep(states[m - 1], actions[m - 1], states[m - 1 + 1]);
    }
  }

  /** The flag goes off only by the write of a clearing call. */
  lemma OnlyClearingClears(s: System, a: Action, t: System)
    requires Inv(s) && Moves(s, a, t) && s.config.bypass != 0 && t.config.bypass == 0
    ensures a == CheckerWrites(false) && Clearing(s)
  {
  }

  /**
   After cancellation only a probe that had passed the context check before can clear the
   flag: it was inside its call when the context was canceled.
   */
  lemma OnlyEarlyProbeClears(states: seq<System>, actions: seq<Action>, c: nat, m: nat)
    requires IsRun(states, actions) && c <= m < |actions| && states[c].canceled
    requires states[m].config.bypass != 0 && states[m + 1].config.bypass == 0
    ensures actions[m] == CheckerWrites(false) && Clearing(states[c])
  {
    RunKeepsInv(states, actions, m);
    OnlyClearingClears(states[m], actions[m], states[m + 1]);
    NoNewCall(states, actions, c, m);
  }

  // ----- What can still happen from a state

  /** Some steps lead from `s` to `t`. */
  ghost predicate Reaches(s: System, t: System) {
    exists states, actions :: IsPath(states, actions) && states[0] == s && states[|actions|] == t
  }

  lemma ReachesSelf(s: System)
    ensures Reaches(s, s)
  {
    assert IsPath([s], []) && [s][0] == s;
  }

  lemma ReachesNext(s: System, t: System, a: Action) returns (u: System)
    requires Reaches(s, t) && Enabled(t, a)
    ensures u == Apply(t, a) && Reaches(s, u)
  {
    u := Apply(t, a);
    var states, actions :| IsPath(states, actions) && states[0] == s && states[|actions|] == t;
    PathExtended(states, actions, a, u);
    assert (states + [u])[0] == s && (states + [u])[|actions + [a]|] == u;
  }

  lemma PathExtended(states: seq<System>, actions: seq<Action>, a: Action, u: System)
    requires IsPath(states, actions) && Moves(states[|actions|], a, u)
    ensures IsPath(states + [u], actions + [a])
  {
  }

  /** Canceled with the flag on and no clearing call pending. */
  ghost predicate FlagKept(s: System) {
    Inv(s) && s.canceled && s.config.bypass != 0 && !Clearing(s)
  }

  lemma FlagKeptStep(s: System, a: Action, t: System)
    requires FlagKept(s) && Moves(s, a, t)
    ensures FlagKept(t)
  {
    StepKeepsInv(s, a, t);
    CanceledStep(s, a, t);
    if t.config.bypass == 0 {
      OnlyClearingClears(s, a, t);
    }
  }

  lemma {:induction false} FlagKeptAlong(states: seq<System>, actions: seq<Action>, n: nat)
    requires IsPath(states, actions) && n < |states| && FlagKept(states[0])
    ensures FlagKept(states[n])
  {
    if n > 0 {
      FlagKeptAlong(states, actions, n - 1);
      FlagKeptStep(states[n - 1], actions[n - 1], states[n - 1 + 1]);
    }
  }

  /** Such a flag stays on, whatever happens. */
  lemma SetFlagStays(s: System, t: System)
    requires FlagKept(s) && Reaches(s, t)
    ensures t.config.bypass != 0
  {
    var states, actions :| IsPath(states, actions) && states[0] == s && states[|actions|] == t;
    FlagKeptAlong(states, actions, |actions|);
  }

  lemma MainWritesOut(s: System, t: System) returns (u: System)
    requires Reaches(s, t) && t.main.Setting? && t.main.rmw.HasRead?
    ensures Reaches(s, u) && u.checker == t.checker && u.detached == t.detached && u.main.Past?
  {
    u := ReachesNext(s, t, MainWrites(false));
  }

  /** Main, if it holds the lock, can finish its call successfully. */
  lemma MainFinishes(s: System, t: System) returns (u: System)
    requires Reaches(s, t)
    ensures Reaches(s, u) && u.checker == t.checker && u.detached == t.detached
    ensures !(u.main.Setting? && Holds(u.main.rmw)) && (t.main.Past? ==> u.main == t.main)
  {
    u := t;
    if t.main.Setting? && Holds(t.main.rmw) {
      if t.main.rmw.Locked? {
        u := ReachesNext(s, t, MainReads(false));
      }
      u := MainWritesOut(s, u);
    }
  }

  /** A pending clearing call, however far it has got, can complete and clear the flag. */
  lemma PendingCallClears(s: System, t: System) returns (u: System)
    requires Reaches(s, t) && Clearing(t)
    ensures Reaches(s, u) && u.config.bypass == 0 && u.detached == t.detached
    ensures t.main.Past? ==> u.main == t.main
  {
    u := MainFinishes(s, t);
    if u.checker.rmw.Waiting? {
      u := ReachesNext(s, u, CheckerLocks);
    }
    if u.checker.rmw.Locked? {
      u := ReachesNext(s, u, CheckerReads(false));
    }
    u := ReachesNext(s, u, CheckerWrites(false));
  }

  /** Before cancellation the next answered probe begins to clear a flag that is on. */
  lemma LiveCheckerClears(s: System) returns (t: System)
    requires Inv(s) && !s.canceled && s.config.bypass != 0
    ensures Reaches(s, t) && Clearing(t) && t.detached == s.detached
  {
    ReachesSelf(s);
    t := s;
    if t.checker.Recording? {
      t := ReachesNext(s, t, CheckerRecords);
    }
    if t.checker.Idle? {
      t := ReachesNext(s, t, ProbeStarts);
    }
    if t.checker.Querying? {
      t := ReachesNext(s, t, ProbeEnds(true));
    }
  }

  /** The flag is off, is about to be cleared, or the checker is still free to clear it. */
  predicate Clearable(s: System) {
    !s.canceled || s.config.bypass == 0 || Clearing(s)
  }

  lemma ClearableReachesOff(s: System) returns (t: System)
    requires Inv(s) && Clearable(s)
    ensures Reaches(s, t) && t.config.bypass == 0 && t.detached == s.detached
  {
    ReachesSelf(s);
    t := s;
    if s.config.bypass != 0 {
      if !Clearing(s) {
        t := LiveCheckerClears(s);
      }
      t := PendingCallClears(s, t);
    }
  }

  /** Some continuation of `s` comes to a state without bypass. */
  ghost predicate CanLoseBypass(s: System) {
    exists t :: Reaches(s, t) && t.config.bypass == 0
  }

  /** The flag can be lost exactly before cancellation, when it is off already, or when a clearing call is pending. */
  lemma BypassLostIff(s: System)
    requires Inv(s)
    ensures CanLoseBypass(s) <==> Clearable(s)
  {
    if Clearable(s) {
      var t := ClearableReachesOff(s);
    } else {
      forall t | Reaches(s, t) ensures t.config.bypass != 0 {
        SetFlagStays(s, t);
      }
    }
  }

  /** Some continuation of `s` comes to where the controller detaches the programs while bypass is off. */
  ghost predicate CanDetachUnbypassed(s: System) {
    exists t :: Reaches(s, t) && Enabled(t, ControllerDetaches) && t.config.bypass == 0
  }

  /**
   The documented order "bypass, then detach" is not enforced, since the controller reacts to the
   same cancellation, or even before it to the end of the monitor: while attached, the programs can
   be detached without bypass exactly when the flag can be lost.
   */
  lemma DetachUnbypassedIff(s: System)
    requires Inv(s) && !s.detached
    ensures CanDetachUnbypassed(s) <==> Clearable(s)
  {
    if Clearable(s) {
      var t := ClearableReachesOff(s);
      t := ReachesNext(s, t, Cancel);
    } else {
      forall t | Reaches(s, t) ensures t.config.bypass != 0 {
        SetFlagStays(s, t);
      }
    }
  }

  // ----- The failing runs

  /** From startup, `n` failed probes below the threshold. */
  lemma {:induction false} FailedProbes(start: System, n: nat) returns (t: System)
    requires Init(start) && n < start.threshold
    ensures Reaches(start, t) && t == start.(failures := n)
  {
    if n == 0 {
      t := start;
      ReachesSelf(start);
    } else {
      t := FailedProbes(start, n - 1);
      t := ReachesNext(start, t, ProbeStarts);
      t := ReachesNext(start, t, ProbeEnds(false));
    }
  }

  /** The resolver fails up to the threshold and bypass is set. */
  lemma BypassSet(start: System) returns (t: System)
    requires Init(start)
    ensures Reaches(start, t)
    ensures t == start.(failures := start.threshold, active := true, config := start.config.(bypass := 1))
  {
    t := FailedProbes(start, start.threshold - 1);
    t := ReachesNext(start, t, ProbeStarts);
    t := ReachesNext(start, t, ProbeEnds(false));
    t := ReachesNext(start, t, CheckerLocks);
    t := ReachesNext(start, t, CheckerReads(false));
    t := ReachesNext(start, t, CheckerWrites(false));
    t := ReachesNext(start, t, CheckerRecords);
  }

  /** The resolver recovers, and the context is canceled before the checker has the lock. */
  lemma RecoveryPending(start: System) returns (t: System)
    requires Init(start)
    ensures Reaches(start, t) && t.main.Serving? && t.canceled && t.checker == Calling(false, Waiting)
  {
    t := BypassSet(start);
    t := ReachesNext(start, t, ProbeStarts);
    t := ReachesNext(start, t, ProbeEnds(true));
    t := ReachesNext(start, t, Cancel);
  }

  /**
   For every threshold and configuration there is a run in which the wait for the checker times out,
   main sets the flag successfully, and the flag is lost all the same.
   */
  lemma TimeoutCanLoseBypass(start: System) returns (t: System)
    requires Init(start)
    ensures Reaches(start, t) && t.main == Past(false, true) && t.config.bypass == 0
  {
    t := RecoveryPending(start);
    t := ReachesNext(start, t, MainNotices);
    t := ReachesNext(start, t, MainTimesOut);
    t := ReachesNext(start, t, MainLocks);
    t := ReachesNext(start, t, MainReads(false));
    t := ReachesNext(start, t, MainWrites(false));
    t := PendingCallClears(start, t);
  }

  /** And there is one that detaches before the flag is set, after nothing but a cancellation. */
  lemma DetachCanPrecedeBypass(start: System) returns (t: System)
    requires Init(start)
    ensures Reaches(start, t) && t.detached && t.main.Serving? && t.config.bypass == 0 && !t.monitorDown
  {
    ReachesSelf(start);
    t := ReachesNext(start, start, Cancel);
    t := ReachesNext(start, t, ControllerDetaches);
  }

  /** And one that detaches even before cancellation, after nothing but the end of the monitor. */
  lemma DetachCanPrecedeCancellation(start: System) returns (t: System)
    requires Init(start)
    ensures Reaches(start, t) && t.detached && !t.canceled && t.config.bypass == 0
  {
    ReachesSelf(start);
    t := ReachesNext(start, start, MonitorStops);
    t := ReachesNext(start, t, ControllerDetaches);
  }
}
