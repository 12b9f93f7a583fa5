/** The resolver health checker and the bypass flag (internal/health/checker.go, internal/ebpf/maps.go). */
module Health {
  import opened Datapath

  /** The single entry of `config_map`. */
  class ConfigStore {
    var config: Config

    constructor (config: Config)
      ensures this.config == config
    {
      this.config := config;
    }

    /** Locked read-modify-write; either map operation may fail, and then nothing is written. */
    method SetBypass(on: bool, lookupFails: bool, updateFails: bool) returns (ok: bool)
      modifies this
      ensures ok == !(lookupFails || updateFails)
      ensures config == if ok then old(config).(bypass := if on then 1 else 0) else old(config)
    {
      if lookupFails {
        return false;
      }
      var val := config;
      if on {
        val := val.(bypass := 1);
      } else {
        val := val.(bypass := 0);
      }
      if updateFails {
        return false;
      }
      config := val;
      return true;
    }
  }

  /** What one probe saw: the context was canceled, the resolver answered, the flag could not be written. */
  datatype Probe = Probe(canceled: bool, answered: bool, setFails: bool)

  /** The checker's fields together with the flag in the map. */
  datatype Health = Health(failures: nat, active: bool, probeFailures: nat, flag: bool)

  datatype Call = NoCall | Call(on: bool, done: bool)

  datatype Reaction = Reaction(health: Health, call: Call)

  function React(h: Health, probe: Probe, threshold: nat): Reaction {
    if probe.canceled then Reaction(h, NoCall)
    else if !probe.answered then
      var h' := h.(failures := h.failures + 1, probeFailures := h.probeFailures + 1);
      if h'.failures >= threshold && !h.active then
        if probe.setFails then Reaction(h', Call(true, false))
        else Reaction(h'.(active := true, flag := true), Call(true, true))
      else Reaction(h', NoCall)
    else
      var h' := h.(failures := 0);
      if h.active then
        if probe.setFails then Reaction(h', Call(false, false))
        else Reaction(h'.(active := false, flag := false), Call(false, true))
      else Reaction(h', NoCall)
  }

  class Checker {
    const store: ConfigStore
    const threshold: nat
    var consecutiveFailures: nat
    var bypassActive: bool
    var probeFailures: nat

    constructor (store: ConfigStore, threshold: nat)
      requires threshold >= 1
      ensures this.store == store && this.threshold == threshold
      ensures consecutiveFailures == 0 && !bypassActive && probeFailures == 0
    {
      this.store := store;
      this.threshold := threshold;
      consecutiveFailures, bypassActive, probeFailures := 0, false, 0;
    }

    ghost function Now(): Health
      reads this, store
    {
      Health(consecutiveFailures, bypassActive, probeFailures, store.config.bypass != 0)
    }

    /** One probe; writes the flag only on a transition, and never after cancellation. */
    method ProbeOnce(probe: Probe) returns (call: Call)
      modifies this, store
      ensures Reaction(Now(), call) == React(old(Now()), probe, threshold)
      ensures store.config == old(store.config).(bypass := store.config.bypass)
      ensures call == NoCall || !call.done ==> store.config == old(store.config)
    {
      call := NoCall;
      if probe.canceled {
        return;
      }
      if !probe.answered {
        probeFailures := probeFailures + 1;
        consecutiveFailures := consecutiveFailures + 1;
        if consecutiveFailures >= threshold && !bypassActive {
          var ok := store.SetBypass(true, false, probe.setFails);
          call := Call(true, ok);
          if !ok {
            return;
          }
          bypassActive := true;
        }
        return;
      }
      consecutiveFailures := 0;
      if bypassActive {
        var ok := store.SetBypass(false, false, probe.setFails);
        call := Call(false, ok);
        if !ok {
          return;
        }
        bypassActive := false;
      }
    }
  }

  // ----- All probe sequences

  /** A history of the checker from startup: bypass off in both places. */
  datatype History = History(threshold: nat, states: seq<Health>, probes: seq<Probe>, calls: seq<Call>) {
    ghost predicate Valid() {
      && threshold >= 1
      && |states| == |probes| + 1 && |calls| == |probes|
      && states[0] == Health(0, false, 0, false)
      && forall i :: 0 <= i < |probes| ==> Reaction(states[i + 1], calls[i]) == React(states[i], probes[i], threshold)
    }

    /** The length of the run of failed probes that ends at `n`; canceled probes do not count. */
    function Trailing(n: nat): nat
      requires n <= |probes|
    {
      if n == 0 then 0
      else if probes[n - 1].canceled then Trailing(n - 1)
      else if probes[n - 1].answered then 0
      else Trailing(n - 1) + 1
    }

    /** No probe from `m` up to `n` was answered while the checker was live. */
    predicate NoSuccess(m: nat, n: nat) {
      forall i :: m <= i < n && i < |probes| ==> probes[i].canceled || !probes[i].answered
    }

    /**
     The cached flag always equals the flag in the map, and the failure counter is the
     trailing run of failed probes.
     */
    lemma {:induction false} CacheAgrees(n: nat)
      requires Valid() && n < |states|
      ensures states[n].active == states[n].flag && states[n].failures == Trailing(n)
    {
      if n > 0 {
        CacheAgrees(n - 1);
        assert Reaction(states[n - 1 + 1], calls[n - 1]) == React(states[n - 1], probes[n - 1], threshold);
      }
    }

    /** The live probes before `n` that failed. */
    function Failed(n: nat): nat
      requires n <= |probes|
    {
      if n == 0 then 0
      else Failed(n - 1) + if probes[n - 1].canceled || probes[n - 1].answered then 0 else 1
    }

    /** The failure metric counts exactly those. */
    lemma {:induction false} MetricCountsFailures(n: nat)
      requires Valid() && n < |states|
      ensures states[n].probeFailures == Failed(n)
    {
      if n > 0 {
        MetricCountsFailures(n - 1);
        assert Reaction(states[n - 1 + 1], calls[n - 1]) == React(states[n - 1], probes[n - 1], threshold);
      }
    }

    /**
     A probe calls `SetBypass` exactly when it was not canceled and the flag has to change: to clear it
     when the resolver answered, to set it when the failures have reached the threshold.  The call
     succeeds unless the write fails.
     */
    lemma CallIff(i: nat)
      requires Valid() && i < |probes|
      ensures var probe := probes[i];
              var needed := if probe.answered then states[i].flag else !states[i].flag && Trailing(i + 1) >= threshold;
              calls[i] == if probe.canceled || !needed then NoCall else Call(!probe.answered, !probe.setFails)
    {
      CacheAgrees(i);
      assert Reaction(states[i + 1], calls[i]) == React(states[i], probes[i], threshold);
    }

    /** If every write succeeds, bypass is on exactly while the trailing failures reach the threshold. */
    lemma {:induction false} FlagIffThreshold(n: nat)
      requires Valid() && n < |states| && forall i :: 0 <= i < n ==> !(calls[i].Call? && !calls[i].done)
      ensures states[n].flag <==> Trailing(n) >= threshold
    {
      if n > 0 {
        FlagIffThreshold(n - 1);
        CacheAgrees(n - 1);
        assert Reaction(states[n - 1 + 1], calls[n - 1]) == React(states[n - 1], probes[n - 1], threshold);
      }
    }

    /**
     With failing writes, a flag that is off although the threshold is reached, or on although
     it is not, is due to a failed write: the last live probe's own attempt to set it,
     or the attempt to clear it at the last success.
     */
    lemma {:induction false} DisagreementExplained(n: nat)
      requires Valid() && n < |states|
      ensures !states[n].flag && Trailing(n) >= threshold ==>
                exists m :: 0 <= m < n && calls[m] == Call(true, false) && forall i :: m < i < n ==> probes[i].canceled
      ensures states[n].flag && Trailing(n) < threshold ==>
                exists m :: 0 <= m < n && calls[m] == Call(false, false) && NoSuccess(m + 1, n)
    {
      if n > 0 {
        DisagreementExplained(n - 1);
        CacheAgrees(n - 1);
        var probe := probes[n - 1];
        assert Reaction(states[n - 1 + 1], calls[n - 1]) == React(states[n - 1], probe, threshold);
        if states[n].flag && Trailing(n) < threshold && (probe.canceled || !probe.answered) {
          var m :| 0 <= m < n - 1 && calls[m] == Call(false, false) && NoSuccess(m + 1, n - 1);
          assert NoSuccess(m + 1, n);
        }
      }
    }

    predicate DoneAt(i: int, on: bool) {
      0 <= i < |calls| && calls[i] == Call(on, true)
    }

    /** The flag is the value of the last write that succeeded since `m`. */
    lemma {:induction false} FlagHeld(m: nat, n: nat)
      requires Valid() && m <= n < |states|
      requires forall i :: m <= i < n ==> !DoneAt(i, true) && !DoneAt(i, false)
      ensures states[n].flag == states[m].flag
      decreases n - m
    {
      if m < n {
        FlagHeld(m, n - 1);
        assert !DoneAt(n - 1, true) && !DoneAt(n - 1, false);
        assert Reaction(states[n - 1 + 1], calls[n - 1]) == React(states[n - 1], probes[n - 1], threshold);
      }
    }

    lemma CallMeaning(i: nat, on: bool)
      requires Valid() && DoneAt(i, on)
      ensures states[i].flag == !on && states[i + 1].flag == on
    {
      CacheAgrees(i);
      assert Reaction(states[i + 1], calls[i]) == React(states[i], probes[i], threshold);
    }

    /** Successful writes strictly alternate, starting with on. */
    lemma CallsAlternate(i: nat, j: nat, first: bool, second: bool)
      requires Valid() && i < j && DoneAt(i, first) && DoneAt(j, second)
      requires forall k :: i < k < j ==> !DoneAt(k, true) && !DoneAt(k, false)
      ensures second == !first
    {
      CallMeaning(i, first);
      CallMeaning(j, second);
      FlagHeld(i + 1, j);
    }

    lemma FirstCallIsOn(j: nat, on: bool)
      requires Valid() && DoneAt(j, on)
      requires forall k :: 0 <= k < j ==> !DoneAt(k, true) && !DoneAt(k, false)
      ensures on
    {
      CallMeaning(j, on);
      FlagHeld(0, j);
    }
  }
}
