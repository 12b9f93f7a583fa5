/** The metric counters over whole runs. */
module CounterRuns {
  import opened NatRewrite
  import opened KernelMaps
  import opened RuleTable
  import opened NameMatcher
  import opened Datapath
  import opened ConntrackLog
  import opened Runs

  /** `query` and `choice` say that the current packet is a counted query, a counted match or miss. */
  predicate Balanced(c: Counters, query: nat, choice: nat) {
    && c.total >= c.bypassActive + c.dnsQueries
    && c.dnsQueries >= c.parseError + c.suffixMatch + c.suffixNoMatch + query
    && c.suffixMatch + c.suffixNoMatch >= c.clusterResolved + c.redirected + choice
    && c.egressTotal >= c.egressSnat + c.egressMiss
    && c.natError >= c.natRevertFail
    && c.suffixMatch + c.suffixNoMatch + c.egressTotal
       >= c.clusterResolved + c.redirected + c.egressSnat + c.egressMiss + c.natError + choice
  }

  lemma RedirectBalanced(s: State, p: Packet, now: nat, f: Faults)
    requires ToService(p, s.config) && HasDnsHeader(p) && Balanced(s.counters, 0, 1)
    ensures Balanced(RedirectStep(s, p, now, f).state.counters, 0, 0)
  {
  }

  lemma ActBalanced(s: State, p: Packet, r: Resolution, now: nat, f: Faults)
    requires ToService(p, s.config) && HasDnsHeader(p) && Balanced(s.counters, 1, 0)
    ensures Balanced(ActStep(s, p, r, now, f).state.counters, 0, 0)
  {
    if r.Resolved? && r.action == HOST_RESOLVE {
      var counted := CountChoice(s, r.matched);
      assert ActStep(s, p, r, now, f) == RedirectStep(counted, p, now, f);
      RedirectBalanced(counted, p, now, f);
    }
  }

  lemma QueryBalanced(s: State, p: Packet, now: nat, f: Faults)
    requires ToService(p, s.config) && Balanced(s.counters, 1, 0)
    ensures Balanced(QueryStep(s, p, now, f).state.counters, 0, 0)
  {
    if Asked(p, f) {
      QueryIsAct(s, p, now, f);
      ActBalanced(s, p, Resolve(Question(p), s.rules, s.config.defaultAction), now, f);
    } else {
      QueryIgnored(s, p, now, f);
    }
  }

  lemma IngressBalanced(s: State, p: Packet, now: nat, f: Faults)
    requires Balanced(s.counters, 0, 0)
    ensures Balanced(IngressStep(s, p, now, f).state.counters, 0, 0)
  {
    if Handled(s, p, f) {
      IngressIsQuery(s, p, now, f);
      QueryBalanced(CountQuery(s), p, now, f);
    }
  }

  lemma EgressBalanced(s: State, p: Packet, now: nat, f: Faults)
    requires Balanced(s.counters, 0, 0)
    ensures Balanced(EgressStep(s, p, now, f).state.counters, 0, 0)
  {
  }

  lemma StepBalanced(w: World, step: Step)
    requires Balanced(w.state.counters, 0, 0)
    ensures Balanced(Next(w, step).state.counters, 0, 0)
  {
    if step.Arrive? {
      IngressBalanced(w.state, step.packet, w.now, step.faults);
    } else if step.Leave? {
      EgressBalanced(w.state, step.packet, w.now, step.faults);
    }
  }

  predicate Failed(event: Event) {
    event.RedirectFailed? || event.SnatFailed?
  }

  /** The rewrite counters move exactly with the events they count. */
  ghost predicate CountsEvent(before: Counters, event: Event, after: Counters) {
    && after.redirected == before.redirected + (if event.Redirect? then 1 else 0)
    && after.egressSnat == before.egressSnat + (if event.Snat? then 1 else 0)
    && after.natError == before.natError + (if Failed(event) then 1 else 0)
    && after.natRevertFail == before.natRevertFail + (if Failed(event) && event.rc == -2 then 1 else 0)
  }

  lemma ActCountsEvent(s: State, p: Packet, r: Resolution, now: nat, f: Faults)
    requires ToService(p, s.config) && HasDnsHeader(p)
    ensures CountsEvent(s.counters, ActStep(s, p, r, now, f).event, ActStep(s, p, r, now, f).state.counters)
  {
  }

  lemma IngressCountsEvent(s: State, p: Packet, now: nat, f: Faults)
    ensures CountsEvent(s.counters, IngressStep(s, p, now, f).event, IngressStep(s, p, now, f).state.counters)
  {
    if Handled(s, p, f) {
      IngressIsQuery(s, p, now, f);
      if Asked(p, f) {
        QueryIsAct(CountQuery(s), p, now, f);
        ActCountsEvent(CountQuery(s), p, Resolve(Question(p), s.rules, s.config.defaultAction), now, f);
      } else {
        QueryIgnored(CountQuery(s), p, now, f);
      }
    }
  }

  lemma EgressCountsEvent(s: State, p: Packet, now: nat, f: Faults)
    ensures CountsEvent(s.counters, EgressStep(s, p, now, f).event, EgressStep(s, p, now, f).state.counters)
  {
  }

  lemma StepCountsEvent(w: World, step: Step)
    ensures CountsEvent(w.state.counters, Effect(w, step).event, Next(w, step).state.counters)
  {
    if step.Arrive? {
      IngressCountsEvent(w.state, step.packet, w.now, step.faults);
    } else if step.Leave? {
      EgressCountsEvent(w.state, step.packet, w.now, step.faults);
    }
  }

  // ----- Every entry ever made is answered, live or lost

  function One(b: bool): nat {
    if b then 1 else 0
  }

  /** The deletion an event should have ended with failed and left its entry behind. */
  predicate Leaked(event: Event, leak: bool) {
    leak && (event.Snat? || event.RedirectFailed?)
  }

  /**
   The entries that go without an answer: the one a redirect attempt overwrites, or takes out when it
   fails, and those evicted or dropped as stale.
   */
  ghost function Lost(before: Conntrack, event: Event, after: Conntrack): nat {
    match event
    case Redirect(key, _) => One(key in before)
    case RedirectFailed(key, _, _) => One(key in before)
    case Snat(_, _) => 0
    case _ => |before.Keys - after.Keys|
  }

  lemma AddSize<K, V>(m: map<K, V>, k: K, v: V)
    ensures |m[k := v]| + One(k in m) == |m| + 1
  {
    assert m[k := v].Keys == m.Keys + {k};
  }

  lemma DropSize<K, V>(m: map<K, V>, k: K)
    ensures |m - {k}| + One(k in m) == |m|
  {
    assert (m - {k}).Keys == m.Keys - {k};
  }

  lemma SubSize(before: Conntrack, after: Conntrack)
    requires SubTable(after, before)
    ensures |after| + |before.Keys - after.Keys| == |before|
  {
    assert before.Keys == after.Keys + (before.Keys - after.Keys);
  }

  lemma MoveSize(before: Conntrack, now: nat, event: Event, leak: bool, after: Conntrack)
    requires TableMove(before, now, event, leak, after)
    ensures |after| + One(event.Snat?) + Lost(before, event, after)
         == |before| + One(event.Redirect?) + One(Leaked(event, leak))
  {
    match event
    case Redirect(key, queried) => AddSize(before, key, CtVal(queried, now));
    case RedirectFailed(key, queried, _) =>
      AddSize(before, key, CtVal(queried, now));
      DropSize(before, key);
    case Snat(key, _) => DropSize(before, key);
    case Passed => SubSize(before, after);
    case SnatFailed(_, _) => SubSize(before, after);
  }

  /** The first `n` numbers added up. */
  function Sum(a: seq<nat>, n: nat): nat
    requires n <= |a|
  {
    if n == 0 then 0 else Sum(a, n - 1) + a[n - 1]
  }

  /** The entry, if any, leaked by each step. */
  ghost function Leaking(worlds: seq<World>, steps: seq<Step>): seq<nat>
    requires |steps| < |worlds|
  {
    seq(|steps|, i requires 0 <= i < |steps| => One(Leaks(worlds, steps, i)))
  }

  ghost function LostAt(worlds: seq<World>, steps: seq<Step>, i: nat): nat
    requires i < |steps| < |worlds|
  {
    Lost(worlds[i].state.conntrack, EventAt(worlds, steps, i), worlds[i + 1].state.conntrack)
  }

  /** The number of entries lost in each step. */
  ghost function Losing(worlds: seq<World>, steps: seq<Step>): seq<nat>
    requires |steps| < |worlds|
  {
    seq(|steps|, i requires 0 <= i < |steps| => LostAt(worlds, steps, i))
  }

  /** What is answered or awaited, less what was redirected. */
  ghost function Excess(s: State): int {
    s.counters.egressSnat + |s.conntrack| - s.counters.redirected
  }

  lemma StepConserves(worlds: seq<World>, steps: seq<Step>, i: nat)
    requires IsRun(worlds, steps) && i < |steps|
    ensures Excess(worlds[i + 1].state) + Losing(worlds, steps)[i]
         == Excess(worlds[i].state) + Leaking(worlds, steps)[i]
  {
    var w, step := worlds[i], steps[i];
    StepMoves(w, step);
    StepCountsEvent(w, step);
    assert worlds[i + 1] == Next(w, step);
    MoveSize(w.state.conntrack, w.now, Effect(w, step).event, DeleteFails(step), worlds[i + 1].state.conntrack);
  }

  lemma {:induction false} Telescope(level: seq<int>, outflow: seq<nat>, inflow: seq<nat>, n: nat)
    requires |level| == |outflow| + 1 == |inflow| + 1 && n < |level|
    requires forall i :: 0 <= i < |outflow| ==> level[i + 1] + outflow[i] == level[i] + inflow[i]
    ensures level[n] + Sum(outflow, n) == level[0] + Sum(inflow, n)
  {
    if n > 0 {
      Telescope(level, outflow, inflow, n - 1);
      assert level[n - 1 + 1] + outflow[n - 1] == level[n - 1] + inflow[n - 1];
    }
  }

  /**
   Entries are conserved: over every run SNATs done, entries live and entries lost grow together
   exactly as redirects and leaked entries do.
   */
  lemma EntriesConserved(worlds: seq<World>, steps: seq<Step>, n: nat)
    requires IsRun(worlds, steps) && n < |worlds|
    ensures Excess(worlds[n].state) + Sum(Losing(worlds, steps), n)
         == Excess(worlds[0].state) + Sum(Leaking(worlds, steps), n)
  {
    var level := seq(|worlds|, i requires 0 <= i < |worlds| => Excess(worlds[i].state));
    var outflow, inflow := Losing(worlds, steps), Leaking(worlds, steps);
    forall i | 0 <= i < |steps| ensures level[i + 1] + outflow[i] == level[i] + inflow[i] {
      StepConserves(worlds, steps, i);
    }
    Telescope(level, outflow, inflow, n);
  }

  /**
   From fresh maps, SNATs and live entries stay within the redirects exactly as long as no more
   entries have leaked than were lost.
   */
  lemma CoveredIff(worlds: seq<World>, steps: seq<Step>, n: nat)
    requires IsRun(worlds, steps) && n < |worlds| && StartsEmpty(worlds)
    requires worlds[0].state.counters.egressSnat == worlds[0].state.counters.redirected == 0
    ensures var s := worlds[n].state;
            s.counters.egressSnat + |s.conntrack| <= s.counters.redirected
            <==> Sum(Leaking(worlds, steps), n) <= Sum(Losing(worlds, steps), n)
  {
    EntriesConserved(worlds, steps, n);
  }

  /** The counters account for one another in every reachable state. */
  lemma {:induction false} CountersBalance(worlds: seq<World>, steps: seq<Step>, n: nat)
    requires IsRun(worlds, steps) && n < |worlds| && Balanced(worlds[0].state.counters, 0, 0)
    ensures Balanced(worlds[n].state.counters, 0, 0)
  {
    if n > 0 {
      CountersBalance(worlds, steps, n - 1);
      assert worlds[n - 1 + 1] == Next(worlds[n - 1], steps[n - 1]);
      StepBalanced(worlds[n - 1], steps[n - 1]);
    }
  }
}
