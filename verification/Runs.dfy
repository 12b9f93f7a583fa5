/**
 Whole runs of the gateway: any interleaving of packets on both programs, table
 evictions, clock ticks, configuration writes (bypass flips among them), rule
 updates and helper failures.
 */
module Runs {
  import opened Checksum
  import opened NatRewrite
  import opened RuleTable
  import opened NameMatcher
  import opened Datapath
  import opened ConntrackLog
  import opened Packets

  datatype World = World(now: nat, state: State)

  datatype Step =
    | Arrive(packet: Packet, faults: Faults)
    | Leave(packet: Packet, faults: Faults)
    | Evict(key: CtKey)
    | Tick(elapsed: nat)
    | Configure(config: Config)
    | Install(rules: Table)

  function Effect(w: World, step: Step): Outcome {
    match step
    case Arrive(p, f) => IngressStep(w.state, p, w.now, f)
    case Leave(p, f) => EgressStep(w.state, p, w.now, f)
    case Evict(key) => Outcome(w.state.(conntrack := w.state.conntrack - {key}), [], Passed)
    case Tick(_) => Outcome(w.state, [], Passed)
    case Configure(config) => Outcome(w.state.(config := config), [], Passed)
    case Install(rules) => Outcome(w.state.(rules := rules), [], Passed)
  }

  function Next(w: World, step: Step): World {
    World(if step.Tick? then w.now + step.elapsed else w.now, Effect(w, step).state)
  }

  /** `worlds` are the states passed through by `steps`, on a clock that does not overflow. */
  ghost predicate IsRun(worlds: seq<World>, steps: seq<Step>) {
    && |worlds| == |steps| + 1
    && (forall i :: 0 <= i < |steps| ==> worlds[i + 1] == Next(worlds[i], steps[i]))
    && (forall i :: 0 <= i < |worlds| ==> worlds[i].now < TWO64)
  }

  ghost predicate StartsEmpty(worlds: seq<World>) {
    worlds != [] && worlds[0].state.conntrack == map[]
  }

  predicate DeleteFails(step: Step) {
    (step.Arrive? || step.Leave?) && step.faults.delete
  }

  /** The state in which ingress handles a query for the service. */
  function CountQuery(s: State): State {
    s.(counters := s.counters.(total := s.counters.total + 1, dnsQueries := s.counters.dnsQueries + 1))
  }

  function CountChoice(s: State, matched: bool): State {
    var c := s.counters;
    s.(counters := if matched then c.(suffixMatch := c.suffixMatch + 1) else c.(suffixNoMatch := c.suffixNoMatch + 1))
  }

  /** Ingress gets as far as counting a query. */
  predicate Handled(s: State, p: Packet, f: Faults) {
    !f.noConfig && s.config.bypass == 0 && ToService(p, s.config)
  }

  lemma IngressIsQuery(s: State, p: Packet, now: nat, f: Faults)
    requires Handled(s, p, f)
    ensures IngressStep(s, p, now, f) == QueryStep(CountQuery(s), p, now, f)
  {
  }

  /** The question gets resolved. */
  predicate Asked(p: Packet, f: Faults)
    requires IsUdp(p)
  {
    HasDnsHeader(p) && !IsResponse(p) && OneQuestion(p) && !f.noScratch && Question(p) != []
  }

  lemma QueryIsAct(s: State, p: Packet, now: nat, f: Faults)
    requires ToService(p, s.config) && Asked(p, f)
    ensures QueryStep(s, p, now, f) == ActStep(s, p, Resolve(Question(p), s.rules, s.config.defaultAction), now, f)
  {
  }

  /** A question that is not resolved changes nothing but the parse error counter. */
  lemma QueryIgnored(s: State, p: Packet, now: nat, f: Faults)
    requires ToService(p, s.config) && !Asked(p, f)
    ensures var r := QueryStep(s, p, now, f);
            && r.packet == p && r.event == Passed
            && (r.state == s || r.state == s.(counters := s.counters.(parseError := s.counters.parseError + 1)))
  {
  }

  // ----- The table

  /** The table change of one step is the one its event announces. */
  lemma StepMoves(w: World, step: Step)
    ensures var r := Effect(w, step);
            TableMove(w.state.conntrack, w.now, r.event, DeleteFails(step), r.state.conntrack)
  {
    if step.Arrive? {
      IngressMoves(w.state, step.packet, w.now, step.faults);
    } else if step.Leave? {
      EgressMoves(w.state, step.packet, w.now, step.faults);
    }
  }

  /** What every stage of ingress keeps. */
  ghost predicate IngressShape(s: State, p: Packet, now: nat, f: Faults, r: Outcome) {
    && TableMove(s.conntrack, now, r.event, f.delete, r.state.conntrack)
    && (r.event == Passed ==> r.state.conntrack == s.conntrack && r.packet == p)
    && (forall key :: key in r.state.conntrack && !(key in s.conntrack && s.conntrack[key] == r.state.conntrack[key])
                      ==> r.state.conntrack[key].timestamp == now)
    && !r.event.Snat? && !r.event.SnatFailed?
    && r.state.config == s.config
  }

  lemma RedirectShape(s: State, p: Packet, now: nat, f: Faults)
    requires ToService(p, s.config) && HasDnsHeader(p)
    ensures IngressShape(s, p, now, f, RedirectStep(s, p, now, f))
  {
  }

  lemma ActShape(s: State, p: Packet, r: Resolution, now: nat, f: Faults)
    requires ToService(p, s.config) && HasDnsHeader(p)
    ensures IngressShape(s, p, now, f, ActStep(s, p, r, now, f))
  {
    if r.Resolved? && r.action == HOST_RESOLVE {
      RedirectShape(CountChoice(s, r.matched), p, now, f);
    }
  }

  lemma QueryShape(s: State, p: Packet, now: nat, f: Faults)
    requires ToService(p, s.config)
    ensures IngressShape(s, p, now, f, QueryStep(s, p, now, f))
  {
    if Asked(p, f) {
      QueryIsAct(s, p, now, f);
      ActShape(s, p, Resolve(Question(p), s.rules, s.config.defaultAction), now, f);
    } else {
      QueryIgnored(s, p, now, f);
    }
  }

  lemma IngressMoves(s: State, p: Packet, now: nat, f: Faults)
    ensures IngressShape(s, p, now, f, IngressStep(s, p, now, f))
    ensures s.config.bypass != 0 ==> IngressStep(s, p, now, f).event == Passed
  {
    if Handled(s, p, f) {
      IngressIsQuery(s, p, now, f);
      QueryShape(CountQuery(s), p, now, f);
    }
  }

  lemma EgressMoves(s: State, p: Packet, now: nat, f: Faults)
    ensures var r := EgressStep(s, p, now, f);
            && TableMove(s.conntrack, now, r.event, f.delete, r.state.conntrack)
            && SubTable(r.state.conntrack, s.conntrack)
            && (r.event == Passed ==> r.packet == p)
            && !r.event.Redirect? && !r.event.RedirectFailed?
            && r.state.config == s.config
  {
  }

  // ----- The clock

  lemma {:induction false} ClockMonotone(worlds: seq<World>, steps: seq<Step>, i: nat, j: nat)
    requires IsRun(worlds, steps) && i <= j < |worlds|
    ensures worlds[i].now <= worlds[j].now
    decreases j - i
  {
    if i < j {
      ClockMonotone(worlds, steps, i, j - 1);
      assert worlds[j - 1 + 1] == Next(worlds[j - 1], steps[j - 1]);
    }
  }

  ghost predicate NoFuture(w: World) {
    forall key :: key in w.state.conntrack ==> w.state.conntrack[key].timestamp <= w.now
  }

  lemma StepKeepsNoFuture(w: World, step: Step)
    requires NoFuture(w)
    ensures NoFuture(Next(w, step))
  {
    if step.Arrive? {
      IngressMoves(w.state, step.packet, w.now, step.faults);
    } else if step.Leave? {
      EgressMoves(w.state, step.packet, w.now, step.faults);
    }
  }

  /** No entry is ever stamped in the future, so an entry's age never wraps around. */
  lemma {:induction false} RunHasNoFuture(worlds: seq<World>, steps: seq<Step>, n: nat)
    requires IsRun(worlds, steps) && StartsEmpty(worlds) && n < |worlds|
    ensures NoFuture(worlds[n])
    ensures forall key :: key in worlds[n].state.conntrack ==>
              var t := worlds[n].state.conntrack[key].timestamp; Age(worlds[n].now, t) == worlds[n].now - t
  {
    if n > 0 {
      RunHasNoFuture(worlds, steps, n - 1);
      StepKeepsNoFuture(worlds[n - 1], steps[n - 1]);
      assert worlds[n - 1 + 1] == Next(worlds[n - 1], steps[n - 1]);
    }
    forall key | key in worlds[n].state.conntrack
      ensures var t := worlds[n].state.conntrack[key].timestamp; Age(worlds[n].now, t) == worlds[n].now - t
    {
      AgeIsDifference(worlds[n].now, worlds[n].state.conntrack[key].timestamp);
    }
  }

  // ----- Every SNAT is justified

  function EventAt(worlds: seq<World>, steps: seq<Step>, i: nat): Event
    requires i < |steps| && i < |worlds|
  {
    Effect(worlds[i], steps[i]).event
  }

  function LogOf(worlds: seq<World>, steps: seq<Step>): Log
    requires |worlds| == |steps| + 1
  {
    Log(seq(|worlds|, i requires 0 <= i < |worlds| => worlds[i].state.conntrack),
        seq(|worlds|, i requires 0 <= i < |worlds| => worlds[i].now),
        seq(|steps|, i requires 0 <= i < |steps| => EventAt(worlds, steps, i)),
        seq(|steps|, i requires 0 <= i < |steps| => DeleteFails(steps[i])))
  }

  lemma RunLogValid(worlds: seq<World>, steps: seq<Step>)
    requires IsRun(worlds, steps) && StartsEmpty(worlds)
    ensures LogOf(worlds, steps).Valid()
  {
    var log := LogOf(worlds, steps);
    forall i | 0 <= i < |steps|
      ensures TableMove(log.tables[i], log.clock[i], log.events[i], log.leaks[i], log.tables[i + 1])
    {
      StepMoves(worlds[i], steps[i]);
      assert worlds[i + 1] == Next(worlds[i], steps[i]);
    }
    forall i, j | 0 <= i <= j < |worlds| ensures log.clock[i] <= log.clock[j] {
      ClockMonotone(worlds, steps, i, j);
    }
  }

  /** The deletion that should have ended a SNAT, or undone the entry of a failed redirect, failed. */
  predicate Leaks(worlds: seq<World>, steps: seq<Step>, i: nat)
    requires i < |steps| && i < |worlds|
  {
    DeleteFails(steps[i]) && (EventAt(worlds, steps, i).Snat? || EventAt(worlds, steps, i).RedirectFailed?)
  }

  /** The attempt at `i` to redirect the connection left the entry that the SNAT at `j` answers. */
  ghost predicate Answers(worlds: seq<World>, steps: seq<Step>, i: nat, j: nat)
    requires i < j < |steps| < |worlds|
  {
    var attempt, snat := EventAt(worlds, steps, i), EventAt(worlds, steps, j);
    && snat.Snat?
    && (attempt == Redirect(snat.key, snat.shown)
        || (&& attempt.RedirectFailed? && attempt.key == snat.key && attempt.queried == snat.shown
            && Leaks(worlds, steps, i)))
    && worlds[i].now <= worlds[j].now <= worlds[i].now + CONNTRACK_TTL_NS
  }

  /** The SNAT at `j` answers a successful redirect at `i`, at most five seconds old, to the address it shows. */
  ghost predicate Justifies(worlds: seq<World>, steps: seq<Step>, i: nat, j: nat)
    requires i < j < |steps| < |worlds|
  {
    && EventAt(worlds, steps, j).Snat?
    && EventAt(worlds, steps, i) == Redirect(EventAt(worlds, steps, j).key, EventAt(worlds, steps, j).shown)
    && worlds[i].now <= worlds[j].now <= worlds[i].now + CONNTRACK_TTL_NS
  }

  /**
   In every run from an empty table, whatever fails, each SNAT answers an earlier attempt to
   redirect the same connection, at most five seconds old, and shows the address that
   attempt's query was sent to.  The attempt succeeded or its entry leaked; two SNATs answer
   the same attempt only if the first one leaked its entry.
   */
  lemma EverySnatHasOrigin(worlds: seq<World>, steps: seq<Step>) returns (origin: map<nat, nat>)
    requires IsRun(worlds, steps) && StartsEmpty(worlds)
    ensures forall j: nat :: j in origin <==> j < |steps| && EventAt(worlds, steps, j).Snat?
    ensures forall j: nat :: j in origin ==> origin[j] < j && Answers(worlds, steps, origin[j], j)
    ensures forall j: nat, k: nat :: j in origin && k in origin && j < k && origin[j] == origin[k]
              ==> Leaks(worlds, steps, j)
    ensures forall j: nat :: j in origin ==> origin[j] == LogOf(worlds, steps).Origin(j)
  {
    var log := LogOf(worlds, steps);
    RunLogValid(worlds, steps);
    forall j: nat | j < |steps| && log.events[j].Snat?
      ensures 0 <= log.Origin(j) < j && Answers(worlds, steps, log.Origin(j), j)
    {
      log.SnatHasOrigin(j);
    }
    origin := map j: nat | 0 <= j < |steps| && log.events[j].Snat? :: log.Origin(j) as nat;
    forall j: nat, k: nat | j in origin && k in origin && j < k && origin[j] == origin[k]
      ensures Leaks(worlds, steps, j)
    {
      log.SharedOriginLeaks(j, k);
    }
  }

  /**
   So in every run in which no entry leaks, successful SNATs map injectively to earlier
   successful redirects of the same connection, each to the one whose entry it used.
   */
  lemma EverySnatIsJustified(worlds: seq<World>, steps: seq<Step>) returns (justifier: map<nat, nat>)
    requires IsRun(worlds, steps) && StartsEmpty(worlds)
    requires forall i :: 0 <= i < |steps| ==> !Leaks(worlds, steps, i)
    ensures forall j: nat :: j in justifier <==> j < |steps| && EventAt(worlds, steps, j).Snat?
    ensures forall j: nat :: j in justifier ==> justifier[j] < j && Justifies(worlds, steps, justifier[j], j)
    ensures forall j: nat, k: nat :: j in justifier && k in justifier && j != k ==> justifier[j] != justifier[k]
    ensures forall j: nat :: j in justifier ==> justifier[j] == LogOf(worlds, steps).Origin(j)
  {
    justifier := EverySnatHasOrigin(worlds, steps);
    forall j: nat | j in justifier ensures justifier[j] < j && Justifies(worlds, steps, justifier[j], j) {
      assert !Leaks(worlds, steps, justifier[j]);
      AnsweredIsJustified(worlds, steps, justifier[j], j);
    }
    forall j: nat, k: nat | j in justifier && k in justifier && j < k ensures justifier[j] != justifier[k] {
      assert !Leaks(worlds, steps, j);
    }
  }

  lemma AnsweredIsJustified(worlds: seq<World>, steps: seq<Step>, i: nat, j: nat)
    requires i < j < |steps| < |worlds| && Answers(worlds, steps, i, j) && !Leaks(worlds, steps, i)
    ensures Justifies(worlds, steps, i, j)
  {
  }

  /** The step at `i` leaked its entry, and the SNAT at `j` used it before a new one took its place. */
  ghost predicate Reuses(worlds: seq<World>, steps: seq<Step>, i: nat, j: nat)
    requires i < j < |steps| < |worlds|
  {
    && Leaks(worlds, steps, i)
    && var key := EventAt(worlds, steps, i).key;
       && EventAt(worlds, steps, j).Snat? && EventAt(worlds, steps, j).key == key
       && forall m :: i < m < j ==> !LeavesEntry(worlds, steps, m, key)
  }

  /** The step at `m` redirected the connection, or failed to and leaked its entry. */
  ghost predicate LeavesEntry(worlds: seq<World>, steps: seq<Step>, m: nat, key: CtKey)
    requires m < |steps| < |worlds|
  {
    var event := EventAt(worlds, steps, m);
    (event.Redirect? || (event.RedirectFailed? && Leaks(worlds, steps, m))) && event.key == key
  }

  /**
   In every run from an empty table, the entry behind each SNAT is that of a successful redirect and
   no two SNATs used the same one, if and only if no leaked entry is used again.
   */
  lemma OwnJustifiedIff(worlds: seq<World>, steps: seq<Step>)
    requires IsRun(worlds, steps) && StartsEmpty(worlds)
    ensures LogOf(worlds, steps).Valid()
    ensures LogOf(worlds, steps).OwnJustified()
            <==> !exists i: nat, j: nat :: i < j < |steps| && Reuses(worlds, steps, i, j)
  {
    var log := LogOf(worlds, steps);
    RunLogValid(worlds, steps);
    log.OwnJustifiedIff();
    forall i: nat, j: nat | i < j < |steps| ensures log.Reuses(i, j) <==> Reuses(worlds, steps, i, j) {
      ReusesInLog(worlds, steps, i, j);
    }
  }

  lemma ReusesInLog(worlds: seq<World>, steps: seq<Step>, i: nat, j: nat)
    requires IsRun(worlds, steps) && i < j < |steps|
    ensures LogOf(worlds, steps).Reuses(i, j) <==> Reuses(worlds, steps, i, j)
  {
    var log := LogOf(worlds, steps);
    if Leaks(worlds, steps, i) {
      var key := EventAt(worlds, steps, i).key;
      forall m: nat | m < |steps| ensures log.StampsAt(m, key) <==> LeavesEntry(worlds, steps, m, key) {
      }
    }
  }

  /**
   A leak is enough to lose it: any run whose last step leaked its entry extends by one response,
   with nothing failing, to a run whose SNATs no longer have redirects of their own.
   */
  lemma LeakBreaksJustification(worlds: seq<World>, steps: seq<Step>) returns (worlds': seq<World>, steps': seq<Step>)
    requires IsRun(worlds, steps) && StartsEmpty(worlds) && steps != [] && Leaks(worlds, steps, |steps| - 1)
    ensures IsRun(worlds', steps') && StartsEmpty(worlds') && |steps'| == |steps| + 1
    ensures worlds <= worlds' && steps <= steps' && !DeleteFails(steps'[|steps|])
    ensures Reuses(worlds', steps', |steps| - 1, |steps|)
    ensures LogOf(worlds', steps').Valid() && !LogOf(worlds', steps').OwnJustified()
  {
    var n := |steps|;
    assert worlds[n - 1 + 1] == Next(worlds[n - 1], steps[n - 1]);
    var step := LeakIsAnswered(worlds[n - 1], steps[n - 1]);
    worlds', steps' := RunExtended(worlds, steps, step);
    NextAnswerReuses(worlds', steps', n - 1);
    OwnJustifiedIff(worlds', steps');
  }

  lemma NextAnswerReuses(worlds: seq<World>, steps: seq<Step>, i: nat)
    requires i + 1 < |steps| < |worlds| && Leaks(worlds, steps, i)
    requires EventAt(worlds, steps, i + 1).Snat?
    requires EventAt(worlds, steps, i + 1).key == EventAt(worlds, steps, i).key
    ensures Reuses(worlds, steps, i, i + 1)
  {
  }

  /** After a leak, an answer on the same connection is rewritten with nothing failing. */
  lemma LeakIsAnswered(w: World, leak: Step) returns (step: Step)
    requires DeleteFails(leak) && (Effect(w, leak).event.Snat? || Effect(w, leak).event.RedirectFailed?)
    ensures step.Leave? && !DeleteFails(step)
    ensures Effect(Next(w, leak), step).event.Snat?
    ensures Effect(Next(w, leak), step).event.key == Effect(w, leak).event.key
  {
    var event, w' := Effect(w, leak).event, Next(w, leak);
    StepMoves(w, leak);
    LeakIsFresh(w.state.conntrack, w.now, event, w'.state.conntrack);
    step := Leave(AnswerFor(w'.state.config, event.key), NoFaults());
    AnswerParses(w'.state.config, event.key);
    FreshEntryAnswers(w'.state, step.packet, w'.now, step.faults);
  }

  lemma RunExtended(worlds: seq<World>, steps: seq<Step>, step: Step) returns (worlds': seq<World>, steps': seq<Step>)
    requires IsRun(worlds, steps) && !step.Tick?
    ensures worlds' == worlds + [Next(worlds[|steps|], step)] && steps' == steps + [step]
    ensures IsRun(worlds', steps')
  {
    worlds', steps' := worlds + [Next(worlds[|steps|], step)], steps + [step];
  }

  // ----- Bypass drains

  lemma BypassStep(w: World, step: Step)
    requires w.state.config.bypass != 0
    ensures SubTable(Next(w, step).state.conntrack, w.state.conntrack)
    ensures !Effect(w, step).event.Redirect?
  {
    if step.Arrive? {
      IngressMoves(w.state, step.packet, w.now, step.faults);
    } else if step.Leave? {
      EgressMoves(w.state, step.packet, w.now, step.faults);
    }
  }

  /** While bypass is set the table never gains an entry, whatever fails. */
  lemma {:induction false} BypassTableShrinks(worlds: seq<World>, steps: seq<Step>, n: nat, m: nat)
    requires IsRun(worlds, steps) && n <= m < |worlds|
    requires forall i :: n <= i < m ==> worlds[i].state.config.bypass != 0
    ensures SubTable(worlds[m].state.conntrack, worlds[n].state.conntrack)
    decreases m - n
  {
    if n < m {
      BypassTableShrinks(worlds, steps, n, m - 1);
      BypassStep(worlds[m - 1], steps[m - 1]);
      assert worlds[m - 1 + 1] == Next(worlds[m - 1], steps[m - 1]);
    }
  }

  /**
   Bypass drains: if it is set at `n` and stays set, then more than five seconds later
   neither program changes a byte of any packet.
   */
  lemma BypassDrains(worlds: seq<World>, steps: seq<Step>, n: nat, m: nat)
    requires IsRun(worlds, steps) && StartsEmpty(worlds) && n <= m < |steps|
    requires forall i :: n <= i <= m ==> worlds[i].state.config.bypass != 0
    requires worlds[m].now > worlds[n].now + CONNTRACK_TTL_NS
    requires steps[m].Arrive? || steps[m].Leave?
    ensures Effect(worlds[m], steps[m]).packet == steps[m].packet
    ensures Effect(worlds[m], steps[m]).event == Passed
  {
    var w := worlds[m];
    BypassTableShrinks(worlds, steps, n, m);
    RunHasNoFuture(worlds, steps, n);
    RunHasNoFuture(worlds, steps, m);
    if steps[m].Arrive? {
      IngressMoves(w.state, steps[m].packet, w.now, steps[m].faults);
    } else {
      StaleEntriesPass(w.state, steps[m].packet, w.now, steps[m].faults);
    }
  }

  lemma StaleEntriesPass(s: State, p: Packet, now: nat, f: Faults)
    requires forall key :: key in s.conntrack ==> Age(now, s.conntrack[key].timestamp) > CONNTRACK_TTL_NS
    ensures EgressStep(s, p, now, f).packet == p && EgressStep(s, p, now, f).event == Passed
  {
  }

  // ----- Delivery

  /** The event is a redirect attempt or a SNAT of the connection. */
  predicate Concerns(event: Event, key: CtKey) {
    (event.Redirect? || event.RedirectFailed? || event.Snat?) && event.key == key
  }

  predicate SameEntry(a: Conntrack, b: Conntrack, key: CtKey) {
    (key in a <==> key in b) && (key in a ==> a[key] == b[key])
  }

  lemma EgressKeepsFresh(s: State, p: Packet, now: nat, f: Faults, key: CtKey)
    requires key in s.conntrack && Age(now, s.conntrack[key].timestamp) <= CONNTRACK_TTL_NS
    requires !Concerns(EgressStep(s, p, now, f).event, key)
    ensures SameEntry(s.conntrack, EgressStep(s, p, now, f).state.conntrack, key)
  {
  }

  /** A fresh entry outlives every step but its eviction, a redirect attempt and its own SNAT. */
  lemma StepKeepsFresh(w: World, step: Step, key: CtKey)
    requires key in w.state.conntrack && Age(w.now, w.state.conntrack[key].timestamp) <= CONNTRACK_TTL_NS
    requires step != Evict(key) && !Concerns(Effect(w, step).event, key)
    ensures SameEntry(w.state.conntrack, Next(w, step).state.conntrack, key)
  {
    if step.Arrive? {
      IngressMoves(w.state, step.packet, w.now, step.faults);
    } else if step.Leave? {
      EgressKeepsFresh(w.state, step.packet, w.now, step.faults, key);
    }
  }

  predicate Holds(w: World, key: CtKey, value: CtVal) {
    key in w.state.conntrack && w.state.conntrack[key] == value
  }

  lemma {:induction false} HeldAlong(worlds: seq<World>, i: nat, j: nat, key: CtKey, value: CtVal)
    requires i <= j < |worlds| && Holds(worlds[i], key, value)
    requires forall m :: i <= m < j && Holds(worlds[m], key, value) ==> Holds(worlds[m + 1], key, value)
    ensures Holds(worlds[j], key, value)
    decreases j - i
  {
    if i < j {
      HeldAlong(worlds, i, j - 1, key, value);
      assert Holds(worlds[j - 1 + 1], key, value);
    }
  }

  lemma FreshEntrySurvives(worlds: seq<World>, steps: seq<Step>, i: nat, j: nat, key: CtKey, value: CtVal)
    requires IsRun(worlds, steps) && i <= j < |worlds| && Holds(worlds[i], key, value)
    requires value.timestamp <= worlds[i].now && worlds[j].now <= value.timestamp + CONNTRACK_TTL_NS
    requires forall m :: i <= m < j ==> steps[m] != Evict(key) && !Concerns(EventAt(worlds, steps, m), key)
    ensures Holds(worlds[j], key, value)
  {
    forall m | i <= m < j && Holds(worlds[m], key, value) ensures Holds(worlds[m + 1], key, value) {
      ClockMonotone(worlds, steps, i, m);
      ClockMonotone(worlds, steps, m, j);
      AgeIsDifference(worlds[m].now, value.timestamp);
      StepKeepsFresh(worlds[m], steps[m], key);
    }
    HeldAlong(worlds, i, j, key, value);
  }

  predicate HelpersWork(f: Faults) {
    !f.noConfig && !f.rewrite.store && !f.rewrite.l3 && !f.rewrite.l4
  }

  /** The response in `step` goes on to the pod as if it came from `queried`. */
  predicate AnsweredFrom(w: World, step: Step, key: CtKey, queried: Addr) {
    && step.Leave? && IsUdp(step.packet)
    && Effect(w, step).event == Snat(key, queried)
    && Effect(w, step).packet ==
       Rewritten(step.packet, SADDR, UdpOff(step.packet) + 6, AddrAt(step.packet, SADDR), queried)
  }

  /**
   Delivery: after a redirect at `i`, a response from the configured resolver that arrives at
   `j` within five seconds is sent on with the queried address as its source.  In between
   anything may happen except an eviction, another redirect attempt or a SNAT of the same
   connection; in particular bypass flips, rule updates and earlier failed attempts to rewrite
   the same response do not matter.
   */
  lemma ResponseIsDelivered(worlds: seq<World>, steps: seq<Step>, i: nat, j: nat, key: CtKey, queried: Addr)
    requires IsRun(worlds, steps) && i < j < |steps| && EventAt(worlds, steps, i) == Redirect(key, queried)
    requires steps[j].Leave? && FromResolver(steps[j].packet, worlds[j].state.config)
    requires ResponseKey(steps[j].packet) == key
    requires worlds[j].now <= worlds[i].now + CONNTRACK_TTL_NS
    requires forall m :: i < m < j ==> steps[m] != Evict(key) && !Concerns(EventAt(worlds, steps, m), key)
    requires HelpersWork(steps[j].faults)
    ensures AnsweredFrom(worlds[j], steps[j], key, queried)
  {
    StepMoves(worlds[i], steps[i]);
    assert worlds[i + 1] == Next(worlds[i], steps[i]);
    ClockMonotone(worlds, steps, i, i + 1);
    ClockMonotone(worlds, steps, i, j);
    FreshEntrySurvives(worlds, steps, i + 1, j, key, CtVal(queried, worlds[i].now));
    RememberedIsAnswered(worlds[j], steps[j], key, queried, worlds[i].now);
  }

  lemma RememberedIsAnswered(w: World, step: Step, key: CtKey, queried: Addr, stamp: nat)
    requires step.Leave? && FromResolver(step.packet, w.state.config) && ResponseKey(step.packet) == key
    requires key in w.state.conntrack && w.state.conntrack[key] == CtVal(queried, stamp)
    requires stamp <= w.now <= stamp + CONNTRACK_TTL_NS && w.now < TWO64 && HelpersWork(step.faults)
    ensures AnsweredFrom(w, step, key, queried)
  {
    AgeIsDifference(w.now, stamp);
    FreshEntryAnswers(w.state, step.packet, w.now, step.faults);
  }

  /** A redirect is recorded under the query's own connection and the address it was sent to. */
  lemma RedirectNamesDestination(s: State, p: Packet, now: nat, f: Faults)
    requires IngressStep(s, p, now, f).event.Redirect?
    ensures ToService(p, s.config) && HasDnsHeader(p)
    ensures IngressStep(s, p, now, f).event == Redirect(QueryKey(p), AddrAt(p, DADDR))
    ensures IngressStep(s, p, now, f).packet ==
            Rewritten(p, DADDR, UdpOff(p) + 6, AddrAt(p, DADDR), s.config.hostResolverIp)
  {
    AllOrNothing(p, DADDR, UdpOff(p) + 6, s.config.hostResolverIp, f.rewrite);
  }

  lemma FreshEntryAnswers(s: State, p: Packet, now: nat, f: Faults)
    requires FromResolver(p, s.config) && HelpersWork(f)
    requires ResponseKey(p) in s.conntrack && Age(now, s.conntrack[ResponseKey(p)].timestamp) <= CONNTRACK_TTL_NS
    ensures var shown := s.conntrack[ResponseKey(p)].corednsIp;
            && EgressStep(s, p, now, f).event == Snat(ResponseKey(p), shown)
            && EgressStep(s, p, now, f).packet == Rewritten(p, SADDR, UdpOff(p) + 6, AddrAt(p, SADDR), shown)
  {
    SuccessRewrites(p, SADDR, UdpOff(p) + 6, s.conntrack[ResponseKey(p)].corednsIp, f.rewrite);
  }
}
