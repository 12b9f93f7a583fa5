/** Ingress with the rules installed: which queries are redirected, and a complete round trip. */
module RuleRuns {
  import opened Bytes
  import opened WireFormat
  import opened Checksum
  import opened NatRewrite
  import opened RuleTable
  import opened NameMatcher
  import opened Datapath
  import opened Packets
  import opened Runs

  // ----- Ingress follows the rules

  predicate AllHelpersWork(f: Faults) {
    HelpersWork(f) && !f.noScratch && !f.insert
  }

  /** A well-formed query for the service. */
  predicate IsQuery(p: Packet, config: Config) {
    ToService(p, config) && HasDnsHeader(p) && !IsResponse(p) && OneQuestion(p)
  }

  /** The counters after one answered question: seen, matched or not, redirected or kept. */
  function Tally(c: Counters, matched: bool, redirected: bool): Counters {
    c.(total := c.total + 1, dnsQueries := c.dnsQueries + 1,
       suffixMatch := if matched then c.suffixMatch + 1 else c.suffixMatch,
       suffixNoMatch := if matched then c.suffixNoMatch else c.suffixNoMatch + 1,
       redirected := if redirected then c.redirected + 1 else c.redirected,
       clusterResolved := if redirected then c.clusterResolved else c.clusterResolved + 1)
  }

  lemma ActOutcome(s: State, p: Packet, now: nat, f: Faults, action: nat, matched: bool)
    requires ToService(p, s.config) && HasDnsHeader(p) && AllHelpersWork(f)
    ensures var r := ActStep(CountQuery(s), p, Resolved(action, matched), now, f);
            && r.event == (if action == HOST_RESOLVE then Redirect(QueryKey(p), AddrAt(p, DADDR)) else Passed)
            && r.state.counters == Tally(s.counters, matched, action == HOST_RESOLVE)
  {
  }

  lemma QueryOutcome(s: State, p: Packet, now: nat, f: Faults, action: nat, matched: bool)
    requires IsQuery(p, s.config) && s.config.bypass == 0 && AllHelpersWork(f) && Question(p) != []
    requires Resolve(Question(p), s.rules, s.config.defaultAction) == Resolved(action, matched)
    ensures var r := IngressStep(s, p, now, f);
            && r.event == (if action == HOST_RESOLVE then Redirect(QueryKey(p), AddrAt(p, DADDR)) else Passed)
            && r.state.counters == Tally(s.counters, matched, action == HOST_RESOLVE)
  {
    ActOutcome(s, p, now, f, action, matched);
    assert IngressStep(s, p, now, f) == ActStep(CountQuery(s), p, Resolved(action, matched), now, f);
  }

  /**
   With the rules installed and nothing failing, a query of one to ten labels leaves for
   the resolver exactly when the documented rule says host-resolve; otherwise it passes
   unchanged.  The counters say which rule decided and what was done.
   */
  lemma IngressFollowsRules(s: State, ruleList: seq<Rule>, p: Packet, now: nat, f: Faults, labels: seq<Label>,
                            action: nat, matched: bool)
    requires Installable(ruleList) && s.rules == Desired(ruleList) && s.config.bypass == 0
    requires IsQuery(p, s.config) && AllHelpersWork(f)
    requires NameAt(Question(p), 0, labels) && 1 <= |labels| <= MAX_LABELS
    requires Decides(ruleList, s.config.defaultAction, labels, action, matched)
    ensures var r := IngressStep(s, p, now, f);
            && r.state.counters == Tally(s.counters, matched, action == HOST_RESOLVE)
            && (if action == HOST_RESOLVE then
                  && r.event == Redirect(QueryKey(p), AddrAt(p, DADDR))
                  && r.packet == Rewritten(p, DADDR, UdpOff(p) + 6, AddrAt(p, DADDR), s.config.hostResolverIp)
                else r.event == Passed && r.packet == p && r.state.conntrack == s.conntrack)
  {
    MatchRefinesSpec(ruleList, s.config.defaultAction, Question(p), labels, action, matched);
    QueryOutcome(s, p, now, f, action, matched);
    if action == HOST_RESOLVE {
      RedirectNamesDestination(s, p, now, f);
    } else {
      IngressMoves(s, p, now, f);
    }
  }

  /** Whatever fails, only a query that resolves to host-resolve, with bypass off, makes ingress act. */
  lemma AttemptWasResolved(s: State, p: Packet, now: nat, f: Faults)
    requires IngressStep(s, p, now, f).event != Passed
    ensures s.config.bypass == 0 && IsQuery(p, s.config)
    ensures var r := Resolve(Question(p), s.rules, s.config.defaultAction); r.Resolved? && r.action == HOST_RESOLVE
  {
    assert Handled(s, p, f);
    IngressIsQuery(s, p, now, f);
    if Asked(p, f) {
      QueryIsAct(CountQuery(s), p, now, f);
    } else {
      QueryIgnored(CountQuery(s), p, now, f);
    }
  }

  /**
   With the rules installed, whatever fails, ingress touches a query of one to ten labels, or the
   table for it, only if bypass is off and the documented rule says host-resolve.
   */
  lemma OnlyHostNamesLeave(s: State, ruleList: seq<Rule>, p: Packet, now: nat, f: Faults, labels: seq<Label>)
    requires Installable(ruleList) && s.rules == Desired(ruleList)
    requires IsQuery(p, s.config) && NameAt(Question(p), 0, labels) && 1 <= |labels| <= MAX_LABELS
    requires var r := IngressStep(s, p, now, f);
             r.event != Passed || r.packet != p || r.state.conntrack != s.conntrack
    ensures s.config.bypass == 0
    ensures exists matched :: Decides(ruleList, s.config.defaultAction, labels, HOST_RESOLVE, matched)
  {
    IngressMoves(s, p, now, f);
    AttemptWasResolved(s, p, now, f);
    var r := Resolve(Question(p), s.rules, s.config.defaultAction);
    MatchRefinesSpec(ruleList, s.config.defaultAction, Question(p), labels, HOST_RESOLVE, r.matched);
  }

  /**
   A redirect whose rewrite failed and was undone leaves no entry for its connection if the entry's
   removal worked.  The packet goes to CoreDNS byte for byte as it came exactly when the undo did not
   have to go through an IP checksum of 0xFFFF.
   */
  lemma FailedRedirectLeavesNoTrace(s: State, p: Packet, now: nat, f: Faults)
    requires var event := IngressStep(s, p, now, f).event; event.RedirectFailed? && event.rc == -1
    ensures IsUdp(p) && HasDnsHeader(p)
    ensures IngressStep(s, p, now, f).packet == p <==> f.rewrite.store || f.rewrite.l3 || WordAt(p, IP_CSUM) != ONES
    ensures IngressStep(s, p, now, f).state.conntrack == s.conntrack - {QueryKey(p)} <==> !f.delete
  {
    AllOrNothing(p, DADDR, UdpOff(p) + 6, s.config.hostResolverIp, f.rewrite);
  }

  // ----- Checksums

  /** `q` is `p` readdressed, with both checksums as valid as they were, wherever the datagram ends. */
  ghost predicate Readdressed(p: Packet, q: Packet, addrOff: nat, to: Addr) {
    && IsUdp(p) && |q| == |p| && (addrOff == SADDR || addrOff == DADDR)
    && forall end :: UdpOff(p) + 8 <= end <= |p| ==> ChecksumsKept(p, q, p[ETH_HLEN] % 16, end, addrOff, to)
  }

  lemma RewrittenReaddresses(p: Packet, q: Packet, addrOff: nat, to: Addr)
    requires IsUdp(p) && (addrOff == SADDR || addrOff == DADDR)
    requires q == Rewritten(p, addrOff, UdpOff(p) + 6, AddrAt(p, addrOff), to)
    ensures Readdressed(p, q, addrOff, to)
  {
    forall end | UdpOff(p) + 8 <= end <= |p| ensures ChecksumsKept(p, q, p[ETH_HLEN] % 16, end, addrOff, to) {
      RewriteKeepsChecksums(p, p[ETH_HLEN] % 16, end, addrOff, to);
    }
  }

  /** A redirected query keeps its checksums and names the VPC resolver. */
  lemma RedirectKeepsChecksums(s: State, p: Packet, now: nat, f: Faults, q: Packet)
    requires IngressStep(s, p, now, f).event.Redirect? && q == IngressStep(s, p, now, f).packet
    ensures Readdressed(p, q, DADDR, s.config.hostResolverIp)
  {
    RedirectNamesDestination(s, p, now, f);
    RewrittenReaddresses(p, q, DADDR, s.config.hostResolverIp);
  }

  lemma SnatShowsQueried(s: State, p: Packet, now: nat, f: Faults)
    requires EgressStep(s, p, now, f).event.Snat?
    ensures IsUdp(p)
    ensures EgressStep(s, p, now, f).packet ==
            Rewritten(p, SADDR, UdpOff(p) + 6, AddrAt(p, SADDR), EgressStep(s, p, now, f).event.shown)
  {
    AllOrNothing(p, SADDR, UdpOff(p) + 6, EgressStep(s, p, now, f).event.shown, f.rewrite);
  }

  /** A rewritten response keeps its checksums and names the address that was queried. */
  lemma SnatKeepsChecksums(s: State, p: Packet, now: nat, f: Faults, q: Packet, shown: Addr)
    requires EgressStep(s, p, now, f).event.Snat? && q == EgressStep(s, p, now, f).packet
    requires shown == EgressStep(s, p, now, f).event.shown
    ensures Readdressed(p, q, SADDR, shown)
  {
    SnatShowsQueried(s, p, now, f);
    RewrittenReaddresses(p, q, SADDR, shown);
  }

  // ----- Complete round trips

  /** From an empty table, a query that resolves to host-resolve. */
  predicate AtHostQuery(w: World, query: Packet) {
    && w.now < TWO64 && w.state.conntrack == map[] && w.state.config.bypass == 0
    && IsQuery(query, w.state.config) && Question(query) != []
    && var r := Resolve(Question(query), w.state.rules, w.state.config.defaultAction);
       r.Resolved? && r.action == HOST_RESOLVE
  }

  lemma HostQueryRedirects(w: World, query: Packet)
    requires AtHostQuery(w, query)
    ensures var step := Arrive(query, NoFaults());
            && Effect(w, step).event == Redirect(QueryKey(query), AddrAt(query, DADDR))
            && Next(w, step).now == w.now && Next(w, step).state.config == w.state.config
            && Next(w, step).state.conntrack == map[QueryKey(query) := CtVal(AddrAt(query, DADDR), w.now)]
  {
    var r := Resolve(Question(query), w.state.rules, w.state.config.defaultAction);
    QueryOutcome(w.state, query, w.now, NoFaults(), HOST_RESOLVE, r.matched);
    IngressMoves(w.state, query, w.now, NoFaults());
  }

  lemma AnswerFollowsQuery(w: World, query: Packet, f: Faults)
    requires AtHostQuery(w, query) && HelpersWork(f)
    ensures var key := QueryKey(query);
            var leave := Leave(AnswerFor(w.state.config, key), f);
            AnsweredFrom(Next(w, Arrive(query, NoFaults())), leave, key, AddrAt(query, DADDR))
  {
    var key := QueryKey(query);
    HostQueryRedirects(w, query);
    AnswerParses(w.state.config, key);
    RememberedIsAnswered(Next(w, Arrive(query, NoFaults())), Leave(AnswerFor(w.state.config, key), f), key,
                         AddrAt(query, DADDR), w.now);
  }

  lemma TwoSteps(w: World, a: Step, b: Step) returns (worlds: seq<World>, steps: seq<Step>)
    requires w.now < TWO64 && !a.Tick? && !b.Tick?
    ensures IsRun(worlds, steps) && steps == [a, b] && |worlds| == 3 && worlds[0] == w && worlds[1] == Next(w, a)
  {
    worlds, steps := RunExtended([w], [], a);
    worlds, steps := RunExtended(worlds, steps, b);
  }

  /** A query, and then its answer: the one is redirected and the other comes back from the queried address. */
  lemma QueryThenAnswer(w: World, query: Packet, f: Faults) returns (worlds: seq<World>, steps: seq<Step>)
    requires AtHostQuery(w, query) && HelpersWork(f)
    ensures IsRun(worlds, steps) && StartsEmpty(worlds) && worlds[0] == w
    ensures steps == [Arrive(query, NoFaults()), Leave(AnswerFor(w.state.config, QueryKey(query)), f)]
    ensures EventAt(worlds, steps, 0) == Redirect(QueryKey(query), AddrAt(query, DADDR))
    ensures AnsweredFrom(worlds[1], steps[1], QueryKey(query), AddrAt(query, DADDR))
  {
    HostQueryRedirects(w, query);
    AnswerFollowsQuery(w, query, f);
    worlds, steps := TwoSteps(w, Arrive(query, NoFaults()), Leave(AnswerFor(w.state.config, QueryKey(query)), f));
  }

  predicate DeletionFails(f: Faults) {
    f == NoFaults().(delete := true)
  }

  /** A longer run has the same events as its beginning. */
  lemma SameEvent(worlds: seq<World>, steps: seq<Step>, worlds': seq<World>, steps': seq<Step>, i: nat)
    requires i < |steps| < |worlds| && worlds <= worlds' && steps <= steps'
    ensures EventAt(worlds', steps', i) == EventAt(worlds, steps, i)
  {
  }

  /** If only the deletion that ends the SNAT fails, one redirect gets two answers. */
  lemma OneRedirectTwoAnswers(w: World, query: Packet, f: Faults) returns (worlds: seq<World>, steps: seq<Step>)
    requires AtHostQuery(w, query) && DeletionFails(f)
    ensures IsRun(worlds, steps) && StartsEmpty(worlds) && |steps| == 3 && worlds[0] == w
    ensures EventAt(worlds, steps, 0).Redirect? && EventAt(worlds, steps, 1).Snat? && EventAt(worlds, steps, 2).Snat?
  {
    var worlds2, steps2 := QueryThenAnswer(w, query, f);
    worlds, steps := LeakBreaksJustification(worlds2, steps2);
    SameEvent(worlds2, steps2, worlds, steps, 0);
    SameEvent(worlds2, steps2, worlds, steps, 1);
  }

  /** If the rewrite and the deletion that undoes its entry both fail, an answer comes without any redirect. */
  lemma AnswerWithoutRedirect(w: World, query: Packet, f: Faults) returns (worlds: seq<World>, steps: seq<Step>)
    requires AtHostQuery(w, query)
    requires f == NoFaults().(delete := true, rewrite := NatFaults(true, false, false, false, false))
    ensures IsRun(worlds, steps) && StartsEmpty(worlds) && |steps| == 2 && worlds[0] == w
    ensures EventAt(worlds, steps, 0).RedirectFailed? && EventAt(worlds, steps, 1).Snat?
  {
    var r := Resolve(Question(query), w.state.rules, w.state.config.defaultAction);
    var arrive := Arrive(query, f);
    QueryFails(w.state, query, w.now, f, r.matched);
    var worlds1, steps1 := [w, Next(w, arrive)], [arrive];
    assert EventAt(worlds1, steps1, 0) == Effect(w, arrive).event;
    worlds, steps := LeakBreaksJustification(worlds1, steps1);
    SameEvent(worlds1, steps1, worlds, steps, 0);
  }

  lemma QueryFails(s: State, p: Packet, now: nat, f: Faults, matched: bool)
    requires IsQuery(p, s.config) && s.config.bypass == 0 && Question(p) != []
    requires !f.noConfig && !f.noScratch && !f.insert && f.rewrite.store
    requires Resolve(Question(p), s.rules, s.config.defaultAction) == Resolved(HOST_RESOLVE, matched)
    ensures IngressStep(s, p, now, f).event == RedirectFailed(QueryKey(p), AddrAt(p, DADDR), -1)
  {
    IngressIsQuery(s, p, now, f);
    QueryIsAct(CountQuery(s), p, now, f);
  }

  /** Such a query exists: one for "a" under a host-resolve default. */
  lemma SampleQuery(counters: Counters) returns (w: World, query: Packet)
    ensures AtHostQuery(w, query)
  {
    var pod, c := Addr(10, 0, 0, 9), Config(Addr(10, 96, 0, 10), Addr(10, 0, 0, 2), 53, 0, HOST_RESOLVE);
    w := World(0, State(c, map[], map[], counters));
    query := MakePacket(pod, c.corednsIp, 40000, 53, 0x1234, 1, [1, 97, 0]);
    MadeFields(pod, c.corednsIp, 40000, 53, 0x1234, 1, [1, 97, 0]);
    FieldsParse(query, pod, c.corednsIp, 40000, 53, 0x1234);
    SampleResolves();
  }

  lemma SampleResolves()
    ensures Resolve([1, 97, 0], map[], HOST_RESOLVE) == Resolved(HOST_RESOLVE, false)
  {
    var window: seq<byte> := [1, 97, 0];
    var labels: seq<Label> := [[97]];
    WireLabelsOne([97]);
    assert window[..2] == WireLabels(labels);
    ResolveHeld(window, labels, map[], HOST_RESOLVE);
  }
}
