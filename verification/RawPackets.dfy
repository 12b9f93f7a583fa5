/** Which packets the two programs act on, byte for byte, and what they make of them. */
module RawPackets {
  import opened Bytes
  import opened WireFormat
  import opened Checksum
  import opened NatRewrite
  import opened RuleTable
  import opened NameMatcher
  import opened Datapath
  import opened Runs
  import opened RuleRuns

  // ----- Bytes

  function Quad(a: Addr): seq<byte> {
    [a.b0, a.b1, a.b2, a.b3]
  }

  function Pair(hi: byte, lo: byte): word {
    hi as int * 256 + lo
  }

  /**
   An IPv4 UDP datagram in one piece, with an IP header of `ihl` words, options included.  The
   reserved and the don't-fragment bit are free.
   */
  predicate Datagram(p: Packet, ihl: nat) {
    && 5 <= ihl <= 15 && |p| >= 14 + 4 * ihl + 8
    && p[12] == 0x08 && p[13] == 0x00
    && p[14] % 16 == ihl
    && p[20] in {0x00, 0x40, 0x80, 0xC0} && p[21] == 0
    && p[23] == 17
  }

  /** A datagram to the service with a DNS header that is a query for one question. */
  predicate QueryBytes(p: Packet, ihl: nat, c: Config) {
    && Datagram(p, ihl)
    && var u := 14 + 4 * ihl;
       && |p| >= u + 20
       && p[30..34] == Quad(c.corednsIp)
       && Pair(p[u + 2], p[u + 3]) == c.dnsPort
       && p[u + 10] < 128
       && p[u + 12] == 0 && p[u + 13] == 1
  }

  /** A datagram from the VPC resolver's DNS port with room for a DNS header. */
  predicate AnswerBytes(p: Packet, ihl: nat, c: Config) {
    && Datagram(p, ihl)
    && var u := 14 + 4 * ihl;
       && |p| >= u + 20
       && p[26..30] == Quad(c.hostResolverIp)
       && Pair(p[u], p[u + 1]) == c.dnsPort
  }

  /** Source address, source port and transaction id. */
  function Asker(p: Packet, ihl: nat): CtKey
    requires |p| >= 14 + 4 * ihl + 20 && ihl >= 5
  {
    var u := 14 + 4 * ihl;
    CtKey(Addr(p[26], p[27], p[28], p[29]), Pair(p[u], p[u + 1]), Pair(p[u + 8], p[u + 9]))
  }

  /** Destination address, destination port and transaction id. */
  function AnsweredTo(p: Packet, ihl: nat): CtKey
    requires |p| >= 14 + 4 * ihl + 20 && ihl >= 5
  {
    var u := 14 + 4 * ihl;
    CtKey(Addr(p[30], p[31], p[32], p[33]), Pair(p[u + 2], p[u + 3]), Pair(p[u + 8], p[u + 9]))
  }

  lemma FragmentBits(hi: byte, lo: byte)
    ensures Pair(hi, lo) % 0x4000 == 0 <==> hi in {0x00, 0x40, 0x80, 0xC0} && lo == 0
  {
  }

  lemma QuadIff(p: Packet, off: nat, a: Addr)
    requires off + 4 <= |p|
    ensures p[off..off + 4] == Quad(a) <==> AddrAt(p, off) == a
  {
    var four := p[off..off + 4];
    assert four == [four[0], four[1], four[2], four[3]];
  }

  /** The datagrams that the programs parse are exactly these. */
  lemma ParsedIff(p: Packet, ihl: nat)
    ensures Datagram(p, ihl) <==> IsUdp(p) && p[14] % 16 == ihl
    ensures Datagram(p, ihl) ==> UdpOff(p) == 14 + 4 * ihl
  {
    if |p| >= 22 {
      FragmentBits(p[20], p[21]);
    }
  }

  lemma QueryParsedIff(p: Packet, ihl: nat, c: Config)
    ensures QueryBytes(p, ihl, c) <==> IsQuery(p, c) && p[14] % 16 == ihl
    ensures QueryBytes(p, ihl, c) ==> QueryKey(p) == Asker(p, ihl)
  {
    ParsedIff(p, ihl);
    if |p| >= 34 {
      QuadIff(p, 30, c.corednsIp);
    }
  }

  lemma AnswerParsedIff(p: Packet, ihl: nat, c: Config)
    ensures AnswerBytes(p, ihl, c) <==> FromResolver(p, c) && p[14] % 16 == ihl
    ensures AnswerBytes(p, ihl, c) ==> ResponseKey(p) == AnsweredTo(p, ihl)
  {
    ParsedIff(p, ihl);
    if |p| >= 34 {
      QuadIff(p, 26, c.hostResolverIp);
    }
  }

  // ----- Ingress

  /** The packet and the table stay as they were. */
  predicate Untouched(s: State, p: Packet, r: Outcome) {
    r.event == Passed && r.packet == p && r.state.conntrack == s.conntrack
  }

  /** None of the helpers that ingress needs before the rewrite fails, and bypass is off. */
  predicate IngressRuns(s: State, f: Faults) {
    !f.noConfig && !f.noScratch && !f.insert && s.config.bypass == 0
  }

  predicate RewriteWorks(f: NatFaults) {
    !f.store && !f.l3 && !f.l4
  }

  /** Whatever fails, ingress touches nothing but queries for the service, and those only with bypass off. */
  lemma OnlyQueriesTouched(s: State, p: Packet, now: nat, f: Faults, r: Outcome)
    requires r == IngressStep(s, p, now, f) && !Untouched(s, p, r)
    ensures |p| > 14 && QueryBytes(p, p[14] % 16, s.config) && IngressRuns(s, f)
  {
    IngressMoves(s, p, now, f);
    AttemptWasResolved(s, p, now, f);
    QueryParsedIff(p, p[14] % 16, s.config);
    AttemptNeedsHelpers(s, p, now, f);
  }

  lemma AttemptNeedsHelpers(s: State, p: Packet, now: nat, f: Faults)
    requires IngressStep(s, p, now, f).event != Passed
    ensures IngressRuns(s, f)
  {
    assert Handled(s, p, f);
    IngressIsQuery(s, p, now, f);
    if Runs.Asked(p, f) {
      QueryIsAct(CountQuery(s), p, now, f);
    } else {
      QueryIgnored(CountQuery(s), p, now, f);
    }
  }

  /** The question of the query spells `labels`, within the first 128 bytes. */
  predicate Names(p: Packet, ihl: nat, labels: seq<Label>) {
    && 1 <= |labels| <= 10 && (forall i :: 0 <= i < |labels| ==> 1 <= |labels[i]| <= 63)
    && var q, wire := 14 + 4 * ihl + 20, WireLabels(labels) + [0];
       |wire| <= 128 && q + |wire| <= |p| && p[q..q + |wire|] == wire
  }

  lemma NamesQuestion(p: Packet, ihl: nat, c: Config, labels: seq<Label>)
    requires QueryBytes(p, ihl, c) && Names(p, ihl, labels)
    ensures IsUdp(p) && HasDnsHeader(p) && NameAt(Question(p), 0, labels) && Question(p) != []
  {
    QueryParsedIff(p, ihl, c);
    ParsedIff(p, ihl);
    var q, wire, n := 14 + 4 * ihl + 20, WireLabels(labels) + [0], |WireLabels(labels)|;
    assert Question(p)[..|wire|] == p[q..q + |wire|] == wire;
    assert Question(p)[0..n] == wire[..n] == WireLabels(labels);
    assert Question(p)[n] == wire[n] == 0;
  }

  /** The documented rule says host-resolve for the name. */
  ghost predicate HostDecided(ruleList: seq<Rule>, default: nat, labels: seq<Label>) {
    exists matched :: Decides(ruleList, default, labels, HOST_RESOLVE, matched)
  }

  /** The question resolves to host-resolve. */
  predicate ResolvesToHost(s: State, p: Packet)
    requires IsUdp(p) && HasDnsHeader(p)
  {
    var r := Resolve(Question(p), s.rules, s.config.defaultAction); r.Resolved? && r.action == HOST_RESOLVE
  }

  lemma RedirectExactly(s: State, p: Packet, now: nat, f: Faults)
    requires ToService(p, s.config) && HasDnsHeader(p) && !f.insert
    ensures var event := RedirectStep(s, p, now, f).event;
            if RewriteWorks(f.rewrite) then event.Redirect? else event.RedirectFailed?
  {
    AllOrNothing(p, DADDR, UdpOff(p) + 6, s.config.hostResolverIp, f.rewrite);
  }

  /** What ingress attempts on a query with a question, under every pattern of failures. */
  lemma AttemptExactly(s: State, p: Packet, now: nat, f: Faults)
    requires IsQuery(p, s.config) && Question(p) != []
    ensures var event := IngressStep(s, p, now, f).event;
            if IngressRuns(s, f) && ResolvesToHost(s, p) then
              if RewriteWorks(f.rewrite) then event.Redirect? else event.RedirectFailed?
            else event == Passed
  {
    if IngressStep(s, p, now, f).event != Passed {
      AttemptNeedsHelpers(s, p, now, f);
      AttemptWasResolved(s, p, now, f);
    }
    if IngressRuns(s, f) && ResolvesToHost(s, p) {
      var r := Resolve(Question(p), s.rules, s.config.defaultAction);
      IngressIsQuery(s, p, now, f);
      QueryIsAct(CountQuery(s), p, now, f);
      assert IngressStep(s, p, now, f) == RedirectStep(CountChoice(CountQuery(s), r.matched), p, now, f);
      RedirectExactly(CountChoice(CountQuery(s), r.matched), p, now, f);
    }
  }

  /**
   A query for a name of one to ten labels, given by its bytes, is redirected exactly when bypass is
   off, no helper fails and the documented rule says host-resolve.  If only the rewrite fails, the
   attempt shows; in every other case the packet and the table stay as they were.
   */
  lemma QueryIsDecided(s: State, ruleList: seq<Rule>, p: Packet, ihl: nat, now: nat, f: Faults, labels: seq<Label>)
    requires Installable(ruleList) && s.rules == Desired(ruleList)
    requires QueryBytes(p, ihl, s.config) && Names(p, ihl, labels)
    ensures var r := IngressStep(s, p, now, f);
            if IngressRuns(s, f) && HostDecided(ruleList, s.config.defaultAction, labels) then
              if RewriteWorks(f.rewrite) then r.event.Redirect? else r.event.RedirectFailed?
            else r.event == Passed && r.packet == p && r.state.conntrack == s.conntrack
  {
    QueryParsedIff(p, ihl, s.config);
    NamesQuestion(p, ihl, s.config, labels);
    HostDecidedIff(s, ruleList, p, labels);
    AttemptExactly(s, p, now, f);
    IngressMoves(s, p, now, f);
  }

  lemma HostDecidedIff(s: State, ruleList: seq<Rule>, p: Packet, labels: seq<Label>)
    requires Installable(ruleList) && s.rules == Desired(ruleList) && 1 <= |labels| <= MAX_LABELS
    requires IsUdp(p) && HasDnsHeader(p) && NameAt(Question(p), 0, labels)
    ensures ResolvesToHost(s, p) <==> HostDecided(ruleList, s.config.defaultAction, labels)
  {
    var default, r := s.config.defaultAction, Resolve(Question(p), s.rules, s.config.defaultAction);
    if ResolvesToHost(s, p) {
      MatchRefinesSpec(ruleList, default, Question(p), labels, HOST_RESOLVE, r.matched);
    }
    if matched :| Decides(ruleList, default, labels, HOST_RESOLVE, matched) {
      MatchRefinesSpec(ruleList, default, Question(p), labels, HOST_RESOLVE, matched);
    }
  }

  /** A default action of 0, left by an older version, keeps unmatched names on CoreDNS. */
  lemma ZeroDefaultKeeps(s: State, ruleList: seq<Rule>, p: Packet, ihl: nat, now: nat, f: Faults, labels: seq<Label>)
    requires Installable(ruleList) && s.rules == Desired(ruleList) && s.config.defaultAction == 0
    requires QueryBytes(p, ihl, s.config) && Names(p, ihl, labels)
    requires forall i :: 0 <= i < |ruleList| ==> !Suits(ruleList[i], labels)
    ensures Untouched(s, p, IngressStep(s, p, now, f))
  {
    QueryIsDecided(s, ruleList, p, ihl, now, f, labels);
  }

  /** A redirected query: the VPC resolver in place of CoreDNS, and an entry for the asker that says so. */
  lemma RedirectBytes(s: State, p: Packet, now: nat, f: Faults)
    requires IngressStep(s, p, now, f).event.Redirect?
    ensures |p| > 14 && QueryBytes(p, p[14] % 16, s.config)
    ensures var r, key := IngressStep(s, p, now, f), Asker(p, p[14] % 16);
            && r.event == Redirect(key, s.config.corednsIp)
            && |r.packet| == |p| && r.packet[30..34] == Quad(s.config.hostResolverIp)
            && r.state.conntrack == s.conntrack[key := CtVal(s.config.corednsIp, now)]
  {
    var r := IngressStep(s, p, now, f);
    OnlyQueriesTouched(s, p, now, f, r);
    QueryParsedIff(p, p[14] % 16, s.config);
    IngressMoves(s, p, now, f);
    RedirectNamesDestination(s, p, now, f);
    RedirectKeepsChecksums(s, p, now, f, r.packet);
    ReaddressedBytes(p, r.packet, DADDR, s.config.hostResolverIp);
  }

  lemma ReaddressedBytes(p: Packet, q: Packet, addrOff: nat, to: Addr)
    requires Readdressed(p, q, addrOff, to)
    ensures |q| == |p| && q[addrOff..addrOff + 4] == Quad(to)
  {
    assert ChecksumsKept(p, q, p[ETH_HLEN] % 16, |p|, addrOff, to);
    QuadIff(q, addrOff, to);
  }

  // ----- Egress

  /** Whatever fails, egress touches nothing but packets from the VPC resolver that find an entry. */
  lemma OnlyAnswersTouched(s: State, p: Packet, now: nat, f: Faults, r: Outcome)
    requires r == EgressStep(s, p, now, f) && !Untouched(s, p, r)
    ensures |p| > 14 && AnswerBytes(p, p[14] % 16, s.config) && !f.noConfig
    ensures AnsweredTo(p, p[14] % 16) in s.conntrack
  {
    AnswerParsedIff(p, p[14] % 16, s.config);
  }

  /** An entry that was made no more than five seconds ago. */
  predicate Remembered(s: State, key: CtKey, now: nat) {
    key in s.conntrack && Age(now, s.conntrack[key].timestamp) <= 5_000_000_000
  }

  /**
   An answer from the VPC resolver, given by its bytes, is rewritten exactly when its connection is
   remembered and no helper fails, and then shows the address the entry names.  The entry goes when it
   is used or too old; otherwise packet and table stay, but for what a failed rewrite leaves.
   */
  lemma AnswerIsDecided(s: State, p: Packet, ihl: nat, now: nat, f: Faults)
    requires AnswerBytes(p, ihl, s.config)
    ensures var r, key := EgressStep(s, p, now, f), AnsweredTo(p, ihl);
            var found := !f.noConfig && Remembered(s, key, now);
            && (if !found then r.event == Passed && r.packet == p
                else if RewriteWorks(f.rewrite) then r.event == Snat(key, s.conntrack[key].corednsIp)
                else r.event.SnatFailed? && r.event.key == key)
            && r.state.conntrack ==
               (if f.noConfig || f.delete || (found && !RewriteWorks(f.rewrite)) then s.conntrack
                else s.conntrack - {key})
  {
    AnswerParsedIff(p, ihl, s.config);
    var key := AnsweredTo(p, ihl);
    if Remembered(s, key, now) {
      AllOrNothing(p, SADDR, UdpOff(p) + 6, s.conntrack[key].corednsIp, f.rewrite);
    }
  }

  /** A rewritten answer comes from the address it shows. */
  lemma SnatBytes(s: State, p: Packet, now: nat, f: Faults)
    requires EgressStep(s, p, now, f).event.Snat?
    ensures var r := EgressStep(s, p, now, f); |r.packet| == |p| >= 34 && r.packet[26..30] == Quad(r.event.shown)
  {
    var r := EgressStep(s, p, now, f);
    SnatKeepsChecksums(s, p, now, f, r.packet, r.event.shown);
    ReaddressedBytes(p, r.packet, SADDR, r.event.shown);
  }

  /** A packet with more fragments to follow, or with a fragment offset, passes both programs untouched. */
  lemma FragmentsPass(s: State, p: Packet, now: nat, f: Faults, ingress: Outcome, egress: Outcome)
    requires |p| >= 22 && (p[20] % 64 != 0 || p[21] != 0)
    requires ingress == IngressStep(s, p, now, f) && egress == EgressStep(s, p, now, f)
    ensures Untouched(s, p, ingress) && Untouched(s, p, egress)
  {
    NoDatagram(p, p[14] % 16);
    if !Untouched(s, p, ingress) {
      OnlyQueriesTouched(s, p, now, f, ingress);
    }
    if !Untouched(s, p, egress) {
      OnlyAnswersTouched(s, p, now, f, egress);
    }
  }

  lemma NoDatagram(p: Packet, ihl: nat)
    requires |p| >= 22 && (p[20] % 64 != 0 || p[21] != 0)
    ensures !Datagram(p, ihl)
  {
  }

  // ----- Whole runs

  /** The answer of a run step came from the VPC resolver of its time, to the connection of `key`. */
  predicate CameFromResolver(w: World, step: Step, key: CtKey) {
    && step.Leave? && |step.packet| > 14
    && AnswerBytes(step.packet, step.packet[14] % 16, w.state.config)
    && AnsweredTo(step.packet, step.packet[14] % 16) == key
  }

  /** The packet of a run step was a query of `key` to the service of its time. */
  predicate WasQuery(w: World, step: Step, key: CtKey) {
    && step.Arrive? && |step.packet| > 14
    && QueryBytes(step.packet, step.packet[14] % 16, w.state.config)
    && Asker(step.packet, step.packet[14] % 16) == key
  }

  lemma SnatStepBytes(w: World, step: Step)
    requires Effect(w, step).event.Snat?
    ensures CameFromResolver(w, step, Effect(w, step).event.key)
    ensures |Effect(w, step).packet| >= 34 && Effect(w, step).packet[26..30] == Quad(Effect(w, step).event.shown)
  {
    assert step.Leave? by {
      if step.Arrive? {
        IngressMoves(w.state, step.packet, w.now, step.faults);
      }
    }
    OnlyAnswersTouched(w.state, step.packet, w.now, step.faults, Effect(w, step));
    AnswerIsDecided(w.state, step.packet, step.packet[14] % 16, w.now, step.faults);
    SnatBytes(w.state, step.packet, w.now, step.faults);
  }

  lemma AttemptStepBytes(w: World, step: Step)
    requires Effect(w, step).event.Redirect? || Effect(w, step).event.RedirectFailed?
    ensures WasQuery(w, step, Effect(w, step).event.key)
    ensures step.packet[30..34] == Quad(Effect(w, step).event.queried)
  {
    assert step.Arrive? by {
      if step.Leave? {
        EgressMoves(w.state, step.packet, w.now, step.faults);
      }
    }
    OnlyQueriesTouched(w.state, step.packet, w.now, step.faults, Effect(w, step));
    QueryParsedIff(step.packet, step.packet[14] % 16, w.state.config);
    AttemptNamesQuery(w.state, step.packet, w.now, step.faults);
  }

  lemma AttemptNamesQuery(s: State, p: Packet, now: nat, f: Faults)
    requires IngressStep(s, p, now, f).event != Passed && IsQuery(p, s.config)
    ensures var event := IngressStep(s, p, now, f).event;
            && (event.Redirect? || event.RedirectFailed?)
            && event.key == QueryKey(p) && event.queried == AddrAt(p, DADDR)
  {
    AttemptNeedsHelpers(s, p, now, f);
    AttemptWasResolved(s, p, now, f);
    var r := Resolve(Question(p), s.rules, s.config.defaultAction);
    IngressIsQuery(s, p, now, f);
    QueryIsAct(CountQuery(s), p, now, f);
    assert IngressStep(s, p, now, f) == RedirectStep(CountChoice(CountQuery(s), r.matched), p, now, f);
  }

  /**
   In every run from an empty table, whatever fails, a rewritten answer came from the VPC resolver
   to an address, port and transaction id from which, at most five seconds before, a query was sent
   to the service, and it leaves with the address that query was sent to as its source.
   */
  lemma EveryAnswerHasQuery(worlds: seq<World>, steps: seq<Step>, j: nat) returns (i: nat)
    requires IsRun(worlds, steps) && StartsEmpty(worlds) && j < |steps| && EventAt(worlds, steps, j).Snat?
    ensures i < j && worlds[i].now <= worlds[j].now <= worlds[i].now + 5_000_000_000
    ensures var key := EventAt(worlds, steps, j).key;
            WasQuery(worlds[i], steps[i], key) && CameFromResolver(worlds[j], steps[j], key)
    ensures var shown := Effect(worlds[j], steps[j]).packet;
            |shown| >= 34 && shown[26..30] == steps[i].packet[30..34]
  {
    var origin := EverySnatHasOrigin(worlds, steps);
    i := origin[j];
    SnatStepBytes(worlds[j], steps[j]);
    AttemptStepBytes(worlds[i], steps[i]);
  }
}
