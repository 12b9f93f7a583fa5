/**
 Every packet gets one verdict, read off its bytes and the helper failures, and the metric counters
 count exactly the verdicts.
 */
module Verdicts {
  import opened Bytes
  import opened WireFormat
  import opened Checksum
  import opened NatRewrite
  import opened RuleTable
  import opened NameMatcher
  import opened Datapath
  import opened Runs
  import opened RuleRuns
  import opened RawPackets
  import opened CounterRuns

  /** First what ingress can make of a packet, then what egress can; `undone` says a failed rewrite was undone. */
  datatype Verdict =
    | NoConfig
    | Bypassed
    | NotForService
    | Truncated
    | NotQuery
    | NotOneQuestion
    | NoScratch
    | Nameless
    | Misnamed
    | Kept(matched: bool)
    | Unrecorded(matched: bool)
    | Redirected(matched: bool)
    | RedirectBroke(matched: bool, undone: bool)
    | NoConfigOut
    | NotFromResolver
    | Unknown
    | Stale
    | Answered
    | AnswerBroke(undone: bool)

  /** A datagram to the service's address and port. */
  predicate ServiceBytes(p: Packet, ihl: nat, c: Config) {
    && Datagram(p, ihl) && p[30..34] == Quad(c.corednsIp)
    && Pair(p[14 + 4 * ihl + 2], p[14 + 4 * ihl + 3]) == c.dnsPort
  }

  /** The bytes of the question, at most 128 of them. */
  function QuestionBytes(p: Packet, q: nat): (window: seq<byte>)
    requires q <= |p|
    ensures |window| <= 128
  {
    if |p| - q > 128 then p[q..q + 128] else p[q..]
  }

  function RuleVerdict(action: nat, matched: bool, f: Faults): Verdict {
    if action != HOST_RESOLVE then Kept(matched)
    else if f.insert then Unrecorded(matched)
    else if RewriteWorks(f.rewrite) then Redirected(matched)
    else RedirectBroke(matched, Undone(f.rewrite))
  }

  function QueryVerdict(s: State, p: Packet, u: nat, f: Faults): Verdict
    requires u + 8 <= |p|
  {
    if |p| < u + 20 then Truncated
    else if p[u + 10] >= 128 then NotQuery
    else if p[u + 12] != 0 || p[u + 13] != 1 then NotOneQuestion
    else if f.noScratch then NoScratch
    else if |p| == u + 20 then Nameless
    else match Resolve(QuestionBytes(p, u + 20), s.rules, s.config.defaultAction)
         case NoName => Nameless
         case BadName => Misnamed
         case Resolved(action, matched) => RuleVerdict(action, matched, f)
  }

  function IngressVerdict(s: State, p: Packet, f: Faults): Verdict {
    if f.noConfig then NoConfig
    else if s.config.bypass != 0 then Bypassed
    else if |p| <= 14 || !ServiceBytes(p, p[14] % 16, s.config) then NotForService
    else QueryVerdict(s, p, 14 + 4 * (p[14] % 16), f)
  }

  function EgressVerdict(s: State, p: Packet, now: nat, f: Faults): Verdict {
    if f.noConfig then NoConfigOut
    else if |p| <= 14 || !AnswerBytes(p, p[14] % 16, s.config) then NotFromResolver
    else
      var key := AnsweredTo(p, p[14] % 16);
      if key !in s.conntrack then Unknown
      else if !Remembered(s, key, now) then Stale
      else if RewriteWorks(f.rewrite) then Answered
      else AnswerBroke(Undone(f.rewrite))
  }

  // ----- What each counter counts

  predicate IsIngress(v: Verdict) {
    !v.NoConfigOut? && !v.NotFromResolver? && !v.Unknown? && !v.Stale? && !v.Answered? && !v.AnswerBroke?
  }

  /** A rule or the default decided the name. */
  predicate IsDecided(v: Verdict) {
    v.Kept? || v.Unrecorded? || v.Redirected? || v.RedirectBroke?
  }

  predicate Broke(v: Verdict) {
    v.RedirectBroke? || v.AnswerBroke?
  }

  /** One packet's share in every counter. */
  function Share(v: Verdict): Counters {
    Counters(
      total := One(IsIngress(v)),
      dnsQueries := One(IsIngress(v) && !v.NoConfig? && !v.Bypassed? && !v.NotForService?),
      suffixMatch := One(IsDecided(v) && v.matched),
      suffixNoMatch := One(IsDecided(v) && !v.matched),
      bypassActive := One(v.Bypassed?),
      parseError := One(v.NotOneQuestion? || v.Misnamed?),
      egressSnat := One(v.Answered?),
      egressMiss := One(v.Unknown? || v.Stale?),
      egressTotal := One(!IsIngress(v)),
      natError := One(Broke(v)),
      natRevertFail := One(Broke(v) && !v.undone),
      redirected := One(v.Redirected?),
      clusterResolved := One(v.Kept?))
  }

  function Add(a: Counters, b: Counters): Counters {
    Counters(
      a.total + b.total, a.dnsQueries + b.dnsQueries, a.suffixMatch + b.suffixMatch,
      a.suffixNoMatch + b.suffixNoMatch, a.bypassActive + b.bypassActive, a.parseError + b.parseError,
      a.egressSnat + b.egressSnat, a.egressMiss + b.egressMiss, a.egressTotal + b.egressTotal,
      a.natError + b.natError, a.natRevertFail + b.natRevertFail,
      a.redirected + b.redirected, a.clusterResolved + b.clusterResolved)
  }

  lemma ServiceParsedIff(p: Packet, ihl: nat, c: Config)
    ensures ServiceBytes(p, ihl, c) <==> ToService(p, c) && p[14] % 16 == ihl
    ensures ServiceBytes(p, ihl, c) ==> UdpOff(p) == 14 + 4 * ihl
  {
    ParsedIff(p, ihl);
    if |p| >= 34 {
      QuadIff(p, 30, c.corednsIp);
    }
  }

  /** The step did to the event and the counters what the verdict says. */
  ghost predicate Follows(before: Counters, v: Verdict, r: Outcome) {
    && r.state.counters == Add(before, Share(v))
    && (r.event.Redirect? <==> v.Redirected?)
    && (r.event.RedirectFailed? <==> v.RedirectBroke?)
    && (r.event.Snat? <==> v.Answered?)
    && (r.event.SnatFailed? <==> v.AnswerBroke?)
  }

  /** The counters after a redirect attempt, or after none. */
  function AfterRedirect(c: Counters, f: Faults): Counters {
    if f.insert then c
    else if RewriteWorks(f.rewrite) then c.(redirected := c.redirected + 1)
    else CountNatFailure(c, if Undone(f.rewrite) then -1 else -2)
  }

  lemma RedirectCounts(s: State, p: Packet, now: nat, f: Faults)
    requires ToService(p, s.config) && HasDnsHeader(p)
    ensures var r := RedirectStep(s, p, now, f);
            && r.state.counters == AfterRedirect(s.counters, f)
            && (if f.insert then r.event == Passed
                else if RewriteWorks(f.rewrite) then r.event.Redirect? else r.event.RedirectFailed?)
  {
    AllOrNothing(p, DADDR, UdpOff(p) + 6, s.config.hostResolverIp, f.rewrite);
  }

  lemma RedirectShares(s: State, matched: bool, f: Faults)
    ensures AfterRedirect(CountChoice(CountQuery(s), matched).counters, f)
         == Add(s.counters, Share(RuleVerdict(HOST_RESOLVE, matched, f)))
  {
  }

  lemma RuleFollows(s: State, p: Packet, action: nat, matched: bool, now: nat, f: Faults, r: Outcome)
    requires ToService(p, s.config) && HasDnsHeader(p)
    requires r == ActStep(CountQuery(s), p, Resolved(action, matched), now, f)
    ensures Follows(s.counters, RuleVerdict(action, matched, f), r)
  {
    if action == HOST_RESOLVE {
      assert r == RedirectStep(CountChoice(CountQuery(s), matched), p, now, f);
      RedirectCounts(CountChoice(CountQuery(s), matched), p, now, f);
      RedirectShares(s, matched, f);
    }
  }

  lemma IgnoredFollows(s: State, p: Packet, now: nat, f: Faults, r: Outcome)
    requires ToService(p, s.config) && !Asked(p, f) && r == QueryStep(CountQuery(s), p, now, f)
    ensures Follows(s.counters, QueryVerdict(s, p, UdpOff(p), f), r)
  {
  }

  lemma AskedFollows(s: State, p: Packet, now: nat, f: Faults, r: Outcome)
    requires ToService(p, s.config) && Asked(p, f) && r == QueryStep(CountQuery(s), p, now, f)
    ensures Follows(s.counters, QueryVerdict(s, p, UdpOff(p), f), r)
  {
    var answer := Resolve(Question(p), s.rules, s.config.defaultAction);
    QueryIsAct(CountQuery(s), p, now, f);
    AskedVerdict(s, p, f);
    if answer.Resolved? {
      RuleFollows(s, p, answer.action, answer.matched, now, f, r);
    }
  }

  lemma AskedVerdict(s: State, p: Packet, f: Faults)
    requires IsUdp(p) && Asked(p, f)
    ensures QueryVerdict(s, p, UdpOff(p), f) ==
            match Resolve(Question(p), s.rules, s.config.defaultAction)
            case NoName => Nameless
            case BadName => Misnamed
            case Resolved(action, matched) => RuleVerdict(action, matched, f)
  {
    assert Question(p) == QuestionBytes(p, UdpOff(p) + 20);
  }

  lemma QueryFollows(s: State, p: Packet, now: nat, f: Faults, r: Outcome)
    requires ToService(p, s.config) && r == QueryStep(CountQuery(s), p, now, f)
    ensures Follows(s.counters, QueryVerdict(s, p, UdpOff(p), f), r)
  {
    if Asked(p, f) {
      AskedFollows(s, p, now, f, r);
    } else {
      IgnoredFollows(s, p, now, f, r);
    }
  }

  /** The verdict on a packet that ingress does not take for a query. */
  function PassVerdict(s: State, f: Faults): Verdict {
    if f.noConfig then NoConfig else if s.config.bypass != 0 then Bypassed else NotForService
  }

  lemma UnhandledFollows(s: State, p: Packet, now: nat, f: Faults, r: Outcome)
    requires !Handled(s, p, f) && r == IngressStep(s, p, now, f)
    ensures Follows(s.counters, PassVerdict(s, f), r)
  {
  }

  lemma VerdictParses(s: State, p: Packet, f: Faults)
    ensures IngressVerdict(s, p, f) ==
            if Handled(s, p, f) then QueryVerdict(s, p, UdpOff(p), f) else PassVerdict(s, f)
  {
    if |p| > 14 {
      ServiceParsedIff(p, p[14] % 16, s.config);
    }
  }

  /** Ingress does to its counters what the verdict on the packet says. */
  lemma IngressFollows(s: State, p: Packet, now: nat, f: Faults, r: Outcome)
    requires r == IngressStep(s, p, now, f)
    ensures Follows(s.counters, IngressVerdict(s, p, f), r)
  {
    VerdictParses(s, p, f);
    if Handled(s, p, f) {
      IngressIsQuery(s, p, now, f);
      QueryFollows(s, p, now, f, r);
    } else {
      UnhandledFollows(s, p, now, f, r);
    }
  }

  lemma SnatCounts(s: State, p: Packet, key: CtKey, f: Faults)
    requires IsUdp(p) && key in s.conntrack
    ensures var r := SnatStep(s, p, key, f);
            if RewriteWorks(f.rewrite) then
              r.event.Snat? && r.state.counters == s.counters.(egressSnat := s.counters.egressSnat + 1)
            else
              && r.event.SnatFailed?
              && r.state.counters == CountNatFailure(s.counters, if Undone(f.rewrite) then -1 else -2)
  {
    AllOrNothing(p, SADDR, UdpOff(p) + 6, s.conntrack[key].corednsIp, f.rewrite);
  }

  lemma FoundFollows(s: State, p: Packet, now: nat, f: Faults, r: Outcome)
    requires !f.noConfig && FromResolver(p, s.config) && Remembered(s, ResponseKey(p), now)
    requires r == EgressStep(s, p, now, f)
    ensures Follows(s.counters, if RewriteWorks(f.rewrite) then Answered else AnswerBroke(Undone(f.rewrite)), r)
  {
    var counted := s.(counters := s.counters.(egressTotal := s.counters.egressTotal + 1));
    assert r == SnatStep(counted, p, ResponseKey(p), f);
    SnatCounts(counted, p, ResponseKey(p), f);
  }

  /** So does egress. */
  lemma EgressFollows(s: State, p: Packet, now: nat, f: Faults, r: Outcome)
    requires r == EgressStep(s, p, now, f)
    ensures Follows(s.counters, EgressVerdict(s, p, now, f), r)
  {
    if |p| > 14 {
      AnswerParsedIff(p, p[14] % 16, s.config);
    }
    if !f.noConfig && FromResolver(p, s.config) && Remembered(s, ResponseKey(p), now) {
      FoundFollows(s, p, now, f, r);
    }
  }

  // ----- Runs

  /** The share of one step: that of its packet, or nothing. */
  function StepShare(w: World, step: Step): Counters {
    match step
    case Arrive(p, f) => Share(IngressVerdict(w.state, p, f))
    case Leave(p, f) => Share(EgressVerdict(w.state, p, w.now, f))
    case _ => NOTHING
  }

  const NOTHING: Counters := Counters(0, 0, 0, 0, 0, 0, 0, 0, 0, 0, 0, 0, 0)

  /** The first `n` of them added up. */
  function Total(shares: seq<Counters>, n: nat): Counters
    requires n <= |shares|
  {
    if n == 0 then NOTHING else Add(Total(shares, n - 1), shares[n - 1])
  }

  /** The shares of the steps of a run. */
  function Shares(worlds: seq<World>, steps: seq<Step>): seq<Counters>
    requires |steps| < |worlds|
  {
    seq(|steps|, i requires 0 <= i < |steps| => StepShare(worlds[i], steps[i]))
  }

  lemma StepAdds(w: World, step: Step)
    ensures Next(w, step).state.counters == Add(w.state.counters, StepShare(w, step))
  {
    if step.Arrive? {
      IngressFollows(w.state, step.packet, w.now, step.faults, Effect(w, step));
    } else if step.Leave? {
      EgressFollows(w.state, step.packet, w.now, step.faults, Effect(w, step));
    }
  }

  lemma AddNothing(a: Counters)
    ensures Add(a, NOTHING) == a
  {
  }

  lemma AddAssociates(a: Counters, b: Counters, c: Counters)
    ensures Add(Add(a, b), c) == Add(a, Add(b, c))
  {
  }

  lemma {:induction false} AddsUp(levels: seq<Counters>, shares: seq<Counters>, n: nat)
    requires |levels| == |shares| + 1 && n < |levels|
    requires forall i :: 0 <= i < |shares| ==> levels[i + 1] == Add(levels[i], shares[i])
    ensures levels[n] == Add(levels[0], Total(shares, n))
  {
    if n == 0 {
      AddNothing(levels[0]);
    } else {
      AddsUp(levels, shares, n - 1);
      assert levels[n - 1 + 1] == Add(levels[n - 1], shares[n - 1]);
      AddAssociates(levels[0], Total(shares, n - 1), shares[n - 1]);
    }
  }

  /** Over every run each counter has grown by exactly the number of packets with the verdicts it counts. */
  lemma CountersAreVerdicts(worlds: seq<World>, steps: seq<Step>, n: nat)
    requires IsRun(worlds, steps) && n < |worlds|
    ensures worlds[n].state.counters == Add(worlds[0].state.counters, Total(Shares(worlds, steps), n))
  {
    var levels := seq(|worlds|, i requires 0 <= i < |worlds| => worlds[i].state.counters);
    var shares := Shares(worlds, steps);
    forall i | 0 <= i < |steps| ensures levels[i + 1] == Add(levels[i], shares[i]) {
      StepAdds(worlds[i], steps[i]);
      assert worlds[i + 1] == Next(worlds[i], steps[i]);
    }
    AddsUp(levels, shares, n);
  }
}
