/** The two packet programs (bpf/dns_gateway.c), each run one atomic step. */
module Datapath {
  import opened Bytes
  import opened WireFormat
  import opened Checksum
  import opened NatRewrite
  import opened RuleTable
  import opened NameMatcher

  const ETH_P_IP: word := 0x0800
  const CONNTRACK_TTL_NS: nat := 5_000_000_000
  const TWO64: nat := 0x1_0000_0000_0000_0000
  const TC_ACT_OK: int := 0

  /** `struct gateway_config`; addresses and port keep their wire bytes. */
  datatype Config = Config(corednsIp: Addr, hostResolverIp: Addr, dnsPort: word, bypass: word, defaultAction: nat)

  datatype CtKey = CtKey(podIp: Addr, podPort: word, txid: word)
  datatype CtVal = CtVal(corednsIp: Addr, timestamp: nat)
  type Conntrack = map<CtKey, CtVal>

  /** The metric counters, summed over CPUs. */
  datatype Counters = Counters(
    total: nat, dnsQueries: nat, suffixMatch: nat, suffixNoMatch: nat, bypassActive: nat, parseError: nat,
    egressSnat: nat, egressMiss: nat, egressTotal: nat, natError: nat, natRevertFail: nat,
    redirected: nat, clusterResolved: nat)

  datatype State = State(config: Config, rules: Table, conntrack: Conntrack, counters: Counters)

  /** The outcome of every helper call that can fail in one program run. */
  datatype Faults = Faults(noConfig: bool, noScratch: bool, insert: bool, delete: bool, rewrite: NatFaults)

  /** What a run did to its packet: nothing, a complete rewrite, or a failed attempt at one. */
  datatype Event =
    | Passed
    | Redirect(key: CtKey, queried: Addr)
    | RedirectFailed(key: CtKey, queried: Addr, rc: int)
    | Snat(key: CtKey, shown: Addr)
    | SnatFailed(key: CtKey, rc: int)

  datatype Outcome = Outcome(state: State, packet: Packet, event: Event)

  // ----- Packet fields

  function UdpOff(p: Packet): nat
    requires |p| > ETH_HLEN
  {
    ETH_HLEN + 4 * (p[ETH_HLEN] % 16)
  }

  /** An unfragmented IPv4 UDP packet whose headers are all present. */
  predicate IsUdp(p: Packet) {
    && |p| >= ETH_HLEN + 20
    && WordAt(p, 12) == ETH_P_IP
    && p[ETH_HLEN + 9] == IPPROTO_UDP
    && p[ETH_HLEN] % 16 >= 5
    && WordAt(p, ETH_HLEN + 6) % 0x4000 == 0
    && |p| >= UdpOff(p) + 8
  }

  predicate HasDnsHeader(p: Packet)
    requires IsUdp(p)
  {
    |p| >= UdpOff(p) + 20
  }

  function Txid(p: Packet): word
    requires IsUdp(p) && HasDnsHeader(p)
  {
    WordAt(p, UdpOff(p) + 8)
  }

  /** The connection a query belongs to. */
  function QueryKey(p: Packet): CtKey
    requires IsUdp(p) && HasDnsHeader(p)
  {
    CtKey(AddrAt(p, SADDR), WordAt(p, UdpOff(p)), Txid(p))
  }

  /** The connection a response belongs to. */
  function ResponseKey(p: Packet): CtKey
    requires IsUdp(p) && HasDnsHeader(p)
  {
    CtKey(AddrAt(p, DADDR), WordAt(p, UdpOff(p) + 2), Txid(p))
  }

  predicate ToService(p: Packet, config: Config) {
    IsUdp(p) && AddrAt(p, DADDR) == config.corednsIp && WordAt(p, UdpOff(p) + 2) == config.dnsPort
  }

  predicate FromResolver(p: Packet, config: Config) {
    IsUdp(p) && AddrAt(p, SADDR) == config.hostResolverIp && WordAt(p, UdpOff(p)) == config.dnsPort
    && HasDnsHeader(p)
  }

  predicate IsResponse(p: Packet)
    requires IsUdp(p) && HasDnsHeader(p)
  {
    p[UdpOff(p) + 10] >= 128
  }

  predicate OneQuestion(p: Packet)
    requires IsUdp(p) && HasDnsHeader(p)
  {
    WordAt(p, UdpOff(p) + 12) == 1
  }

  /** The bytes from the question name on, at most a key's width. */
  function Question(p: Packet): (window: seq<byte>)
    requires IsUdp(p) && HasDnsHeader(p)
    ensures |window| <= MAX_DNS_NAME_LEN
  {
    var off := UdpOff(p) + 20;
    if |p| - off > MAX_DNS_NAME_LEN then p[off..off + MAX_DNS_NAME_LEN] else p[off..]
  }

  /** `now - timestamp` on 64-bit unsigned integers. */
  function Age(now: nat, timestamp: nat): nat {
    (now - timestamp) % TWO64
  }

  // ----- What each program does

  function CountNatFailure(c: Counters, rc: int): Counters {
    c.(natError := c.natError + 1, natRevertFail := if rc == -2 then c.natRevertFail + 1 else c.natRevertFail)
  }

  function Drop(conntrack: Conntrack, key: CtKey, fault: bool): Conntrack {
    if fault then conntrack else conntrack - {key}
  }

  /** The tail of ingress, once the action is host-resolve. */
  function RedirectStep(s: State, p: Packet, now: nat, f: Faults): Outcome
    requires ToService(p, s.config) && HasDnsHeader(p)
  {
    if f.insert then Outcome(s, p, Passed)
    else
      var key := QueryKey(p);
      var inserted := s.conntrack[key := CtVal(s.config.corednsIp, now)];
      var r := Try(p, DADDR, UdpOff(p) + 6, AddrAt(p, DADDR), s.config.hostResolverIp, f.rewrite);
      if r.rc < 0 then
        Outcome(s.(counters := CountNatFailure(s.counters, r.rc), conntrack := Drop(inserted, key, f.delete)),
                r.packet, RedirectFailed(key, AddrAt(p, DADDR), r.rc))
      else
        Outcome(s.(counters := s.counters.(redirected := s.counters.redirected + 1), conntrack := inserted),
                r.packet, Redirect(key, AddrAt(p, DADDR)))
  }

  /** The counters and the action that follow from a resolved question. */
  function ActStep(s: State, p: Packet, r: Resolution, now: nat, f: Faults): Outcome
    requires ToService(p, s.config) && HasDnsHeader(p)
  {
    var c := s.counters;
    match r
    case NoName => Outcome(s, p, Passed)
    case BadName => Outcome(s.(counters := c.(parseError := c.parseError + 1)), p, Passed)
    case Resolved(action, matched) =>
      var c1 := if matched then c.(suffixMatch := c.suffixMatch + 1) else c.(suffixNoMatch := c.suffixNoMatch + 1);
      if action != HOST_RESOLVE then
        Outcome(s.(counters := c1.(clusterResolved := c1.clusterResolved + 1)), p, Passed)
      else RedirectStep(s.(counters := c1), p, now, f)
  }

  /** Ingress from the point where the packet is known to be a query for the service. */
  function QueryStep(s: State, p: Packet, now: nat, f: Faults): Outcome
    requires ToService(p, s.config)
  {
    var c := s.counters;
    if !HasDnsHeader(p) || IsResponse(p) then Outcome(s, p, Passed)
    else if !OneQuestion(p) then Outcome(s.(counters := c.(parseError := c.parseError + 1)), p, Passed)
    else if f.noScratch || Question(p) == [] then Outcome(s, p, Passed)
    else ActStep(s, p, Resolve(Question(p), s.rules, s.config.defaultAction), now, f)
  }

  function IngressStep(s: State, p: Packet, now: nat, f: Faults): Outcome {
    var c := s.counters.(total := s.counters.total + 1);
    if f.noConfig then Outcome(s.(counters := c), p, Passed)
    else if s.config.bypass != 0 then Outcome(s.(counters := c.(bypassActive := c.bypassActive + 1)), p, Passed)
    else if !ToService(p, s.config) then Outcome(s.(counters := c), p, Passed)
    else QueryStep(s.(counters := c.(dnsQueries := c.dnsQueries + 1)), p, now, f)
  }

  /** The tail of egress, once a fresh conntrack entry is found. */
  function SnatStep(s: State, p: Packet, key: CtKey, f: Faults): Outcome
    requires IsUdp(p) && key in s.conntrack
  {
    var shown := s.conntrack[key].corednsIp;
    var r := Try(p, SADDR, UdpOff(p) + 6, AddrAt(p, SADDR), shown, f.rewrite);
    if r.rc < 0 then
      Outcome(s.(counters := CountNatFailure(s.counters, r.rc)), r.packet, SnatFailed(key, r.rc))
    else
      Outcome(s.(counters := s.counters.(egressSnat := s.counters.egressSnat + 1),
                 conntrack := Drop(s.conntrack, key, f.delete)),
              r.packet, Snat(key, shown))
  }

  function EgressStep(s: State, p: Packet, now: nat, f: Faults): Outcome {
    var c := s.counters.(egressTotal := s.counters.egressTotal + 1);
    if f.noConfig || !FromResolver(p, s.config) then Outcome(s.(counters := c), p, Passed)
    else
      var key := ResponseKey(p);
      var miss := c.(egressMiss := c.egressMiss + 1);
      if key !in s.conntrack then Outcome(s.(counters := miss), p, Passed)
      else if Age(now, s.conntrack[key].timestamp) > CONNTRACK_TTL_NS then
        Outcome(s.(counters := miss, conntrack := Drop(s.conntrack, key, f.delete)), p, Passed)
      else SnatStep(s.(counters := c), p, key, f)
  }

  // ----- The programs, acting on the packet, the maps and the scratch buffers in place

  class Gateway {
    var config: Config
    var rules: Table
    var conntrack: Conntrack
    var counters: Counters
    const scratch: Scratch

    ghost predicate Valid() {
      scratch.Valid()
    }

    ghost function Now(): State
      reads this
    {
      State(config, rules, conntrack, counters)
    }

    constructor (config: Config, rules: Table)
      ensures Valid() && fresh(scratch.qname) && fresh(scratch.lookup)
      ensures Now() == State(config, rules, map[], Counters(0, 0, 0, 0, 0, 0, 0, 0, 0, 0, 0, 0, 0))
    {
      this.config := config;
      this.rules := rules;
      conntrack := map[];
      counters := Counters(0, 0, 0, 0, 0, 0, 0, 0, 0, 0, 0, 0, 0);
      scratch := new Scratch();
    }

    /** Copies the question into the scratch buffer. */
    method LoadQuestion(skb: array<byte>, off: nat) returns (remaining: nat)
      requires Valid() && off < skb.Length && skb != scratch.qname
      modifies scratch.qname
      ensures 1 <= remaining <= MAX_DNS_NAME_LEN
      ensures scratch.qname[..remaining] ==
              if skb.Length - off > MAX_DNS_NAME_LEN then skb[off..off + MAX_DNS_NAME_LEN] else skb[off..]
    {
      remaining := skb.Length - off;
      if remaining > MAX_DNS_NAME_LEN {
        remaining := MAX_DNS_NAME_LEN;
      }
      remaining := Mask(remaining);
      if remaining == 0 {
        remaining := MAX_DNS_NAME_LEN;
      }
      forall k | 0 <= k < remaining {
        scratch.qname[k] := skb[off + k];
      }
      assert scratch.qname[..remaining] == skb[off..off + remaining];
    }

    /**
     Load, walk and match.  The answer depends on the question alone, whatever
     earlier packets left in the two scratch buffers.
     */
    method ResolveQuestion(skb: array<byte>, off: nat) returns (r: Resolution)
      requires Valid() && off < skb.Length && skb != scratch.qname && skb != scratch.lookup
      modifies scratch.qname, scratch.lookup
      ensures r == Resolve(if skb.Length - off > MAX_DNS_NAME_LEN then skb[off..off + MAX_DNS_NAME_LEN] else skb[off..],
                           rules, config.defaultAction)
    {
      var remaining := LoadQuestion(skb, off);
      ghost var window := scratch.qname[..remaining];
      var bad, offsets, pos := scratch.WalkLabels(remaining, MAX_LABELS);
      if bad {
        return BadName;
      }
      if |offsets| == 0 {
        return NoName;
      }
      var total := pos + 1;
      if total > MAX_DNS_NAME_LEN || total > remaining {
        return NoName;
      }
      WalkWithin(window, 0, MAX_LABELS);
      var hit := scratch.MatchSuffixes(offsets, total, rules);
      MatchInPrefix(window, offsets, pos, rules);
      assert window[..total] == scratch.qname[..total];
      match hit {
        case None => return Resolved(config.defaultAction, false);
        case Some(action) => return Resolved(action, true);
      }
    }

    method CountNatFailed(rc: int)
      modifies this`counters
      ensures counters == CountNatFailure(old(counters), rc)
    {
      counters := counters.(natError := counters.natError + 1);
      if rc == -2 {
        counters := counters.(natRevertFail := counters.natRevertFail + 1);
      }
    }

    method DeleteEntry(key: CtKey, fault: bool)
      modifies this`conntrack
      ensures conntrack == Drop(old(conntrack), key, fault)
    {
      if !fault {
        conntrack := conntrack - {key};
      }
    }

    /** Inserts the conntrack entry, then rewrites; a failed rewrite takes the entry out again. */
    method RedirectQuery(skb: array<byte>, now: nat, f: Faults)
      requires ToService(skb[..], config) && HasDnsHeader(skb[..])
      modifies this`conntrack, this`counters, skb
      ensures var r := RedirectStep(old(Now()), old(skb[..]), now, f); Now() == r.state && skb[..] == r.packet
    {
      var key := QueryKey(skb[..]);
      if f.insert {
        return;
      }
      conntrack := conntrack[key := CtVal(config.corednsIp, now)];
      var rc := NatRewriteAddr(skb, DADDR, UdpOff(skb[..]) + 6, AddrAt(skb[..], DADDR), config.hostResolverIp,
                               f.rewrite);
      if rc < 0 {
        CountNatFailed(rc);
        DeleteEntry(key, f.delete);
        return;
      }
      counters := counters.(redirected := counters.redirected + 1);
    }

    method Act(skb: array<byte>, r: Resolution, now: nat, f: Faults)
      requires ToService(skb[..], config) && HasDnsHeader(skb[..])
      modifies this`conntrack, this`counters, skb
      ensures var o := ActStep(old(Now()), old(skb[..]), r, now, f); Now() == o.state && skb[..] == o.packet
    {
      if r == BadName {
        counters := counters.(parseError := counters.parseError + 1);
        return;
      }
      if r == NoName {
        return;
      }
      if r.matched {
        counters := counters.(suffixMatch := counters.suffixMatch + 1);
      } else {
        counters := counters.(suffixNoMatch := counters.suffixNoMatch + 1);
      }
      if r.action != HOST_RESOLVE {
        counters := counters.(clusterResolved := counters.clusterResolved + 1);
        return;
      }
      RedirectQuery(skb, now, f);
    }

    /** From the DNS header on. */
    method HandleQuery(skb: array<byte>, now: nat, f: Faults)
      requires Valid() && skb != scratch.qname && skb != scratch.lookup
      requires ToService(skb[..], config)
      modifies this`conntrack, this`counters, skb, scratch.qname, scratch.lookup
      ensures var r := QueryStep(old(Now()), old(skb[..]), now, f); Now() == r.state && skb[..] == r.packet
    {
      ghost var p := skb[..];
      var off := UdpOff(skb[..]) + 20;
      if skb.Length < off {
        return;
      }
      if IsResponse(skb[..]) {
        return;
      }
      if !OneQuestion(skb[..]) {
        counters := counters.(parseError := counters.parseError + 1);
        return;
      }
      if f.noScratch {
        return;
      }
      if skb.Length - off < 1 {
        return;
      }
      assert Question(p) ==
             if skb.Length - off > MAX_DNS_NAME_LEN then skb[off..off + MAX_DNS_NAME_LEN] else skb[off..];
      var r := ResolveQuestion(skb, off);
      Act(skb, r, now, f);
    }

    /** `dns_gateway_ingress`: its effect is a function of the packet, the maps and the clock only. */
    method Ingress(skb: array<byte>, now: nat, f: Faults) returns (verdict: int)
      requires Valid() && skb != scratch.qname && skb != scratch.lookup
      modifies this`conntrack, this`counters, skb, scratch.qname, scratch.lookup
      ensures var r := IngressStep(old(Now()), old(skb[..]), now, f); Now() == r.state && skb[..] == r.packet
      ensures verdict == TC_ACT_OK
    {
      verdict := TC_ACT_OK;
      counters := counters.(total := counters.total + 1);
      if f.noConfig {
        return;
      }
      if config.bypass != 0 {
        counters := counters.(bypassActive := counters.bypassActive + 1);
        return;
      }
      if !IsUdp(skb[..]) {
        return;
      }
      if AddrAt(skb[..], DADDR) != config.corednsIp {
        return;
      }
      if WordAt(skb[..], UdpOff(skb[..]) + 2) != config.dnsPort {
        return;
      }
      counters := counters.(dnsQueries := counters.dnsQueries + 1);
      HandleQuery(skb, now, f);
    }

    /** Rewrites the source and uses the entry up; a failed rewrite keeps the entry. */
    method SnatResponse(skb: array<byte>, key: CtKey, f: Faults)
      requires IsUdp(skb[..]) && key in conntrack
      modifies this`conntrack, this`counters, skb
      ensures var r := SnatStep(old(Now()), old(skb[..]), key, f); Now() == r.state && skb[..] == r.packet
    {
      var rc := NatRewriteAddr(skb, SADDR, UdpOff(skb[..]) + 6, AddrAt(skb[..], SADDR), conntrack[key].corednsIp,
                               f.rewrite);
      if rc < 0 {
        CountNatFailed(rc);
      } else {
        DeleteEntry(key, f.delete);
        counters := counters.(egressSnat := counters.egressSnat + 1);
      }
    }

    /** `dns_gateway_egress`: does not look at the bypass flag. */
    method Egress(skb: array<byte>, now: nat, f: Faults) returns (verdict: int)
      modifies this`conntrack, this`counters, skb
      ensures var r := EgressStep(old(Now()), old(skb[..]), now, f); Now() == r.state && skb[..] == r.packet
      ensures verdict == TC_ACT_OK
    {
      verdict := TC_ACT_OK;
      counters := counters.(egressTotal := counters.egressTotal + 1);
      if f.noConfig {
        return;
      }
      if !FromResolver(skb[..], config) {
        return;
      }
      var key := ResponseKey(skb[..]);
      if key !in conntrack {
        counters := counters.(egressMiss := counters.egressMiss + 1);
        return;
      }
      var entry := conntrack[key];
      if Age(now, entry.timestamp) > CONNTRACK_TTL_NS {
        DeleteEntry(key, f.delete);
        counters := counters.(egressMiss := counters.egressMiss + 1);
        return;
      }
      SnatResponse(skb, key, f);
    }
  }

  lemma {:induction false} WalkWithin(window: seq<byte>, pos: nat, budget: nat)
    ensures Walk(window, pos, budget).Walked? ==> |Walk(window, pos, budget).offsets| <= budget
    decreases budget
  {
    if budget > 0 && pos < |window| {
      WalkWithin(window, pos + 1 + window[pos], budget - 1);
    }
  }

  /** Bytes past the name do not matter to the lookups. */
  lemma {:induction false} MatchInPrefix(window: seq<byte>, offsets: seq<nat>, end: nat, table: Table)
    requires end < |window| <= MAX_DNS_NAME_LEN && forall i :: 0 <= i < |offsets| ==> offsets[i] < end
    ensures FirstMatch(window[..end + 1], offsets, end, table) == FirstMatch(window, offsets, end, table)
    decreases |offsets|
  {
    if offsets != [] {
      assert window[..end + 1][offsets[0]..end + 1] == window[offsets[0]..end + 1];
      MatchInPrefix(window, offsets[1..], end, table);
    }
  }
}
