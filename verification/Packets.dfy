/** Packets made to order: a UDP packet with chosen addresses, ports and transaction id. */
module Packets {
  import opened Bytes
  import opened Checksum
  import opened NatRewrite
  import opened Datapath

  /** Headers with empty checksums, a DNS header for one question, then `rest`. */
  function MakePacket(src: Addr, dst: Addr, sport: word, dport: word, txid: word, flags: byte, rest: seq<byte>)
    : Packet
  {
    [0, 0, 0, 0, 0, 0, 0, 0, 0, 0, 0, 0, 8, 0]
    + [69, 0, 0, 0, 0, 0, 0, 0, 64, 17, 0, 0]
    + [src.b0, src.b1, src.b2, src.b3, dst.b0, dst.b1, dst.b2, dst.b3]
    + [sport / 256, sport % 256, dport / 256, dport % 256, 0, 0, 0, 0]
    + [txid / 256, txid % 256, flags, 0, 0, 1, 0, 0, 0, 0, 0, 0]
    + rest
  }

  /** The fields the programs look at, for a header without options. */
  predicate HasFields(p: Packet, src: Addr, dst: Addr, sport: word, dport: word, txid: word) {
    && |p| >= 54 && WordAt(p, 12) == ETH_P_IP && p[14] == 69 && WordAt(p, 20) == 0 && p[23] == IPPROTO_UDP
    && AddrAt(p, SADDR) == src && AddrAt(p, DADDR) == dst
    && WordAt(p, 34) == sport && WordAt(p, 36) == dport && WordAt(p, 42) == txid
  }

  lemma MadeFields(src: Addr, dst: Addr, sport: word, dport: word, txid: word, flags: byte, rest: seq<byte>)
    ensures var p := MakePacket(src, dst, sport, dport, txid, flags, rest);
            && HasFields(p, src, dst, sport, dport, txid)
            && p[44] == flags && WordAt(p, 46) == 1 && p[54..] == rest
  {
    var p := MakePacket(src, dst, sport, dport, txid, flags, rest);
    assert WordAt(p, 34) == sport && WordAt(p, 36) == dport && WordAt(p, 42) == txid;
    assert p[54..] == rest;
  }

  lemma FieldsParse(p: Packet, src: Addr, dst: Addr, sport: word, dport: word, txid: word)
    requires HasFields(p, src, dst, sport, dport, txid)
    ensures IsUdp(p) && HasDnsHeader(p) && UdpOff(p) == 34
    ensures QueryKey(p) == CtKey(src, sport, txid) && ResponseKey(p) == CtKey(dst, dport, txid)
  {
  }

  /** A resolver's answer for a connection. */
  function AnswerFor(config: Config, key: CtKey): Packet {
    MakePacket(config.hostResolverIp, key.podIp, config.dnsPort, key.podPort, key.txid, 128, [])
  }

  lemma AnswerParses(config: Config, key: CtKey)
    ensures FromResolver(AnswerFor(config, key), config) && ResponseKey(AnswerFor(config, key)) == key
  {
    MadeFields(config.hostResolverIp, key.podIp, config.dnsPort, key.podPort, key.txid, 128, []);
    FieldsParse(AnswerFor(config, key), config.hostResolverIp, key.podIp, config.dnsPort, key.podPort, key.txid);
  }

  function NoFaults(): Faults {
    Faults(false, false, false, false, NatFaults(false, false, false, false, false))
  }
}
