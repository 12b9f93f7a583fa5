/**
 `nat_rewrite_addr` (bpf/dns_gateway.c): one IPv4 address of a UDP packet is
 replaced and both checksums are fixed, with an undo when a helper fails.
 */
module NatRewrite {
  import opened Bytes
  import opened Checksum

  const ETH_HLEN: nat := 14
  const IP_CSUM: nat := ETH_HLEN + 10
  const SADDR: nat := ETH_HLEN + 12
  const DADDR: nat := ETH_HLEN + 16
  const IPPROTO_UDP: nat := 17

  type Packet = seq<byte>

  function WordAt(p: Packet, off: nat): word
    requires off + 2 <= |p|
  {
    p[off] as int * 256 + p[off + 1]
  }

  function AddrAt(p: Packet, off: nat): Addr
    requires off + 4 <= |p|
  {
    Addr(p[off], p[off + 1], p[off + 2], p[off + 3])
  }

  function PutWord(p: Packet, off: nat, w: word): (r: Packet)
    requires off + 2 <= |p|
    ensures |r| == |p|
  {
    p[off := w / 256][off + 1 := w % 256]
  }

  function PutAddr(p: Packet, off: nat, a: Addr): (r: Packet)
    requires off + 4 <= |p|
    ensures |r| == |p|
  {
    p[off := a.b0][off + 1 := a.b1][off + 2 := a.b2][off + 3 := a.b3]
  }

  /** The address is the source or destination; the UDP checksum lies past the IP header. */
  predicate Room(p: Packet, addrOff: nat, udpCsum: nat) {
    (addrOff == SADDR || addrOff == DADDR) && DADDR + 4 <= udpCsum && udpCsum + 2 <= |p|
  }

  /** `p` with its address, IP checksum and UDP checksum set. */
  function WithFields(p: Packet, addrOff: nat, udpCsum: nat, a: Addr, ip: word, udp: word): (r: Packet)
    requires Room(p, addrOff, udpCsum)
    ensures |r| == |p|
  {
    PutWord(PutWord(PutAddr(p, addrOff, a), IP_CSUM, ip), udpCsum, udp)
  }

  /** The packet after a complete rewrite of `from` to `to`. */
  function Rewritten(p: Packet, addrOff: nat, udpCsum: nat, from: Addr, to: Addr): (r: Packet)
    requires Room(p, addrOff, udpCsum)
    ensures |r| == |p|
  {
    WithFields(p, addrOff, udpCsum, to, Update(WordAt(p, IP_CSUM), from, to), UpdateUdp(WordAt(p, udpCsum), from, to))
  }

  /** Which helper calls fail; a failing call has no effect. */
  datatype NatFaults = NatFaults(store: bool, l3: bool, l4: bool, undoL3: bool, undoStore: bool)

  datatype Attempt = Attempt(packet: Packet, rc: int)

  /** Outcome of the three steps under a pattern of failures. */
  function Try(p: Packet, addrOff: nat, udpCsum: nat, from: Addr, to: Addr, f: NatFaults): (r: Attempt)
    requires Room(p, addrOff, udpCsum)
    ensures |r.packet| == |p|
  {
    if f.store then Attempt(p, -1)
    else
      var stored := PutAddr(p, addrOff, to);
      if f.l3 then
        if f.undoStore then Attempt(stored, -2) else Attempt(PutAddr(stored, addrOff, from), -1)
      else
        var summed := PutWord(stored, IP_CSUM, Update(WordAt(stored, IP_CSUM), from, to));
        if f.l4 then
          var undone := if f.undoL3 then summed
                        else PutWord(summed, IP_CSUM, Update(WordAt(summed, IP_CSUM), to, from));
          Attempt(if f.undoStore then undone else PutAddr(undone, addrOff, from),
                  if f.undoL3 || f.undoStore then -2 else -1)
        else
          Attempt(PutWord(summed, udpCsum, UpdateUdp(WordAt(summed, udpCsum), from, to)), 0)
  }

  // ----- The helpers, acting in place

  method StoreAddr(skb: array<byte>, off: nat, a: Addr, fault: bool) returns (rc: int)
    requires off + 4 <= skb.Length
    modifies skb
    ensures rc == if fault then -1 else 0
    ensures skb[..] == if fault then old(skb[..]) else PutAddr(old(skb[..]), off, a)
  {
    if fault {
      return -1;
    }
    skb[off], skb[off + 1], skb[off + 2], skb[off + 3] := a.b0, a.b1, a.b2, a.b3;
    return 0;
  }

  method StoreWord(skb: array<byte>, off: nat, w: word)
    requires off + 2 <= skb.Length
    modifies skb
    ensures skb[..] == PutWord(old(skb[..]), off, w)
  {
    skb[off], skb[off + 1] := w / 256, w % 256;
  }

  method L3CsumReplace(skb: array<byte>, off: nat, from: Addr, to: Addr, fault: bool) returns (rc: int)
    requires off + 2 <= skb.Length
    modifies skb
    ensures rc == if fault then -1 else 0
    ensures skb[..] == if fault then old(skb[..])
                       else PutWord(old(skb[..]), off, Update(WordAt(old(skb[..]), off), from, to))
  {
    if fault {
      return -1;
    }
    StoreWord(skb, off, Update(WordAt(skb[..], off), from, to));
    return 0;
  }

  method L4CsumReplace(skb: array<byte>, off: nat, from: Addr, to: Addr, fault: bool) returns (rc: int)
    requires off + 2 <= skb.Length
    modifies skb
    ensures rc == if fault then -1 else 0
    ensures skb[..] == if fault then old(skb[..])
                       else PutWord(old(skb[..]), off, UpdateUdp(WordAt(old(skb[..]), off), from, to))
  {
    if fault {
      return -1;
    }
    StoreWord(skb, off, UpdateUdp(WordAt(skb[..], off), from, to));
    return 0;
  }

  /** Three steps with undo; 0 is done, -1 undone, -2 the undo failed. */
  method NatRewriteAddr(skb: array<byte>, addrOff: nat, udpCsum: nat, from: Addr, to: Addr, f: NatFaults)
    returns (rc: int)
    requires Room(skb[..], addrOff, udpCsum)
    modifies skb
    ensures Attempt(skb[..], rc) == Try(old(skb[..]), addrOff, udpCsum, from, to, f)
  {
    var err := StoreAddr(skb, addrOff, to, f.store);
    if err < 0 {
      return -1;
    }
    err := L3CsumReplace(skb, IP_CSUM, from, to, f.l3);
    if err < 0 {
      err := StoreAddr(skb, addrOff, from, f.undoStore);
      if err < 0 {
        return -2;
      }
      return -1;
    }
    err := L4CsumReplace(skb, udpCsum, from, to, f.l4);
    if err < 0 {
      rc := -1;
      err := L3CsumReplace(skb, IP_CSUM, to, from, f.undoL3);
      if err < 0 {
        rc := -2;
      }
      err := StoreAddr(skb, addrOff, from, f.undoStore);
      if err < 0 {
        rc := -2;
      }
      return;
    }
    return 0;
  }

  // ----- Fields

  lemma PutWordAt(p: Packet, off: nat, w: word)
    requires off + 2 <= |p|
    ensures WordAt(PutWord(p, off, w), off) == w
    ensures PutWord(p, off, WordAt(p, off)) == p
  {
  }

  lemma FieldsOf(p: Packet, addrOff: nat, udpCsum: nat, a: Addr, ip: word, udp: word)
    requires Room(p, addrOff, udpCsum)
    ensures var r := WithFields(p, addrOff, udpCsum, a, ip, udp);
            AddrAt(r, addrOff) == a && WordAt(r, IP_CSUM) == ip && WordAt(r, udpCsum) == udp
  {
    PutWordAt(PutAddr(p, addrOff, a), IP_CSUM, ip);
    PutWordAt(PutWord(PutAddr(p, addrOff, a), IP_CSUM, ip), udpCsum, udp);
  }

  lemma WithFieldsTwice(p: Packet, addrOff: nat, udpCsum: nat, a: Addr, ip: word, udp: word,
                        b: Addr, ip': word, udp': word)
    requires Room(p, addrOff, udpCsum)
    ensures WithFields(WithFields(p, addrOff, udpCsum, a, ip, udp), addrOff, udpCsum, b, ip', udp')
         == WithFields(p, addrOff, udpCsum, b, ip', udp')
  {
  }

  lemma WithOwnFields(p: Packet, addrOff: nat, udpCsum: nat, ip: word)
    requires Room(p, addrOff, udpCsum)
    ensures WithFields(p, addrOff, udpCsum, AddrAt(p, addrOff), ip, WordAt(p, udpCsum)) == PutWord(p, IP_CSUM, ip)
    ensures PutWord(p, IP_CSUM, WordAt(p, IP_CSUM)) == p
  {
    PutWordAt(p, udpCsum, WordAt(p, udpCsum));
    PutWordAt(p, IP_CSUM, WordAt(p, IP_CSUM));
  }

  /** The bytes of the address, the IP checksum and the word at `csum`. */
  predicate Touched(i: nat, addrOff: nat, csum: nat) {
    addrOff <= i < addrOff + 4 || IP_CSUM <= i < IP_CSUM + 2 || csum <= i < csum + 2
  }

  lemma FieldsFrame(p: Packet, addrOff: nat, udpCsum: nat, a: Addr, ip: word, udp: word)
    requires Room(p, addrOff, udpCsum)
    ensures forall i :: 0 <= i < |p| && !Touched(i, addrOff, udpCsum) ==>
                          WithFields(p, addrOff, udpCsum, a, ip, udp)[i] == p[i]
  {
  }

  // ----- All or nothing

  /** Failures that leave the packet as it was, apart from the spelling of a zero IP checksum. */
  predicate Undone(f: NatFaults) {
    f.store || (f.l3 && !f.undoStore) || (!f.l3 && f.l4 && !f.undoL3 && !f.undoStore)
  }

  lemma SuccessRewrites(p: Packet, addrOff: nat, udpCsum: nat, to: Addr, f: NatFaults)
    requires Room(p, addrOff, udpCsum) && !f.store && !f.l3 && !f.l4
    ensures var from := AddrAt(p, addrOff);
            Try(p, addrOff, udpCsum, from, to, f) == Attempt(Rewritten(p, addrOff, udpCsum, from, to), 0)
  {
    var stored := PutAddr(p, addrOff, to);
    assert WordAt(stored, IP_CSUM) == WordAt(p, IP_CSUM);
    assert forall w :: WordAt(PutWord(stored, IP_CSUM, w), udpCsum) == WordAt(p, udpCsum);
  }

  lemma FailureUndoes(p: Packet, addrOff: nat, udpCsum: nat, to: Addr, f: NatFaults)
    requires Room(p, addrOff, udpCsum) && Undone(f)
    ensures var r := Try(p, addrOff, udpCsum, AddrAt(p, addrOff), to, f);
            && r.rc == -1
            && (r.packet == p || r.packet == PutWord(p, IP_CSUM, 0))
            && (r.packet == p <==> f.store || f.l3 || WordAt(p, IP_CSUM) != ONES)
  {
    UndoStore(p, addrOff, to);
    UndoAll(p, addrOff, to);
  }

  lemma FailureOutcomes(p: Packet, addrOff: nat, udpCsum: nat, to: Addr, f: NatFaults)
    requires Room(p, addrOff, udpCsum) && (f.store || f.l3 || f.l4)
    ensures var r := Try(p, addrOff, udpCsum, AddrAt(p, addrOff), to, f);
            && r.rc == (if Undone(f) then -1 else -2)
            && forall i :: 0 <= i < |p| && !Touched(i, addrOff, IP_CSUM) ==> r.packet[i] == p[i]
  {
  }

  /**
   Result 0 means fully rewritten and -1 means undone: byte-identical to arrival
   unless the undo passed through an IP checksum of 0xFFFF, which comes back as 0.
   Only -2 can leave a mixed packet, and even then the UDP checksum is untouched.
   */
  lemma AllOrNothing(p: Packet, addrOff: nat, udpCsum: nat, to: Addr, f: NatFaults)
    requires Room(p, addrOff, udpCsum)
    ensures var from := AddrAt(p, addrOff);
            var r := Try(p, addrOff, udpCsum, from, to, f);
            && r.rc == (if !f.store && !f.l3 && !f.l4 then 0 else if Undone(f) then -1 else -2)
            && (r.rc == 0 ==> r.packet == Rewritten(p, addrOff, udpCsum, from, to))
            && (r.rc == -1 ==> r.packet == p || r.packet == PutWord(p, IP_CSUM, 0))
            && (r.rc == -1 ==> (r.packet == p <==> f.store || f.l3 || WordAt(p, IP_CSUM) != ONES))
            && (r.rc != 0 ==> forall i :: 0 <= i < |p| && !Touched(i, addrOff, IP_CSUM) ==> r.packet[i] == p[i])
  {
    if !f.store && !f.l3 && !f.l4 {
      SuccessRewrites(p, addrOff, udpCsum, to, f);
    } else {
      FailureOutcomes(p, addrOff, udpCsum, to, f);
      if Undone(f) {
        FailureUndoes(p, addrOff, udpCsum, to, f);
      }
    }
  }

  /** `q` has this address and IP checksum, and the UDP checksum of `p`. */
  predicate Shows(p: Packet, q: Packet, addrOff: nat, udpCsum: nat, a: Addr, ip: word)
    requires Room(p, addrOff, udpCsum)
  {
    |q| == |p| && AddrAt(q, addrOff) == a && WordAt(q, IP_CSUM) == ip && WordAt(q, udpCsum) == WordAt(p, udpCsum)
  }

  lemma PutAddrShows(p: Packet, q: Packet, addrOff: nat, udpCsum: nat, a: Addr, ip: word, b: Addr)
    requires Room(p, addrOff, udpCsum) && Shows(p, q, addrOff, udpCsum, a, ip)
    ensures Shows(p, PutAddr(q, addrOff, b), addrOff, udpCsum, b, ip)
  {
  }

  lemma PutSumShows(p: Packet, q: Packet, addrOff: nat, udpCsum: nat, a: Addr, ip: word, w: word)
    requires Room(p, addrOff, udpCsum) && Shows(p, q, addrOff, udpCsum, a, ip)
    ensures Shows(p, PutWord(q, IP_CSUM, w), addrOff, udpCsum, a, w)
  {
  }

  /** After -2 exactly the undo that failed is missing: the address, or the IP checksum of the new one, stays. */
  lemma BrokenUndo(p: Packet, addrOff: nat, udpCsum: nat, to: Addr, f: NatFaults)
    requires Room(p, addrOff, udpCsum)
    requires Try(p, addrOff, udpCsum, AddrAt(p, addrOff), to, f).rc == -2
    ensures var from, ip := AddrAt(p, addrOff), WordAt(p, IP_CSUM);
            Shows(p, Try(p, addrOff, udpCsum, from, to, f).packet, addrOff, udpCsum,
                    if f.undoStore then to else from,
                    if f.l3 then ip else if f.undoL3 then Update(ip, from, to)
                    else Update(Update(ip, from, to), to, from))
  {
    var from, ip := AddrAt(p, addrOff), WordAt(p, IP_CSUM);
    var there := Update(ip, from, to);
    var stored := PutAddr(p, addrOff, to);
    PutAddrShows(p, p, addrOff, udpCsum, from, ip, to);
    if !f.l3 {
      var summed := PutWord(stored, IP_CSUM, there);
      PutSumShows(p, stored, addrOff, udpCsum, to, ip, there);
      BrokenUndoEnds(p, summed, addrOff, udpCsum, from, to, there, f);
    }
  }

  lemma BrokenUndoEnds(p: Packet, summed: Packet, addrOff: nat, udpCsum: nat, from: Addr, to: Addr, there: word,
                       f: NatFaults)
    requires Room(p, addrOff, udpCsum) && Shows(p, summed, addrOff, udpCsum, to, there)
    ensures var undone := if f.undoL3 then summed else PutWord(summed, IP_CSUM, Update(there, to, from));
            Shows(p, if f.undoStore then undone else PutAddr(undone, addrOff, from), addrOff, udpCsum,
                    if f.undoStore then to else from, if f.undoL3 then there else Update(there, to, from))
  {
    var back := Update(there, to, from);
    PutSumShows(p, summed, addrOff, udpCsum, to, there, back);
    PutAddrShows(p, summed, addrOff, udpCsum, to, there, from);
    PutAddrShows(p, PutWord(summed, IP_CSUM, back), addrOff, udpCsum, to, back, from);
  }

  lemma UndoStore(p: Packet, addrOff: nat, to: Addr)
    requires addrOff + 4 <= |p|
    ensures PutAddr(PutAddr(p, addrOff, to), addrOff, AddrAt(p, addrOff)) == p
  {
  }

  lemma UndoAll(p: Packet, addrOff: nat, to: Addr)
    requires (addrOff == SADDR || addrOff == DADDR) && addrOff + 4 <= |p|
    ensures var from := AddrAt(p, addrOff);
            var stored := PutAddr(p, addrOff, to);
            var summed := PutWord(stored, IP_CSUM, Update(WordAt(stored, IP_CSUM), from, to));
            var undone := PutWord(summed, IP_CSUM, Update(WordAt(summed, IP_CSUM), to, from));
            var back := PutAddr(undone, addrOff, from);
            var ip := WordAt(p, IP_CSUM);
            && back == PutWord(p, IP_CSUM, if ip == ONES then 0 else ip)
            && (back == p <==> ip != ONES)
  {
    var from := AddrAt(p, addrOff);
    var ip := WordAt(p, IP_CSUM);
    var stored := PutAddr(p, addrOff, to);
    assert WordAt(stored, IP_CSUM) == ip;
    PutWordAt(stored, IP_CSUM, Update(ip, from, to));
    UpdateInverse(ip, from, to);
    PutWordAt(p, IP_CSUM, ip);
    PutWordAt(p, IP_CSUM, 0);
    UndoStore(PutWord(p, IP_CSUM, if ip == ONES then 0 else ip), addrOff, to);
  }

  // ----- Composition and inverse

  /** A→B then B→C is A→C, except for an IP checksum of 0xFFFF going from 255.255.255.255 to 0.0.0.0. */
  lemma RewritesCompose(p: Packet, addrOff: nat, udpCsum: nat, b: Addr, c: Addr)
    requires Room(p, addrOff, udpCsum)
    ensures var a := AddrAt(p, addrOff);
            Rewritten(Rewritten(p, addrOff, udpCsum, a, b), addrOff, udpCsum, b, c)
            == Rewritten(p, addrOff, udpCsum, a, c)
            <==> !(WordAt(p, IP_CSUM) == ONES && a.Hi() == a.Lo() == ONES && c.Hi() == c.Lo() == 0)
  {
    var a := AddrAt(p, addrOff);
    var ip, udp := WordAt(p, IP_CSUM), WordAt(p, udpCsum);
    var ip1, udp1 := Update(ip, a, b), UpdateUdp(udp, a, b);
    FieldsOf(p, addrOff, udpCsum, b, ip1, udp1);
    WithFieldsTwice(p, addrOff, udpCsum, b, ip1, udp1, c, Update(ip1, b, c), UpdateUdp(udp1, b, c));
    UpdateCompose(ip, a, b, c);
    UpdateUdpCompose(udp, a, b, c);
    FieldsOf(p, addrOff, udpCsum, c, Update(ip1, b, c), UpdateUdp(udp1, b, c));
    FieldsOf(p, addrOff, udpCsum, c, Update(ip, a, c), UpdateUdp(udp, a, c));
  }

  /** A→B then B→A restores every byte exactly when the IP checksum was not 0xFFFF. */
  lemma RewritesInvert(p: Packet, addrOff: nat, udpCsum: nat, b: Addr)
    requires Room(p, addrOff, udpCsum)
    ensures var a := AddrAt(p, addrOff);
            var back := Rewritten(Rewritten(p, addrOff, udpCsum, a, b), addrOff, udpCsum, b, a);
            && back == PutWord(p, IP_CSUM, if WordAt(p, IP_CSUM) == ONES then 0 else WordAt(p, IP_CSUM))
            && (back == p <==> WordAt(p, IP_CSUM) != ONES)
  {
    var a := AddrAt(p, addrOff);
    var ip, udp := WordAt(p, IP_CSUM), WordAt(p, udpCsum);
    var ip1, udp1 := Update(ip, a, b), UpdateUdp(udp, a, b);
    FieldsOf(p, addrOff, udpCsum, b, ip1, udp1);
    UpdateInverse(ip, a, b);
    UpdateUdpInverse(udp, a, b);
    WithFieldsTwice(p, addrOff, udpCsum, b, ip1, udp1, a, Update(ip1, b, a), UpdateUdp(udp1, b, a));
    WithOwnFields(p, addrOff, udpCsum, if ip == ONES then 0 else ip);
    PutWordAt(p, IP_CSUM, 0);
  }

  // ----- Checksums stay valid

  /** The sum of the 16-bit words from `lo` to `hi`, an odd last byte padded with zero. */
  function Sum16(p: Packet, lo: nat, hi: nat): nat
    requires hi <= |p|
    decreases hi - lo
  {
    if lo >= hi then 0
    else if lo + 1 == hi then p[lo] * 256
    else WordAt(p, lo) + Sum16(p, lo + 2, hi)
  }

  lemma {:induction false} SumOutside(p: Packet, q: Packet, lo: nat, hi: nat)
    requires hi <= |p| == |q| && forall i :: lo <= i < hi ==> p[i] == q[i]
    ensures Sum16(p, lo, hi) == Sum16(q, lo, hi)
    decreases hi - lo
  {
    if lo + 1 < hi {
      SumOutside(p, q, lo + 2, hi);
    }
  }

  lemma {:induction false} SumPutWord(p: Packet, lo: nat, hi: nat, off: nat, w: word)
    requires lo <= off && off + 2 <= hi <= |p| && (off - lo) % 2 == 0
    ensures Sum16(PutWord(p, off, w), lo, hi) == Sum16(p, lo, hi) - WordAt(p, off) + w
    decreases hi - lo
  {
    if off == lo {
      SumOutside(PutWord(p, off, w), p, lo + 2, hi);
    } else {
      SumPutWord(p, lo + 2, hi, off, w);
    }
  }

  lemma PutAddrWords(p: Packet, off: nat, a: Addr)
    requires off + 4 <= |p|
    ensures PutAddr(p, off, a) == PutWord(PutWord(p, off, a.Hi()), off + 2, a.Lo())
  {
    assert (a.b0 * 256 + a.b1) / 256 == a.b0 && (a.b2 * 256 + a.b3) / 256 == a.b2;
  }

  lemma SumPutAddr(p: Packet, lo: nat, hi: nat, off: nat, a: Addr)
    requires lo <= off && off + 4 <= hi <= |p| && (off - lo) % 2 == 0
    ensures Sum16(PutAddr(p, off, a), lo, hi) == Sum16(p, lo, hi) - AddrAt(p, off).Sum() + a.Sum()
  {
    PutAddrWords(p, off, a);
    SumPutWord(p, lo, hi, off, a.Hi());
    SumPutWord(PutWord(p, off, a.Hi()), lo, hi, off + 2, a.Lo());
  }

  /** The words of an IP header of `ihl` 32-bit words. */
  function HeaderSum(p: Packet, ihl: nat): nat
    requires ETH_HLEN + 4 * ihl <= |p|
  {
    Sum16(p, ETH_HLEN, ETH_HLEN + 4 * ihl)
  }

  /** The UDP pseudo-header and segment, which ends at `end`. */
  function PseudoSum(p: Packet, udp: nat, end: nat): nat
    requires DADDR + 4 <= udp <= end <= |p|
  {
    Sum16(p, SADDR, DADDR + 4) + IPPROTO_UDP + (end - udp) + Sum16(p, udp, end)
  }

  predicate IpValid(p: Packet, ihl: nat)
    requires ETH_HLEN + 4 * ihl <= |p|
  {
    Verifies(HeaderSum(p, ihl))
  }

  predicate UdpValid(p: Packet, udp: nat, end: nat)
    requires DADDR + 4 <= udp && udp + 8 <= end <= |p|
  {
    WordAt(p, udp + 6) == 0 || Verifies(PseudoSum(p, udp, end))
  }

  lemma ShiftCongruent(x': int, x: int, y': int, y: int)
    requires Congruent(y', y) && x' - x == y' - y
    ensures Congruent(x', x)
  {
  }

  lemma SumThreeFields(p: Packet, end: nat, addrOff: nat, udpCsum: nat, a: Addr, ip: word, udp: word)
    requires Room(p, addrOff, udpCsum) && DADDR + 4 <= end <= udpCsum
    ensures Sum16(WithFields(p, addrOff, udpCsum, a, ip, udp), ETH_HLEN, end)
         == Sum16(p, ETH_HLEN, end) - AddrAt(p, addrOff).Sum() + a.Sum() - WordAt(p, IP_CSUM) + ip
  {
    var stored := PutAddr(p, addrOff, a);
    SumPutAddr(p, ETH_HLEN, end, addrOff, a);
    SumPutWord(stored, ETH_HLEN, end, IP_CSUM, ip);
    SumOutside(WithFields(p, addrOff, udpCsum, a, ip, udp), PutWord(stored, IP_CSUM, ip), ETH_HLEN, end);
  }

  lemma HeaderSumKept(p: Packet, ihl: nat, addrOff: nat, to: Addr, ip: word, udp: word)
    requires 5 <= ihl && ETH_HLEN + 4 * ihl + 8 <= |p| && (addrOff == SADDR || addrOff == DADDR)
    requires Congruent(ip + to.Sum(), WordAt(p, IP_CSUM) + AddrAt(p, addrOff).Sum())
    ensures Congruent(HeaderSum(WithFields(p, addrOff, ETH_HLEN + 4 * ihl + 6, to, ip, udp), ihl), HeaderSum(p, ihl))
  {
    var csum := ETH_HLEN + 4 * ihl + 6;
    SumThreeFields(p, ETH_HLEN + 4 * ihl, addrOff, csum, to, ip, udp);
    ShiftCongruent(HeaderSum(WithFields(p, addrOff, csum, to, ip, udp), ihl), HeaderSum(p, ihl),
                   ip + to.Sum(), WordAt(p, IP_CSUM) + AddrAt(p, addrOff).Sum());
  }

  lemma PseudoSumKept(p: Packet, off: nat, end: nat, addrOff: nat, to: Addr, ip: word, udp: word)
    requires DADDR + 4 <= off && off + 8 <= end <= |p| && (addrOff == SADDR || addrOff == DADDR)
    requires Congruent(udp + to.Sum(), WordAt(p, off + 6) + AddrAt(p, addrOff).Sum())
    ensures Congruent(PseudoSum(WithFields(p, addrOff, off + 6, to, ip, udp), off, end), PseudoSum(p, off, end))
  {
    var r := WithFields(p, addrOff, off + 6, to, ip, udp);
    SumPutAddr(p, SADDR, DADDR + 4, addrOff, to);
    SumOutside(r, PutAddr(p, addrOff, to), SADDR, DADDR + 4);
    SumPutWord(p, off, end, off + 6, udp);
    SumOutside(r, PutWord(p, off + 6, udp), off, end);
    ShiftCongruent(PseudoSum(r, off, end), PseudoSum(p, off, end),
                   udp + to.Sum(), WordAt(p, off + 6) + AddrAt(p, addrOff).Sum());
  }

  lemma {:induction false} SumPositive(p: Packet, lo: nat, hi: nat)
    requires lo + 2 <= hi <= |p| && p[lo] > 0
    ensures Sum16(p, lo, hi) > 0
  {
  }

  lemma VerifiesCongruent(a: int, b: int)
    requires Congruent(a, b) && a > 0 && b > 0
    ensures Verifies(a) <==> Verifies(b)
  {
  }

  /** `r` carries the new address, is as valid as `p`, and differs nowhere else. */
  predicate ChecksumsKept(p: Packet, r: Packet, ihl: nat, end: nat, addrOff: nat, to: Addr)
    requires 5 <= ihl && (addrOff == SADDR || addrOff == DADDR)
    requires ETH_HLEN + 4 * ihl + 8 <= end <= |p| == |r|
  {
    var udp := ETH_HLEN + 4 * ihl;
    && AddrAt(r, addrOff) == to
    && (IpValid(r, ihl) <==> IpValid(p, ihl))
    && (UdpValid(r, udp, end) <==> UdpValid(p, udp, end))
    && (WordAt(r, udp + 6) == 0 <==> WordAt(p, udp + 6) == 0)
    && (forall i :: 0 <= i < |p| && !Touched(i, addrOff, udp + 6) ==> r[i] == p[i])
  }

  lemma IpValidKept(p: Packet, ihl: nat, addrOff: nat, to: Addr, ip: word, udp: word)
    requires 5 <= ihl && ETH_HLEN + 4 * ihl + 8 <= |p| && (addrOff == SADDR || addrOff == DADDR) && p[ETH_HLEN] > 0
    requires Congruent(ip + to.Sum(), WordAt(p, IP_CSUM) + AddrAt(p, addrOff).Sum())
    ensures IpValid(WithFields(p, addrOff, ETH_HLEN + 4 * ihl + 6, to, ip, udp), ihl) <==> IpValid(p, ihl)
  {
    var r := WithFields(p, addrOff, ETH_HLEN + 4 * ihl + 6, to, ip, udp);
    SumPositive(p, ETH_HLEN, ETH_HLEN + 4 * ihl);
    SumPositive(r, ETH_HLEN, ETH_HLEN + 4 * ihl);
    HeaderSumKept(p, ihl, addrOff, to, ip, udp);
    VerifiesCongruent(HeaderSum(r, ihl), HeaderSum(p, ihl));
  }

  lemma UdpValidKept(p: Packet, off: nat, end: nat, addrOff: nat, to: Addr, ip: word, udp: word)
    requires DADDR + 4 <= off && off + 8 <= end <= |p| && (addrOff == SADDR || addrOff == DADDR)
    requires udp == 0 <==> WordAt(p, off + 6) == 0
    requires udp != 0 ==> Congruent(udp + to.Sum(), WordAt(p, off + 6) + AddrAt(p, addrOff).Sum())
    ensures UdpValid(WithFields(p, addrOff, off + 6, to, ip, udp), off, end) <==> UdpValid(p, off, end)
  {
    FieldsOf(p, addrOff, off + 6, to, ip, udp);
    if udp != 0 {
      PseudoSumKept(p, off, end, addrOff, to, ip, udp);
      VerifiesCongruent(PseudoSum(WithFields(p, addrOff, off + 6, to, ip, udp), off, end), PseudoSum(p, off, end));
    }
  }

  /** New checksums `ip` and `udp` make up for the new address; an absent UDP checksum stays absent. */
  predicate MakeUp(oldIp: word, oldUdp: word, from: Addr, to: Addr, ip: word, udp: word) {
    && Congruent(ip + to.Sum(), oldIp + from.Sum())
    && (udp == 0 <==> oldUdp == 0)
    && (udp != 0 ==> Congruent(udp + to.Sum(), oldUdp + from.Sum()))
  }

  lemma UpdatesMakeUp(ip: word, udp: word, from: Addr, to: Addr)
    ensures MakeUp(ip, udp, from, to, Update(ip, from, to), UpdateUdp(udp, from, to))
  {
    UpdateConserves(ip, from, to);
    UpdateUdpConserves(udp, from, to);
  }

  lemma FieldsKeepChecksums(p: Packet, ihl: nat, end: nat, addrOff: nat, to: Addr, ip: word, udp: word)
    requires 5 <= ihl && (addrOff == SADDR || addrOff == DADDR)
    requires ETH_HLEN + 4 * ihl + 8 <= end <= |p| && p[ETH_HLEN] > 0
    requires MakeUp(WordAt(p, IP_CSUM), WordAt(p, ETH_HLEN + 4 * ihl + 6), AddrAt(p, addrOff), to, ip, udp)
    ensures ChecksumsKept(p, WithFields(p, addrOff, ETH_HLEN + 4 * ihl + 6, to, ip, udp), ihl, end, addrOff, to)
  {
    var off := ETH_HLEN + 4 * ihl;
    FieldsOf(p, addrOff, off + 6, to, ip, udp);
    FieldsFrame(p, addrOff, off + 6, to, ip, udp);
    IpValidKept(p, ihl, addrOff, to, ip, udp);
    UdpValidKept(p, off, end, addrOff, to, ip, udp);
  }

  lemma RewrittenKeepsChecksums(p: Packet, ihl: nat, end: nat, addrOff: nat, to: Addr)
    requires 5 <= ihl && (addrOff == SADDR || addrOff == DADDR)
    requires ETH_HLEN + 4 * ihl + 8 <= end <= |p| && p[ETH_HLEN] > 0
    ensures ChecksumsKept(p, Rewritten(p, addrOff, ETH_HLEN + 4 * ihl + 6, AddrAt(p, addrOff), to),
                          ihl, end, addrOff, to)
  {
    var from, ip, udp := AddrAt(p, addrOff), WordAt(p, IP_CSUM), WordAt(p, ETH_HLEN + 4 * ihl + 6);
    UpdatesMakeUp(ip, udp, from, to);
    FieldsKeepChecksums(p, ihl, end, addrOff, to, Update(ip, from, to), UpdateUdp(udp, from, to));
  }

  /**
   A complete rewrite keeps both checksums as valid as they were, for every header
   length and every address pair; an absent UDP checksum stays absent and a present
   one present; nothing but the address and the two checksums changes.
   */
  lemma RewriteKeepsChecksums(p: Packet, ihl: nat, end: nat, addrOff: nat, to: Addr)
    requires 5 <= ihl <= 15 && (addrOff == SADDR || addrOff == DADDR)
    requires ETH_HLEN + 4 * ihl + 8 <= end <= |p| && p[ETH_HLEN] % 16 == ihl
    ensures ChecksumsKept(p, Rewritten(p, addrOff, ETH_HLEN + 4 * ihl + 6, AddrAt(p, addrOff), to),
                          ihl, end, addrOff, to)
  {
    RewrittenKeepsChecksums(p, ihl, end, addrOff, to);
  }
}
