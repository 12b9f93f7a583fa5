/**
 The Internet checksum and its incremental update, equation 3 in section 3 of
 RFC 1624: the new checksum is the complement of ~HC + ~m + m' in 16-bit one's
 complement arithmetic, for a field that goes from m to m'.
 */
module Checksum {
  import opened Bytes

  const ONES: word := 0xFFFF

  /** The four bytes of an IPv4 address in wire order. */
  datatype Addr = Addr(b0: byte, b1: byte, b2: byte, b3: byte) {
    function Hi(): word { b0 * 256 + b1 }
    function Lo(): word { b2 * 256 + b3 }
    function Sum(): nat { Hi() + Lo() }
  }

  /** One's complement addition: a carry out of bit 15 comes back in at bit 0. */
  function Plus(a: word, b: word): word {
    if a + b > ONES then a + b - ONES else a + b
  }

  function Complement(a: word): word {
    ONES - a
  }

  /** `bpf_l3_csum_replace` on a 4-byte field. */
  function Update(sum: word, from: Addr, to: Addr): word {
    Complement(Plus(Plus(Plus(Plus(Complement(sum), Complement(from.Hi())), Complement(from.Lo())), to.Hi()), to.Lo()))
  }

  /**
   `bpf_l4_csum_replace` with BPF_F_MARK_MANGLED_0: zero means "no checksum" and is
   left alone, and a computed zero is sent as all ones (RFC 768).
   */
  function UpdateUdp(sum: word, from: Addr, to: Addr): word {
    if sum == 0 then 0
    else
      var updated := Update(sum, from, to);
      if updated == 0 then ONES else updated
  }

  /** Equal in one's complement arithmetic, where 0 and 0xFFFF are the same number. */
  predicate Congruent(a: int, b: int) {
    (a - b) % ONES == 0
  }

  /** The sum of a valid checksummed block is a non-zero multiple of 0xFFFF. */
  predicate Verifies(total: int) {
    total > 0 && total % ONES == 0
  }

  lemma Carries(a: int, b: int, k: int)
    requires a == b + ONES * k
    ensures Congruent(a, b)
  {
  }

  lemma CongruentMeans(a: int, b: int) returns (k: int)
    requires Congruent(a, b)
    ensures a == b + ONES * k
  {
    k := (a - b) / ONES;
  }

  lemma CongruentTransitive(a: int, b: int, c: int)
    requires Congruent(a, b) && Congruent(b, c)
    ensures Congruent(a, c)
  {
    var j := CongruentMeans(a, b);
    var k := CongruentMeans(b, c);
    Carries(a, c, j + k);
  }

  /** What the field gains the checksum loses: their total is preserved mod 0xFFFF. */
  lemma UpdateConserves(sum: word, from: Addr, to: Addr)
    ensures Congruent(Update(sum, from, to) + to.Sum(), sum + from.Sum())
  {
    var s1 := Plus(Complement(sum), Complement(from.Hi()));
    var s2 := Plus(s1, Complement(from.Lo()));
    var s3 := Plus(s2, to.Hi());
    var s4 := Plus(s3, to.Lo());
    var k := (if s1 < Complement(sum) + Complement(from.Hi()) then 1 else 0)
           + (if s2 < s1 + Complement(from.Lo()) then 1 else 0)
           + (if s3 < s2 + to.Hi() then 1 else 0)
           + (if s4 < s3 + to.Lo() then 1 else 0);
    Carries(Update(sum, from, to) + to.Sum(), sum + from.Sum(), k - 2);
  }

  /** A one's complement sum is zero only when every term is. */
  lemma UpdateAllOnes(sum: word, from: Addr, to: Addr)
    ensures Update(sum, from, to) == ONES <==>
            sum == ONES && from.Hi() == from.Lo() == ONES && to.Hi() == to.Lo() == 0
  {
  }

  /** A UDP checksum keeps its total, stays zero if it was, and never becomes zero. */
  lemma UpdateUdpConserves(sum: word, from: Addr, to: Addr)
    ensures UpdateUdp(sum, from, to) == 0 <==> sum == 0
    ensures sum != 0 ==> Congruent(UpdateUdp(sum, from, to) + to.Sum(), sum + from.Sum())
  {
    if sum != 0 {
      UpdateConserves(sum, from, to);
      var k := CongruentMeans(Update(sum, from, to) + to.Sum(), sum + from.Sum());
      if Update(sum, from, to) == 0 {
        Carries(UpdateUdp(sum, from, to) + to.Sum(), sum + from.Sum(), k + 1);
      }
    }
  }

  lemma Cancel(x: int, y: int, c: int, d: int)
    requires Congruent(x + c, d) && Congruent(y + c, d)
    ensures Congruent(x, y)
  {
    var j := CongruentMeans(x + c, d);
    var k := CongruentMeans(y + c, d);
    Carries(x, y, j - k);
  }

  /** Going through `b` preserves the same total as going straight. */
  lemma TwoUpdates(sum: word, a: Addr, b: Addr, c: Addr)
    ensures Congruent(Update(Update(sum, a, b), b, c) + c.Sum(), sum + a.Sum())
    ensures Update(Update(sum, a, b), b, c) != ONES
  {
    UpdateConserves(sum, a, b);
    UpdateConserves(Update(sum, a, b), b, c);
    CongruentTransitive(Update(Update(sum, a, b), b, c) + c.Sum(), Update(sum, a, b) + b.Sum(), sum + a.Sum());
    UpdateAllOnes(sum, a, b);
    UpdateAllOnes(Update(sum, a, b), b, c);
  }

  lemma Representative(x: word, y: word, c: int, d: int)
    requires Congruent(x + c, d) && Congruent(y + c, d) && x != ONES
    ensures x == if y == ONES then 0 else y
  {
    Cancel(x, y, c, d);
    var k := CongruentMeans(x, y);
  }

  /** There and back gives the same checksum, except that 0xFFFF comes back as 0x0000. */
  lemma UpdateInverse(sum: word, a: Addr, b: Addr)
    ensures Update(Update(sum, a, b), b, a) == if sum == ONES then 0 else sum
  {
    TwoUpdates(sum, a, b, a);
    Carries(sum + a.Sum(), sum + a.Sum(), 0);
    Representative(Update(Update(sum, a, b), b, a), sum, a.Sum(), sum + a.Sum());
  }

  /** Two updates agree with one, except for 0xFFFF going from 255.255.255.255 to 0.0.0.0. */
  lemma UpdateCompose(sum: word, a: Addr, b: Addr, c: Addr)
    ensures Update(Update(sum, a, b), b, c) == Update(sum, a, c) <==>
            !(sum == ONES && a.Hi() == a.Lo() == ONES && c.Hi() == c.Lo() == 0)
  {
    TwoUpdates(sum, a, b, c);
    UpdateConserves(sum, a, c);
    UpdateAllOnes(sum, a, c);
    Representative(Update(Update(sum, a, b), b, c), Update(sum, a, c), c.Sum(), sum + a.Sum());
  }

  lemma SameNonzero(x: word, y: word, c: int, d: int)
    requires Congruent(x + c, d) && Congruent(y + c, d) && x != 0 && y != 0
    ensures x == y
  {
    Cancel(x, y, c, d);
    var k := CongruentMeans(x, y);
  }

  lemma TwoUdpUpdates(sum: word, there: word, a: Addr, b: Addr, c: Addr)
    requires sum != 0 && there == UpdateUdp(sum, a, b)
    ensures UpdateUdp(there, b, c) != 0
    ensures Congruent(UpdateUdp(there, b, c) + c.Sum(), sum + a.Sum())
  {
    UpdateUdpConserves(sum, a, b);
    UpdateUdpConserves(there, b, c);
    CongruentTransitive(UpdateUdp(there, b, c) + c.Sum(), there + b.Sum(), sum + a.Sum());
  }

  /** UDP updates compose without exception. */
  lemma UpdateUdpCompose(sum: word, a: Addr, b: Addr, c: Addr)
    ensures UpdateUdp(UpdateUdp(sum, a, b), b, c) == UpdateUdp(sum, a, c)
  {
    if sum != 0 {
      var there := UpdateUdp(sum, a, b);
      TwoUdpUpdates(sum, there, a, b, c);
      UpdateUdpConserves(sum, a, c);
      SameNonzero(UpdateUdp(there, b, c), UpdateUdp(sum, a, c), c.Sum(), sum + a.Sum());
    }
  }

  /** UDP updates invert without exception. */
  lemma UpdateUdpInverse(sum: word, a: Addr, b: Addr)
    ensures UpdateUdp(UpdateUdp(sum, a, b), b, a) == sum
  {
    UpdateUdpCompose(sum, a, b, a);
    UpdateUdpConserves(sum, a, a);
    if sum != 0 {
      Carries(sum + a.Sum(), sum + a.Sum(), 0);
      SameNonzero(UpdateUdp(sum, a, a), sum, a.Sum(), sum + a.Sum());
    }
  }
}
