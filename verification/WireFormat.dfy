/**
 The DNS wire form of a name (section 3.1 of RFC 1035): one length byte and
 the label's bytes for each label, then a zero byte.  A rule key is that form
 zero-padded to the fixed key width of `struct suffix_key`.
 */
module WireFormat {
  import opened Bytes

  const MAX_DNS_NAME_LEN: nat := 128
  const MAX_LABELS: nat := 10
  const MAX_LABEL_LEN: nat := 63

  type Label = seq<byte>

  predicate ValidLabel(lab: Label) {
    1 <= |lab| <= MAX_LABEL_LEN
  }

  predicate ValidLabels(labels: seq<Label>) {
    forall i :: 0 <= i < |labels| ==> ValidLabel(labels[i])
  }

  function WireLabels(labels: seq<Label>): seq<byte>
    requires ValidLabels(labels)
  {
    if labels == [] then [] else [|labels[0]|] + labels[0] + WireLabels(labels[1..])
  }

  /** The complete wire form, terminator included. */
  function WireName(labels: seq<Label>): seq<byte>
    requires ValidLabels(labels)
  {
    WireLabels(labels) + [0]
  }

  function Zeros(n: nat): seq<byte> {
    seq(n, _ => 0)
  }

  function Pad(bytes: seq<byte>): (key: seq<byte>)
    requires |bytes| <= MAX_DNS_NAME_LEN
    ensures |key| == MAX_DNS_NAME_LEN
  {
    bytes + Zeros(MAX_DNS_NAME_LEN - |bytes|)
  }

  /** A label list whose wire form, terminator included, fits a key. */
  predicate Fits(labels: seq<Label>) {
    ValidLabels(labels) && |WireName(labels)| <= MAX_DNS_NAME_LEN
  }

  /** The `suffix_rules` key of a label list. */
  function Key(labels: seq<Label>): (key: seq<byte>)
    requires Fits(labels)
    ensures |key| == MAX_DNS_NAME_LEN
  {
    Pad(WireName(labels))
  }

  predicate IsSuffix<T(==)>(s: seq<T>, t: seq<T>) {
    |s| <= |t| && t[|t| - |s|..] == s
  }

  /** `bytes` holds the wire form of `labels` at `pos`, without the terminator. */
  predicate HoldsAt(bytes: seq<byte>, pos: nat, labels: seq<Label>)
    requires ValidLabels(labels)
  {
    pos + |WireLabels(labels)| <= |bytes| && bytes[pos..pos + |WireLabels(labels)|] == WireLabels(labels)
  }

  lemma HoldsAtCons(bytes: seq<byte>, pos: nat, labels: seq<Label>)
    requires ValidLabels(labels) && labels != []
    ensures HoldsAt(bytes, pos, labels) <==>
            && pos + 1 + |labels[0]| <= |bytes|
            && bytes[pos] == |labels[0]|
            && bytes[pos + 1..pos + 1 + |labels[0]|] == labels[0]
            && HoldsAt(bytes, pos + 1 + |labels[0]|, labels[1..])
  {
    var wire, n := WireLabels(labels), |labels[0]|;
    var rest := WireLabels(labels[1..]);
    assert wire[0] == n && wire[1..1 + n] == labels[0] && wire[1 + n..] == rest;
    if HoldsAt(bytes, pos, labels) {
      var here := bytes[pos..pos + |wire|];
      assert forall i :: 0 <= i < |wire| ==> bytes[pos + i] == here[i];
      assert bytes[pos + 1..pos + 1 + n] == here[1..1 + n];
      assert bytes[pos + 1 + n..pos + 1 + n + |rest|] == here[1 + n..];
    }
  }

  /** A padded key holds its labels at 0, then nothing but zeros. */
  lemma KeyShape(labels: seq<Label>)
    requires Fits(labels)
    ensures HoldsAt(Key(labels), 0, labels)
    ensures forall i :: |WireLabels(labels)| <= i < MAX_DNS_NAME_LEN ==> Key(labels)[i] == 0
  {
    assert Key(labels)[..|WireLabels(labels)|] == WireLabels(labels);
  }

  /** The terminated label list that starts at `pos`, if there is one. */
  function ReadLabels(bytes: seq<byte>, pos: nat): Option<seq<Label>>
    decreases |bytes| - pos
  {
    if pos >= |bytes| then None
    else
      var n := bytes[pos];
      if n == 0 then Some([])
      else if n > MAX_LABEL_LEN || pos + 1 + n > |bytes| then None
      else
        match ReadLabels(bytes, pos + 1 + n)
        case None => None
        case Some(rest) => Some([bytes[pos + 1..pos + 1 + n]] + rest)
  }

  predicate NameAt(bytes: seq<byte>, pos: nat, labels: seq<Label>) {
    && ValidLabels(labels)
    && HoldsAt(bytes, pos, labels)
    && pos + |WireLabels(labels)| < |bytes|
    && bytes[pos + |WireLabels(labels)|] == 0
  }

  /** Reading finds exactly the wire forms: the encoding is unambiguous and prefix-free. */
  lemma {:induction false} ReadLabelsIff(bytes: seq<byte>, pos: nat, labels: seq<Label>)
    ensures ReadLabels(bytes, pos) == Some(labels) <==> NameAt(bytes, pos, labels)
    decreases |labels|
  {
    if labels != [] && pos < |bytes| && bytes[pos] != 0 && pos + 1 + bytes[pos] <= |bytes| {
      var n := bytes[pos];
      ReadLabelsIff(bytes, pos + 1 + n, labels[1..]);
      assert labels == [labels[0]] + labels[1..];
    }
    if labels != [] && ValidLabels(labels) {
      HoldsAtCons(bytes, pos, labels);
    }
    if ReadLabels(bytes, pos) == Some(labels) && labels != [] {
      assert ValidLabels(labels[1..]);
      assert forall i :: 1 <= i < |labels| ==> labels[i] == labels[1..][i - 1];
    }
  }

  lemma ReadLabelsKey(labels: seq<Label>)
    requires Fits(labels)
    ensures ReadLabels(Key(labels), 0) == Some(labels)
  {
    KeyShape(labels);
    ReadLabelsIff(Key(labels), 0, labels);
  }

  /** Padding to the key width loses nothing: distinct label lists have distinct keys. */
  lemma KeyInjective(a: seq<Label>, b: seq<Label>)
    requires Fits(a) && Fits(b) && Key(a) == Key(b)
    ensures a == b
  {
    ReadLabelsKey(a);
    ReadLabelsKey(b);
  }

  lemma {:induction false} WireLabelsAppend(a: seq<Label>, b: seq<Label>)
    requires ValidLabels(a) && ValidLabels(b)
    ensures ValidLabels(a + b) && WireLabels(a + b) == WireLabels(a) + WireLabels(b)
  {
    if a == [] {
      assert a + b == b;
    } else {
      WireLabelsAppend(a[1..], b);
      assert (a + b)[0] == a[0] && (a + b)[1..] == a[1..] + b;
      assert ValidLabels(a + b) by {
        forall i | 0 <= i < |a + b| ensures ValidLabel((a + b)[i]) {
        }
      }
      assert WireLabels(a + b) == [|a[0]|] + a[0] + (WireLabels(a[1..]) + WireLabels(b));
    }
  }

  lemma WireLabelsOne(lab: Label)
    requires ValidLabel(lab)
    ensures ValidLabels([lab]) && WireLabels([lab]) == [|lab|] + lab
  {
    assert WireLabels([lab][1..]) == [];
  }

  /** A label made of NUL bytes only, which no resolver asks for but a rule may hold. */
  predicate AllNul(lab: Label) {
    lab == Zeros(|lab|)
  }

  /**
   The key built from a name cut after its tenth label ends in the next length
   byte `n` instead of a terminator.  It is a rule's key exactly when the rule
   continues the cut labels with one all-NUL label of `n` bytes.
   */
  lemma {:induction false} CutKeyMatches(cut: seq<Label>, n: byte, rule: seq<Label>)
    requires ValidLabels(cut) && n > 0 && |WireLabels(cut)| + 1 <= MAX_DNS_NAME_LEN
    requires Fits(rule)
    ensures Pad(WireLabels(cut) + [n]) == Key(rule) <==> rule == cut + [Zeros(n)]
  {
    var key := Pad(WireLabels(cut) + [n]);
    var w := |WireLabels(cut)|;
    assert key[..w] == WireLabels(cut) && key[w] == n;
    KeyShape(rule);
    if key == Key(rule) {
      CutKeyForces(key, 0, cut, n, rule);
    }
    if rule == cut + [Zeros(n)] {
      assert ValidLabel(rule[|cut|]);
      WireLabelsOne(Zeros(n));
      WireLabelsAppend(cut, [Zeros(n)]);
      assert key == Key(rule);
    }
  }

  lemma {:induction false} CutKeyForces(key: seq<byte>, pos: nat, cut: seq<Label>, n: byte, rule: seq<Label>)
    requires ValidLabels(cut) && ValidLabels(rule) && n > 0
    requires HoldsAt(key, pos, cut) && HoldsAt(key, pos, rule)
    requires var e := pos + |WireLabels(cut)|;
             && e < |key| && key[e] == n && forall i :: e < i < |key| ==> key[i] == 0
    requires var e := pos + |WireLabels(rule)|; e < |key| && key[e] == 0
    ensures rule == cut + [Zeros(n)]
    decreases |cut|
  {
    if cut != [] {
      HoldsAtCons(key, pos, cut);
    }
    if rule == [] {
      assert false;
    }
    HoldsAtCons(key, pos, rule);
    if cut == [] {
      assert rule[0] == Zeros(n);
      if rule[1..] != [] {
        HoldsAtCons(key, pos + 1 + |rule[0]|, rule[1..]);
      }
      assert rule == [rule[0]] + rule[1..];
    } else {
      CutKeyForces(key, pos + 1 + |cut[0]|, cut[1..], n, rule[1..]);
      assert rule == [rule[0]] + rule[1..] && cut == [cut[0]] + cut[1..];
    }
  }
}
