/** Translation between dotted domains and rule keys (internal/dnsenc/wire.go). */
module SuffixCodec {
  import opened Bytes
  import opened WireFormat

  const DOT: byte := 46
  const STAR: byte := 42

  /** Domain text, one byte per character, restricted to ASCII. */
  type Text = s: seq<byte> | IsAscii(s)

  predicate IsAscii(s: seq<byte>) {
    forall i :: 0 <= i < |s| ==> s[i] < 128
  }

  function TrimDot(d: seq<byte>): seq<byte> {
    if d != [] && d[|d| - 1] == DOT then d[..|d| - 1] else d
  }

  function LowerByte(c: byte): byte {
    if 65 <= c <= 90 then c + 32 else c
  }

  function Lower(d: seq<byte>): seq<byte> {
    seq(|d|, i requires 0 <= i < |d| => LowerByte(d[i]))
  }

  /** The pieces of `d` between dots; a leading, trailing or doubled dot gives an empty piece. */
  function Split(d: seq<byte>): (pieces: seq<Label>)
    ensures pieces != []
  {
    if d == [] then [[]]
    else if d[0] == DOT then [[]] + Split(d[1..])
    else var rest := Split(d[1..]); [[d[0]] + rest[0]] + rest[1..]
  }

  function Join(pieces: seq<Label>): seq<byte>
  {
    if pieces == [] then []
    else if |pieces| == 1 then pieces[0]
    else pieces[0] + [DOT] + Join(pieces[1..])
  }

  /** The labels a domain stands for. */
  function LabelsOf(domain: Text): (labels: seq<Label>)
  {
    Split(Lower(TrimDot(domain)))
  }

  predicate Encodable(domain: Text) {
    |TrimDot(domain)| <= 126 && ValidLabels(LabelsOf(domain))
  }

  /** The key `EncodeSuffix` gives, or the fact that it refuses. */
  function Encoded(domain: Text): Result<seq<byte>>
  {
    if Encodable(domain) then EncodableFits(domain); Ok(Key(LabelsOf(domain))) else Err
  }

  /** The text `DecodeSuffix` gives for a key, or the fact that it refuses. */
  function Decoded(key: seq<byte>): Result<seq<byte>> {
    match ReadLabels(key, 0)
    case None => Err
    case Some(labels) => if labels == [] then Err else Ok(Join(labels))
  }

  lemma {:induction false} WireSplitLength(d: seq<byte>)
    requires ValidLabels(Split(d))
    ensures |WireLabels(Split(d))| == |d| + 1
  {
    WireLength(Split(d));
    JoinSplit(d);
  }

  /** The wire form is one byte longer than the dotted form. */
  lemma {:induction false} WireLength(labels: seq<Label>)
    requires ValidLabels(labels) && labels != []
    ensures |WireLabels(labels)| == |Join(labels)| + 1
  {
    if |labels| > 1 {
      WireLength(labels[1..]);
    } else {
      assert WireLabels(labels[1..]) == [];
    }
  }

  /** A byte put in front of the first piece comes out in front of the joined text. */
  lemma JoinPrefix(c: byte, pieces: seq<Label>)
    requires pieces != []
    ensures Join([[c] + pieces[0]] + pieces[1..]) == [c] + Join(pieces)
  {
    var longer := [[c] + pieces[0]] + pieces[1..];
    assert longer[1..] == pieces[1..];
    if |pieces| > 1 {
      assert Join(longer) == [c] + pieces[0] + [DOT] + Join(pieces[1..]);
    }
  }

  /** An empty first piece comes out as a leading dot. */
  lemma JoinEmptyFirst(pieces: seq<Label>)
    requires pieces != []
    ensures Join([[]] + pieces) == [DOT] + Join(pieces)
  {
    assert ([[]] + pieces)[1..] == pieces;
  }

  lemma {:induction false} JoinSplit(d: seq<byte>)
    ensures Join(Split(d)) == d
  {
    if d != [] {
      JoinSplit(d[1..]);
      var rest := Split(d[1..]);
      if d[0] == DOT {
        JoinEmptyFirst(rest);
      } else {
        JoinPrefix(d[0], rest);
      }
      assert d == [d[0]] + d[1..];
    }
  }

  predicate DotFree(lab: Label) {
    forall i :: 0 <= i < |lab| ==> lab[i] != DOT
  }

  lemma {:induction false} SplitDotFree(d: seq<byte>)
    ensures forall i :: 0 <= i < |Split(d)| ==> DotFree(Split(d)[i])
  {
    if d != [] {
      SplitDotFree(d[1..]);
    }
  }

  lemma {:induction false} SplitPlain(lab: Label)
    requires DotFree(lab)
    ensures Split(lab) == [lab]
  {
    if lab != [] {
      SplitPlain(lab[1..]);
      assert [lab[0]] + lab[1..] == lab;
    }
  }

  lemma {:induction false} SplitAtDot(lab: Label, d: seq<byte>)
    requires DotFree(lab)
    ensures Split(lab + [DOT] + d) == [lab] + Split(d)
  {
    var whole := lab + [DOT] + d;
    if lab == [] {
      assert whole[1..] == d;
    } else {
      SplitAtDot(lab[1..], d);
      assert whole[1..] == lab[1..] + [DOT] + d;
      assert [lab[0]] + lab[1..] == lab;
    }
  }

  lemma {:induction false} SplitJoin(labels: seq<Label>)
    requires labels != [] && forall i :: 0 <= i < |labels| ==> DotFree(labels[i])
    ensures Split(Join(labels)) == labels
  {
    if |labels| == 1 {
      SplitPlain(labels[0]);
    } else {
      SplitJoin(labels[1..]);
      SplitAtDot(labels[0], Join(labels[1..]));
    }
  }

  lemma EncodableFits(domain: Text)
    requires Encodable(domain)
    ensures Fits(LabelsOf(domain))
  {
    WireSplitLength(Lower(TrimDot(domain)));
  }

  /** Writes one length byte and label after the `done` bytes already in the key. */
  method PutLabel(key: array<byte>, pos: nat, lab: Label, ghost done: seq<byte>)
    requires ValidLabel(lab) && pos + 1 + |lab| <= key.Length == MAX_DNS_NAME_LEN
    requires pos == |done| && key[..] == Pad(done)
    modifies key
    ensures key[..] == Pad(done + ([|lab|] + lab))
  {
    key[pos] := |lab|;
    forall k | 0 <= k < |lab| {
      key[pos + 1 + k] := lab[k];
    }
    PadExtend(done, [|lab|] + lab);
    assert key[..] == Pad(done)[..pos] + ([|lab|] + lab) + Pad(done)[pos + 1 + |lab|..];
  }

  lemma PadExtend(a: seq<byte>, b: seq<byte>)
    requires |a| + |b| <= MAX_DNS_NAME_LEN
    ensures Pad(a)[..|a|] + b + Pad(a)[|a| + |b|..] == Pad(a + b)
  {
  }

  /** Fills a 128-byte key label by label; refuses empty, overlong and overflowing labels. */
  method EncodeSuffix(domain: Text) returns (r: Result<seq<byte>>)
    ensures r.Ok? <==> |TrimDot(domain)| <= 126 && ValidLabels(LabelsOf(domain))
    ensures r == Encoded(domain)
  {
    var key := new byte[MAX_DNS_NAME_LEN](_ => 0);
    var text := Lower(TrimDot(domain));
    var labels := Split(text);
    if text == [] {
      assert !ValidLabel(labels[0]);
      return Err;
    }
    var pos := 0;
    assert key[..] == Pad([]);
    for i := 0 to |labels|
      invariant ValidLabels(labels[..i])
      invariant pos == |WireLabels(labels[..i])| < MAX_DNS_NAME_LEN
      invariant key[..] == Pad(WireLabels(labels[..i]))
    {
      var lab := labels[i];
      if |lab| == 0 {
        return Err;
      }
      if |lab| > MAX_LABEL_LEN {
        return Err;
      }
      WirePrefix(labels, i);
      if pos + 1 + |lab| >= MAX_DNS_NAME_LEN {
        TooLong(text, i + 1);
        return Err;
      }
      PutLabel(key, pos, lab, WireLabels(labels[..i]));
      pos := pos + 1 + |lab|;
    }
    assert labels[..|labels|] == labels;
    WireSplitLength(text);
    Terminated(labels);
    key[pos] := 0;
    assert key[..] == Key(labels);
    r := Ok(key[..]);
  }

  /** The padding after the labels already holds their terminator. */
  lemma Terminated(labels: seq<Label>)
    requires ValidLabels(labels) && |WireLabels(labels)| < MAX_DNS_NAME_LEN
    ensures Pad(WireLabels(labels)) == Key(labels) && Key(labels)[|WireLabels(labels)|] == 0
  {
    PadExtend(WireLabels(labels), [0]);
  }

  lemma WirePrefix(labels: seq<Label>, i: nat)
    requires i < |labels| && ValidLabels(labels[..i]) && ValidLabel(labels[i])
    ensures ValidLabels(labels[..i + 1])
    ensures WireLabels(labels[..i + 1]) == WireLabels(labels[..i]) + ([|labels[i]|] + labels[i])
  {
    assert labels[..i + 1] == labels[..i] + [labels[i]];
    WireLabelsOne(labels[i]);
    WireLabelsAppend(labels[..i], [labels[i]]);
  }

  /** If a prefix of the labels already overflows the key, the domain is too long. */
  lemma TooLong(text: seq<byte>, n: nat)
    requires n <= |Split(text)| && ValidLabels(Split(text)[..n])
    requires |WireLabels(Split(text)[..n])| >= MAX_DNS_NAME_LEN
    ensures |text| <= 126 ==> !ValidLabels(Split(text))
  {
    var labels := Split(text);
    if ValidLabels(labels) {
      assert labels[..n] + labels[n..] == labels;
      WireLabelsAppend(labels[..n], labels[n..]);
      WireSplitLength(text);
    }
  }

  /** `labels` are those before `pos`: reading the whole key goes on with what stands there. */
  ghost predicate Gathered(key: seq<byte>, pos: nat, labels: seq<Label>) {
    match ReadLabels(key, pos)
    case None => ReadLabels(key, 0) == None
    case Some(rest) => ReadLabels(key, 0) == Some(labels + rest)
  }

  lemma GatherLabel(key: seq<byte>, pos: nat, labels: seq<Label>)
    requires Gathered(key, pos, labels)
    requires pos < |key| && 1 <= key[pos] <= MAX_LABEL_LEN && pos + 1 + key[pos] <= |key|
    ensures Gathered(key, pos + 1 + key[pos], labels + [key[pos + 1..pos + 1 + key[pos]]])
  {
    var piece, rest := key[pos + 1..pos + 1 + key[pos]], ReadLabels(key, pos + 1 + key[pos]);
    if rest.Some? {
      assert labels + ([piece] + rest.value) == labels + [piece] + rest.value;
    }
  }

  /** Reads labels up to the terminator and joins them with dots. */
  method DecodeSuffix(key: seq<byte>) returns (r: Result<seq<byte>>)
    requires |key| == MAX_DNS_NAME_LEN
    ensures r == Decoded(key)
  {
    var labels: seq<Label> := [];
    var pos := 0;
    assert Gathered(key, 0, []) by {
      if ReadLabels(key, 0).Some? {
        assert [] + ReadLabels(key, 0).value == ReadLabels(key, 0).value;
      }
    }
    while true
      invariant 0 <= pos <= MAX_DNS_NAME_LEN && Gathered(key, pos, labels)
      decreases MAX_DNS_NAME_LEN - pos
    {
      if pos >= MAX_DNS_NAME_LEN {
        return Err;
      }
      var n := key[pos];
      if n == 0 {
        assert labels + [] == labels;
        break;
      }
      if n > MAX_LABEL_LEN {
        return Err;
      }
      pos := pos + 1;
      if pos + n > MAX_DNS_NAME_LEN {
        return Err;
      }
      GatherLabel(key, pos - 1, labels);
      labels := labels + [key[pos..pos + n]];
      pos := pos + n;
    }
    if labels == [] {
      return Err;
    }
    return Ok(Join(labels));
  }

  /** Decoding succeeds exactly on keys that hold a non-empty terminated name, and gives that name. */
  lemma DecodedMeaning(key: seq<byte>, text: seq<byte>)
    ensures Decoded(key) == Ok(text)
            <==> exists labels :: labels != [] && NameAt(key, 0, labels) && text == Join(labels)
  {
    forall labels ensures ReadLabels(key, 0) == Some(labels) <==> NameAt(key, 0, labels) {
      ReadLabelsIff(key, 0, labels);
    }
  }

  /** Decoding an encoded domain gives the lowercased domain without its trailing dot. */
  lemma DecodeAfterEncode(domain: Text)
    requires Encodable(domain)
    ensures Encoded(domain).Ok? && Decoded(Encoded(domain).value) == Ok(Lower(TrimDot(domain)))
  {
    EncodableFits(domain);
    ReadLabelsKey(LabelsOf(domain));
    JoinSplit(Lower(TrimDot(domain)));
  }

  /** Two domains share a key exactly when they are the same name up to case and a trailing dot. */
  lemma EncodeInjective(a: Text, b: Text)
    requires Encodable(a) && Encodable(b)
    ensures Encoded(a) == Encoded(b) <==> Lower(TrimDot(a)) == Lower(TrimDot(b))
  {
    DecodeAfterEncode(a);
    DecodeAfterEncode(b);
  }

  predicate Canonical(lab: Label) {
    DotFree(lab) && Lower(lab) == lab
  }

  lemma {:induction false} LowerSplit(d: seq<byte>)
    requires Lower(d) == d
    ensures forall i :: 0 <= i < |Split(d)| ==> Lower(Split(d)[i]) == Split(d)[i]
  {
    if d != [] {
      assert forall i :: 0 <= i < |d| ==> Lower(d)[i] == d[i];
      assert Lower(d[1..]) == d[1..];
      LowerSplit(d[1..]);
      var rest := Split(d[1..]);
      assert Lower(rest[0]) == rest[0];
      assert forall i :: 0 <= i < |rest[0]| ==> Lower(rest[0])[i] == rest[0][i];
    }
  }

  lemma {:induction false} LowerJoin(labels: seq<Label>)
    requires forall i :: 0 <= i < |labels| ==> Lower(labels[i]) == labels[i]
    ensures Lower(Join(labels)) == Join(labels)
  {
    if |labels| > 1 {
      LowerJoin(labels[1..]);
      var tail := Join(labels[1..]);
      assert Lower(labels[0] + [DOT] + tail) == Lower(labels[0]) + [DOT] + Lower(tail);
    }
  }

  /** A non-empty last label keeps `TrimDot` from taking anything. */
  lemma {:induction false} JoinKeepsEnd(labels: seq<Label>)
    requires labels != [] && labels[|labels| - 1] != [] && DotFree(labels[|labels| - 1])
    ensures TrimDot(Join(labels)) == Join(labels)
  {
    if |labels| > 1 {
      JoinKeepsEnd(labels[1..]);
      assert Join(labels) != [] && Join(labels[1..]) != [];
    }
  }

  /**
   Encoding a decoded key gives the key back exactly when its labels hold no dot
   and no capital and everything after the terminator is zero.
   */
  lemma EncodeAfterDecode(key: seq<byte>, labels: seq<Label>)
    requires |key| == MAX_DNS_NAME_LEN && NameAt(key, 0, labels) && labels != []
    requires IsAscii(Join(labels))
    ensures Decoded(key) == Ok(Join(labels))
    ensures Encoded(Join(labels)) == Ok(key) <==>
            && (forall i :: 0 <= i < |labels| ==> Canonical(labels[i]))
            && (forall i :: |WireLabels(labels)| <= i < |key| ==> key[i] == 0)
  {
    ReadLabelsIff(key, 0, labels);
    if Encoded(Join(labels)) == Ok(key) {
      EncodedIsCanonical(key, labels);
    }
    if && (forall i :: 0 <= i < |labels| ==> Canonical(labels[i]))
       && (forall i :: |WireLabels(labels)| <= i < |key| ==> key[i] == 0) {
      CanonicalIsEncoded(key, labels);
    }
  }

  lemma EncodedIsCanonical(key: seq<byte>, labels: seq<Label>)
    requires |key| == MAX_DNS_NAME_LEN && NameAt(key, 0, labels) && labels != []
    requires IsAscii(Join(labels)) && Encoded(Join(labels)) == Ok(key)
    ensures forall i :: 0 <= i < |labels| ==> Canonical(labels[i])
    ensures forall i :: |WireLabels(labels)| <= i < |key| ==> key[i] == 0
  {
    var d: Text := Join(labels);
    ReadLabelsIff(key, 0, labels);
    EncodableFits(d);
    ReadLabelsKey(LabelsOf(d));
    assert labels == LabelsOf(d);
    SplitDotFree(Lower(TrimDot(d)));
    LowerIdempotent(TrimDot(d));
    LowerSplit(Lower(TrimDot(d)));
    KeyShape(labels);
  }

  lemma CanonicalIsEncoded(key: seq<byte>, labels: seq<Label>)
    requires |key| == MAX_DNS_NAME_LEN && NameAt(key, 0, labels) && labels != []
    requires IsAscii(Join(labels)) && forall i :: 0 <= i < |labels| ==> Canonical(labels[i])
    requires forall i :: |WireLabels(labels)| <= i < |key| ==> key[i] == 0
    ensures Encoded(Join(labels)) == Ok(key)
  {
    JoinKeepsEnd(labels);
    LowerJoin(labels);
    SplitJoin(labels);
    WireLength(labels);
    assert key == Key(labels);
  }

  lemma LowerIdempotent(d: seq<byte>)
    ensures Lower(Lower(d)) == Lower(d)
  {
  }

  /** The part of a pattern after "*.", and whether that prefix was there. */
  function ParsePattern(pattern: Text): (r: (Text, bool))
    ensures r.1 ==> pattern == [STAR, DOT] + r.0
  {
    if |pattern| >= 2 && pattern[0] == STAR && pattern[1] == DOT then (pattern[2..], true) else (pattern, false)
  }
}
