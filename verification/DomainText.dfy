/** The codec seen through its text: letters, dots and the "*." of a pattern, as they are written. */
module DomainText {
  import opened Bytes
  import opened WireFormat
  import opened SuffixCodec

  const CAPITALS: string := "ABCDEFGHIJKLMNOPQRSTUVWXYZ"
  const SMALLS: string := "abcdefghijklmnopqrstuvwxyz"

  predicate IsByte(b: byte, c: char) {
    b as int == c as int
  }

  /** `b` is what lowering makes of `a`: the small letter of a capital, anything else itself. */
  predicate LowersTo(a: byte, b: byte) {
    || (exists k :: 0 <= k < 26 && IsByte(a, CAPITALS[k]) && IsByte(b, SMALLS[k]))
    || (a == b && forall k :: 0 <= k < 26 ==> !IsByte(a, CAPITALS[k]))
  }

  /** `u` is `t` with its capitals made small. */
  predicate Lowered(t: seq<byte>, u: seq<byte>) {
    |t| == |u| && forall i :: 0 <= i < |t| ==> LowersTo(t[i], u[i])
  }

  /** Equal, or a capital and its small letter, either way round. */
  predicate SameLetter(a: byte, b: byte) {
    || a == b
    || (exists k :: 0 <= k < 26 && IsByte(a, CAPITALS[k]) && IsByte(b, SMALLS[k]))
    || (exists k :: 0 <= k < 26 && IsByte(a, SMALLS[k]) && IsByte(b, CAPITALS[k]))
  }

  predicate SameButCase(a: seq<byte>, b: seq<byte>) {
    |a| == |b| && forall i :: 0 <= i < |a| ==> SameLetter(a[i], b[i])
  }

  lemma Alphabet(k: nat)
    requires k < 26
    ensures CAPITALS[k] as int == 65 + k && SMALLS[k] as int == 97 + k
  {
  }

  lemma LowerByteMeaning(a: byte, b: byte)
    ensures LowersTo(a, b) <==> b == LowerByte(a)
  {
    forall k | 0 <= k < 26 ensures CAPITALS[k] as int == 65 + k && SMALLS[k] as int == 97 + k {
      Alphabet(k);
    }
    if 65 <= a <= 90 {
      assert IsByte(a, CAPITALS[a - 65]);
      if b == LowerByte(a) {
        assert IsByte(b, SMALLS[a - 65]);
      }
    }
  }

  /** What `Lower` does, apart from how: the length stays, and exactly the capitals become their small letters. */
  lemma LowerMeaning(t: seq<byte>, u: seq<byte>)
    ensures Lowered(t, u) <==> u == Lower(t)
  {
    forall i | 0 <= i < |t| && i < |u| ensures LowersTo(t[i], u[i]) <==> u[i] == Lower(t)[i] {
      LowerByteMeaning(t[i], u[i]);
    }
  }

  lemma SameLetterMeaning(a: byte, b: byte)
    ensures SameLetter(a, b) <==> LowerByte(a) == LowerByte(b)
  {
    LowerByteMeaning(a, b);
    LowerByteMeaning(b, a);
    forall k | 0 <= k < 26 ensures CAPITALS[k] as int == 65 + k && SMALLS[k] as int == 97 + k {
      Alphabet(k);
    }
  }

  lemma SameButCaseMeaning(a: seq<byte>, b: seq<byte>)
    ensures SameButCase(a, b) <==> Lower(a) == Lower(b)
  {
    forall i | 0 <= i < |a| && i < |b| ensures SameLetter(a[i], b[i]) <==> Lower(a)[i] == Lower(b)[i] {
      SameLetterMeaning(a[i], b[i]);
    }
  }

  predicate EndsInDot(t: seq<byte>) {
    t != [] && IsByte(t[|t| - 1], '.')
  }

  /** Two domains share a key exactly when they have equal length and agree letter by letter up to case. */
  lemma SharedKeyIff(a: Text, b: Text)
    requires Encodable(a) && Encodable(b) && !EndsInDot(a) && !EndsInDot(b)
    ensures Encoded(a) == Encoded(b) <==> SameButCase(a, b)
  {
    EncodeInjective(a, b);
    SameButCaseMeaning(a, b);
  }

  lemma {:induction false} SplitTrailing(d: seq<byte>)
    ensures Split(d + [DOT]) == Split(d) + [[]]
  {
    var whole := d + [DOT];
    if d == [] {
      assert whole[1..] == [];
    } else {
      SplitTrailing(d[1..]);
      assert whole[1..] == d[1..] + [DOT];
    }
  }

  /** One trailing dot makes no difference; after a second one the domain is refused. */
  lemma TrailingDot(d: Text, dotted: Text)
    requires |dotted| == |d| + 1 && dotted[..|d|] == d && IsByte(dotted[|d|], '.')
    ensures Encoded(dotted) == if EndsInDot(d) then Err else Encoded(d)
  {
    assert TrimDot(dotted) == d;
    if EndsInDot(d) {
      var most := d[..|d| - 1];
      SplitTrailing(Lower(most));
      assert Lower(d) == Lower(most) + [DOT];
      assert !ValidLabel(LabelsOf(dotted)[|Split(Lower(most))|]);
    } else {
      assert TrimDot(d) == d;
    }
  }

  /** So "a.", though accepted, is refused with one more dot. */
  lemma TwoDotsRefused(d: Text)
    requires |d| == 2 && IsByte(d[0], 'a') && IsByte(d[1], '.')
    ensures Encoded(d).Ok? && Encoded(d + [d[1]]) == Err
  {
    SplitPlain([d[0]]);
    assert Lower(TrimDot(d)) == [d[0]];
    TrailingDot(d, d + [d[1]]);
  }

  // ----- Labels as they are written

  predicate NoDot(t: seq<byte>) {
    forall i :: 0 <= i < |t| ==> !IsByte(t[i], '.')
  }

  /** `t` writes the labels out, in any case, with a dot between one and the next. */
  predicate Spells(t: seq<byte>, labels: seq<Label>)
    requires labels != []
  {
    var n := |labels[0]|;
    if |labels| == 1 then Lowered(t, labels[0]) && NoDot(t)
    else && |t| > n && Lowered(t[..n], labels[0]) && NoDot(t[..n])
         && IsByte(t[n], '.') && Spells(t[n + 1..], labels[1..])
  }

  lemma NoDotLower(t: seq<byte>)
    ensures NoDot(t) <==> DotFree(Lower(t))
  {
    if NoDot(t) {
      forall i | 0 <= i < |t| ensures Lower(t)[i] != DOT {
        assert !IsByte(t[i], '.');
      }
    } else {
      var i :| 0 <= i < |t| && IsByte(t[i], '.');
      assert Lower(t)[i] == DOT;
    }
  }

  /** Spelling is what splitting the lowered text at its dots undoes. */
  lemma {:induction false} SpellsIffSplit(t: seq<byte>, labels: seq<Label>)
    requires labels != []
    ensures Spells(t, labels) <==> Split(Lower(t)) == labels
  {
    if Spells(t, labels) {
      SpelledSplits(t, labels);
    }
    if Split(Lower(t)) == labels {
      SplitSpells(t, labels);
    }
  }

  lemma LowerAround(t: seq<byte>, n: nat)
    requires n < |t| && IsByte(t[n], '.')
    ensures Lower(t) == Lower(t[..n]) + [DOT] + Lower(t[n + 1..])
  {
  }

  lemma {:induction false} SpelledSplits(t: seq<byte>, labels: seq<Label>)
    requires labels != [] && Spells(t, labels)
    ensures Split(Lower(t)) == labels
    decreases |labels|
  {
    if |labels| == 1 {
      LowerMeaning(t, labels[0]);
      NoDotLower(t);
      SplitPlain(labels[0]);
    } else {
      var n := |labels[0]|;
      LowerMeaning(t[..n], labels[0]);
      NoDotLower(t[..n]);
      SpelledSplits(t[n + 1..], labels[1..]);
      SplitAtDot(labels[0], Lower(t[n + 1..]));
      LowerAround(t, n);
    }
  }

  lemma LowerParts(t: seq<byte>, front: seq<byte>, back: seq<byte>)
    requires Lower(t) == front + [DOT] + back
    ensures |t| == |front| + 1 + |back| && LowerByte(t[|front|]) == DOT
    ensures Lower(t[..|front|]) == front && Lower(t[|front| + 1..]) == back
  {
    assert |Lower(t)| == |t| && Lower(t)[|front|] == DOT;
    assert Lower(t[..|front|]) == Lower(t)[..|front|];
    assert Lower(t[|front| + 1..]) == Lower(t)[|front| + 1..];
  }

  lemma {:induction false} SplitSpells(t: seq<byte>, labels: seq<Label>)
    requires labels != [] && Split(Lower(t)) == labels
    ensures Spells(t, labels)
    decreases |labels|
  {
    JoinSplit(Lower(t));
    SplitDotFree(Lower(t));
    if |labels| == 1 {
      LowerMeaning(t, labels[0]);
      NoDotLower(t);
    } else {
      var n, rest := |labels[0]|, labels[1..];
      LowerParts(t, labels[0], Join(rest));
      LowerMeaning(t[..n], labels[0]);
      NoDotLower(t[..n]);
      OnlyDotLowersToDot(t[n]);
      SplitJoin(rest);
      SplitSpells(t[n + 1..], rest);
    }
  }

  lemma OnlyDotLowersToDot(b: byte)
    requires LowerByte(b) == DOT
    ensures IsByte(b, '.')
  {
  }

  /** A text gets the key of a label list exactly when it spells that list. */
  lemma EncodedIffSpells(t: Text, labels: seq<Label>)
    requires labels != [] && Fits(labels) && !EndsInDot(t)
    ensures Encoded(t) == Ok(Key(labels)) <==> Spells(t, labels)
  {
    assert TrimDot(t) == t;
    SpellsIffSplit(t, labels);
    if Encoded(t) == Ok(Key(labels)) {
      EncodableFits(t);
      KeyInjective(LabelsOf(t), labels);
    }
    if Spells(t, labels) {
      WireSplitLength(Lower(t));
    }
  }
}
