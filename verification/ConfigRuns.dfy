/** From the text of the config file to the packets: what an accepted configuration does to a query. */
module ConfigRuns {
  import opened Bytes
  import opened WireFormat
  import opened SuffixCodec
  import opened DomainText
  import opened NatRewrite
  import opened RuleTable
  import opened NameMatcher
  import opened Datapath
  import opened RawPackets
  import opened ConfigCheck

  // ----- Patterns as they are written

  /** The pattern is "*." and then the labels, in any case, with dots between them. */
  predicate Writes(pattern: seq<byte>, labels: seq<Label>) {
    && |pattern| >= 2 && IsByte(pattern[0], '*') && IsByte(pattern[1], '.')
    && labels != [] && Spells(pattern[2..], labels)
  }

  /** Every label has one to 63 bytes. */
  predicate Sized(labels: seq<Label>) {
    forall i :: 0 <= i < |labels| ==> 1 <= |labels[i]| <= 63
  }

  /** As many pieces, each as long. */
  predicate SameShape(a: seq<Label>, b: seq<Label>) {
    |a| == |b| && forall i :: 0 <= i < |a| ==> |a[i]| == |b[i]|
  }

  lemma ShapeGrows(a: seq<Label>, b: seq<Label>, x: byte, y: byte)
    requires SameShape(a, b) && a != []
    ensures SameShape([[x] + a[0]] + a[1..], [[y] + b[0]] + b[1..]) && SameShape([[]] + a, [[]] + b)
  {
  }

  lemma {:induction false} SplitOfLower(d: seq<byte>)
    ensures SameShape(Split(Lower(d)), Split(d))
  {
    if d != [] {
      SplitOfLower(d[1..]);
      assert Lower(d)[1..] == Lower(d[1..]);
      LowerDot(d[0]);
      ShapeGrows(Split(Lower(d[1..])), Split(d[1..]), LowerByte(d[0]), d[0]);
    }
  }

  lemma LowerDot(b: byte)
    ensures LowerByte(b) == DOT <==> b == DOT
  {
  }

  lemma ParsedPattern(pattern: Text)
    ensures ParsePattern(pattern).1 <==> |pattern| >= 2 && IsByte(pattern[0], '*') && IsByte(pattern[1], '.')
    ensures ParsePattern(pattern).1 ==> ParsePattern(pattern).0 == pattern[2..]
  {
  }

  /** A trailing dot leaves an empty piece. */
  lemma DotEndsEmpty(d: seq<byte>)
    requires EndsInDot(d)
    ensures !ValidLabels(Split(d))
  {
    var most := d[..|d| - 1];
    SplitTrailing(most);
    assert d == most + [DOT];
    assert !ValidLabel(Split(d)[|Split(most)|]);
  }

  /**
   The validator accepts exactly the rules that write valid labels after "*.", with no other star, and
   name one of the two actions.
   */
  lemma ValidRuleIff(rule: ConfigRule)
    ensures ValidRule(rule) <==>
            && (exists labels :: Sized(labels) && Writes(rule.pattern, labels))
            && (forall i :: 2 <= i < |rule.pattern| ==> !IsByte(rule.pattern[i], '*'))
            && (rule.action == "host-resolve" || rule.action == "cluster-resolve")
  {
    ParsedPattern(rule.pattern);
    if ParsePattern(rule.pattern).1 {
      var suffix := rule.pattern[2..];
      SplitOfLower(suffix);
      assert STAR in suffix <==> exists i :: 2 <= i < |rule.pattern| && IsByte(rule.pattern[i], '*') by {
        StarIn(rule.pattern);
      }
      if ValidLabels(Split(suffix)) {
        SpellsIffSplit(suffix, Split(Lower(suffix)));
        assert Sized(Split(Lower(suffix))) && Writes(rule.pattern, Split(Lower(suffix)));
      }
      if labels :| Sized(labels) && Writes(rule.pattern, labels) {
        SpellsIffSplit(suffix, labels);
      }
    }
  }

  lemma StarIn(pattern: seq<byte>)
    requires |pattern| >= 2
    ensures STAR in pattern[2..] <==> exists i :: 2 <= i < |pattern| && IsByte(pattern[i], '*')
  {
    if i :| 2 <= i < |pattern| && IsByte(pattern[i], '*') {
      assert pattern[2..][i - 2] == STAR;
    }
  }

  /** The pattern writes the labels, perhaps with one more dot at the end. */
  predicate Denotes(pattern: seq<byte>, labels: seq<Label>) {
    Writes(if EndsInDot(pattern) then pattern[..|pattern| - 1] else pattern, labels)
  }

  lemma DenotesIff(pattern: Text, labels: seq<Label>)
    requires ParsePattern(pattern).1 && pattern[2..] != [] && labels != []
    ensures Denotes(pattern, labels) <==> LabelsOf(pattern[2..]) == labels
  {
    var most := if EndsInDot(pattern) then pattern[..|pattern| - 1] else pattern;
    assert TrimDot(pattern[2..]) == most[2..];
    SpellsIffSplit(most[2..], labels);
  }

  /**
   The loader accepts exactly the rules that write labels of 1..63 bytes, at most 127 on the wire,
   after "*.", with no other star, and have action 1 or 2.
   */
  lemma AcceptedIff(rule: Rule)
    ensures Accepted(rule) <==>
            && (exists labels :: Sized(labels) && Denotes(rule.pattern, labels) && |WireLabels(labels)| <= 127)
            && (forall i :: 2 <= i < |rule.pattern| ==> !IsByte(rule.pattern[i], '*'))
            && (rule.action == 1 || rule.action == 2)
  {
    ParsedPattern(rule.pattern);
    if ParsePattern(rule.pattern).1 {
      StarIn(rule.pattern);
      if rule.pattern[2..] != [] {
        SuffixAcceptedIff(rule.pattern);
      } else {
        assert !ValidLabel(LabelsOf([])[0]);
      }
    }
  }

  lemma SuffixAcceptedIff(pattern: Text)
    requires ParsePattern(pattern).1 && pattern[2..] != []
    ensures Encodable(pattern[2..]) <==>
            exists labels :: Sized(labels) && Denotes(pattern, labels) && |WireLabels(labels)| <= 127
  {
    var own := LabelsOf(pattern[2..]);
    if ValidLabels(own) {
      WireSplitLength(Lower(TrimDot(pattern[2..])));
    }
    DenotesIff(pattern, own);
    if Encodable(pattern[2..]) {
      assert Sized(own) && Denotes(pattern, own);
    }
    if labels :| Sized(labels) && Denotes(pattern, labels) && |WireLabels(labels)| <= 127 {
      DenotesIff(pattern, labels);
    }
  }

  /** The labels an accepted rule is installed for are those its pattern writes. */
  lemma RuleLabelsWritten(rule: ConfigRule, labels: seq<Label>)
    requires ValidRule(rule) && labels != []
    ensures LabelsOf(ParsePattern(rule.pattern).0) == labels <==> Writes(rule.pattern, labels)
  {
    ParsedPattern(rule.pattern);
    if EndsInDot(rule.pattern[2..]) {
      DotEndsEmpty(rule.pattern[2..]);
    }
    SpellsIffSplit(rule.pattern[2..], labels);
  }

  // ----- What the configuration says about a name

  /** The rule writes the labels of the name from position `k` on. */
  predicate Covers(rule: ConfigRule, labels: seq<Label>, k: int) {
    0 <= k < |labels| && Writes(rule.pattern, labels[k..])
  }

  /** No rule covers more of the name than from `k` on. */
  ghost predicate NoneLonger(rules: seq<ConfigRule>, labels: seq<Label>, k: int) {
    forall j, m :: 0 <= j < |rules| && m < k ==> !Covers(rules[j], labels, m)
  }

  predicate HostText(action: string) {
    action == "host-resolve"
  }

  lemma HostTextIff(action: string)
    ensures ToBpfAction(action) == HOST_RESOLVE <==> HostText(action)
  {
  }

  /**
   The configuration sends the name to the VPC resolver: the rule that covers most of it says
   "host-resolve", or no rule covers any of it and the default says so.
   */
  ghost predicate SaysHost(default: string, rules: seq<ConfigRule>, labels: seq<Label>) {
    || (exists i, k :: && 0 <= i < |rules| && Covers(rules[i], labels, k) && NoneLonger(rules, labels, k)
                       && HostText(rules[i].action))
    || (NoneLonger(rules, labels, |labels|) && HostText(default))
  }

  predicate ValidRules(default: string, rules: seq<ConfigRule>) {
    ValidActionName(default) && forall i :: 0 <= i < |rules| ==> ValidRule(rules[i])
  }

  lemma CoversIff(rules: seq<ConfigRule>, i: nat, labels: seq<Label>, k: nat)
    requires i < |rules| && ValidRule(rules[i]) && k < |labels|
    ensures Covers(rules[i], labels, k) <==> RuleLabels(ToRules(rules)[i]) == labels[k..]
  {
    RuleLabelsWritten(rules[i], labels[k..]);
  }

  lemma SuitsIff(rules: seq<ConfigRule>, i: nat, labels: seq<Label>)
    requires i < |rules| && ValidRule(rules[i])
    ensures var n := |RuleLabels(ToRules(rules)[i])|;
            n > 0 && (Suits(ToRules(rules)[i], labels) <==> Covers(rules[i], labels, |labels| - n))
  {
    var mine := RuleLabels(ToRules(rules)[i]);
    var k := |labels| - |mine|;
    if 0 <= k < |labels| {
      CoversIff(rules, i, labels, k);
    }
  }

  /** An accepted configuration, translated and decided rule by rule, says what its text says. */
  lemma HostDecidedIffSays(default: string, rules: seq<ConfigRule>, labels: seq<Label>)
    requires ValidRules(default, rules) && labels != []
    ensures HostDecided(ToRules(rules), ToBpfAction(default), labels) <==> SaysHost(default, rules, labels)
  {
    if SaysHost(default, rules, labels) {
      SaidIsDecided(default, rules, labels);
    }
    if matched :| Decides(ToRules(rules), ToBpfAction(default), labels, HOST_RESOLVE, matched) {
      DecidedIsSaid(default, rules, labels, matched);
    }
  }

  lemma DecidedIsSaid(default: string, rules: seq<ConfigRule>, labels: seq<Label>, matched: bool)
    requires ValidRules(default, rules) && labels != []
    requires Decides(ToRules(rules), ToBpfAction(default), labels, HOST_RESOLVE, matched)
    ensures SaysHost(default, rules, labels)
  {
    var bpf := ToRules(rules);
    if matched {
      var i :| 0 <= i < |bpf| && MostSpecific(bpf, labels, i) && bpf[i].action == HOST_RESOLVE;
      RuleSays(default, rules, labels, i);
    } else {
      HostTextIff(default);
      NoneSuits(rules, labels);
    }
  }

  lemma RuleSays(default: string, rules: seq<ConfigRule>, labels: seq<Label>, i: nat)
    requires ValidRules(default, rules) && i < |rules| && MostSpecific(ToRules(rules), labels, i)
    requires ToRules(rules)[i].action == HOST_RESOLVE
    ensures SaysHost(default, rules, labels)
  {
    var k := |labels| - |RuleLabels(ToRules(rules)[i])|;
    SuitsIff(rules, i, labels);
    HostTextIff(rules[i].action);
    MostSpecificIsLongest(rules, labels, i);
    assert Covers(rules[i], labels, k) && NoneLonger(rules, labels, k);
  }

  lemma NoneSuits(rules: seq<ConfigRule>, labels: seq<Label>)
    requires forall j :: 0 <= j < |rules| ==> ValidRule(rules[j]) && !Suits(ToRules(rules)[j], labels)
    ensures NoneLonger(rules, labels, |labels|)
  {
    forall j, m | 0 <= j < |rules| && m < |labels| ensures !Covers(rules[j], labels, m) {
      if Covers(rules[j], labels, m) {
        CoversIff(rules, j, labels, m);
      }
    }
  }

  lemma MostSpecificIsLongest(rules: seq<ConfigRule>, labels: seq<Label>, i: nat)
    requires i < |rules| && MostSpecific(ToRules(rules), labels, i)
    requires forall j :: 0 <= j < |rules| ==> ValidRule(rules[j])
    ensures NoneLonger(rules, labels, |labels| - |RuleLabels(ToRules(rules)[i])|)
  {
    var bpf := ToRules(rules);
    forall j, m | 0 <= j < |rules| && m < |labels| - |RuleLabels(bpf[i])| ensures !Covers(rules[j], labels, m) {
      if Covers(rules[j], labels, m) {
        CoversIff(rules, j, labels, m);
      }
    }
  }

  lemma SaidIsDecided(default: string, rules: seq<ConfigRule>, labels: seq<Label>)
    requires ValidRules(default, rules) && labels != [] && SaysHost(default, rules, labels)
    ensures HostDecided(ToRules(rules), ToBpfAction(default), labels)
  {
    var bpf := ToRules(rules);
    if i, k :| && 0 <= i < |rules| && Covers(rules[i], labels, k) && NoneLonger(rules, labels, k)
               && HostText(rules[i].action) {
      CoversIff(rules, i, labels, k);
      HostTextIff(rules[i].action);
      forall j | 0 <= j < |bpf| && Suits(bpf[j], labels) ensures |RuleLabels(bpf[j])| <= |RuleLabels(bpf[i])| {
        SuitsIff(rules, j, labels);
      }
      assert MostSpecific(bpf, labels, i) && bpf[i].action == HOST_RESOLVE;
      assert Decides(bpf, ToBpfAction(default), labels, HOST_RESOLVE, true);
    } else {
      HostTextIff(default);
      forall j | 0 <= j < |bpf| ensures !Suits(bpf[j], labels) {
        SuitsIff(rules, j, labels);
      }
      assert Decides(bpf, ToBpfAction(default), labels, HOST_RESOLVE, false);
    }
  }

  /**
   From config file to packet: with an accepted configuration installed, a query for a name of one to
   ten labels, given by its bytes, leaves for the VPC resolver exactly when the text of the
   configuration says so, bypass is off and no helper fails; otherwise it stays untouched, but for
   what a failed rewrite leaves.
   */
  lemma ConfigReachesPacket(default: string, rules: seq<ConfigRule>, s: State, p: Packet, ihl: nat, now: nat,
                            f: Faults, labels: seq<Label>, r: Outcome)
    requires ValidRules(default, rules) && Installable(ToRules(rules))
    requires s.rules == Desired(ToRules(rules)) && s.config.defaultAction == ToBpfAction(default)
    requires QueryBytes(p, ihl, s.config) && Names(p, ihl, labels) && r == IngressStep(s, p, now, f)
    ensures r.event.Redirect? <==>
            SaysHost(default, rules, labels) && IngressRuns(s, f) && RewriteWorks(f.rewrite)
    ensures r.event.Redirect? ==> |r.packet| == |p| && r.packet[30..34] == Quad(s.config.hostResolverIp)
    ensures !(SaysHost(default, rules, labels) && IngressRuns(s, f)) ==> Untouched(s, p, r)
  {
    HostDecidedIffSays(default, rules, labels);
    QueryIsDecided(s, ToRules(rules), p, ihl, now, f, labels);
    if r.event.Redirect? {
      RedirectBytes(s, p, now, f);
    }
  }
}
