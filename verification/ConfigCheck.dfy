/**
 Validation of the rule section of the config file (internal/config/config.go) and
 its translation to installed rules (cmd/bpf-dns-gateway/main.go).
 */
module ConfigCheck {
  import opened Bytes
  import opened WireFormat
  import opened SuffixCodec
  import opened RuleTable
  import opened NameMatcher

  const HOST_RESOLVE_NAME := "host-resolve"
  const CLUSTER_RESOLVE_NAME := "cluster-resolve"

  datatype ConfigRule = ConfigRule(pattern: Text, action: string)

  predicate ValidActionName(action: string) {
    action == HOST_RESOLVE_NAME || action == CLUSTER_RESOLVE_NAME
  }

  predicate ValidRule(rule: ConfigRule) {
    var (suffix, wildcard) := ParsePattern(rule.pattern);
    wildcard && STAR !in suffix && ValidLabels(Split(suffix)) && ValidActionName(rule.action)
  }

  /** Anything but "host-resolve" keeps the query on CoreDNS. */
  function ToBpfAction(action: string): nat {
    if action == HOST_RESOLVE_NAME then HOST_RESOLVE else CLUSTER_RESOLVE
  }

  function ToRules(rules: seq<ConfigRule>): seq<Rule> {
    seq(|rules|, i requires 0 <= i < |rules| => Rule(rules[i].pattern, ToBpfAction(rules[i].action)))
  }

  method ValidateRule(rule: ConfigRule) returns (ok: bool)
    ensures ok <==> ValidRule(rule)
  {
    var (suffix, wildcard) := ParsePattern(rule.pattern);
    if rule.pattern == [] || !wildcard || STAR in suffix || suffix == [] {
      assert suffix == [] ==> !ValidLabel(Split(suffix)[0]);
      return false;
    }
    var labels := Split(suffix);
    for i := 0 to |labels|
      invariant ValidLabels(labels[..i])
    {
      if labels[i] == [] || |labels[i]| > MAX_LABEL_LEN {
        return false;
      }
    }
    assert labels[..|labels|] == labels;
    return rule.action != "" && ValidActionName(rule.action);
  }

  /** The rule loop: every rule is well-formed and at least one differs from the default. */
  method ValidateRules(default: string, rules: seq<ConfigRule>) returns (ok: bool)
    ensures ok <==> && ValidActionName(default)
                    && (forall i :: 0 <= i < |rules| ==> ValidRule(rules[i]))
                    && (exists i :: 0 <= i < |rules| && rules[i].action != default)
  {
    if !ValidActionName(default) || |rules| == 0 {
      return false;
    }
    var differing := false;
    for i := 0 to |rules|
      invariant forall j :: 0 <= j < i ==> ValidRule(rules[j])
      invariant differing <==> exists j :: 0 <= j < i && rules[j].action != default
    {
      var valid := ValidateRule(rules[i]);
      if !valid {
        return false;
      }
      if rules[i].action != default {
        differing := true;
      }
    }
    return differing;
  }

  /** A question whose resolved action is not the default. */
  ghost predicate Deviates(window: seq<byte>, table: Table, default: nat) {
    && |window| <= MAX_DNS_NAME_LEN
    && Resolve(window, table, default).Resolved?
    && Resolve(window, table, default).action != default
  }

  /**
   A config does something exactly when a reachable rule differs from the default:
   the validator's test, which ignores reachability, is not enough.
   */
  lemma NoOpExactly(default: string, rules: seq<ConfigRule>)
    requires ValidActionName(default) && forall i :: 0 <= i < |rules| ==> ValidRule(rules[i])
    requires Installable(ToRules(rules))
    ensures (exists window :: Deviates(window, Desired(ToRules(rules)), ToBpfAction(default)))
            <==> (exists i :: 0 <= i < |rules| && rules[i].action != default && Reachable(ToRules(rules)[i]))
  {
    var bpf, d := ToRules(rules), ToBpfAction(default);
    forall window | Deviates(window, Desired(bpf), d)
      ensures exists i :: 0 <= i < |rules| && rules[i].action != default && Reachable(bpf[i])
    {
      MatchedRuleIsReachable(bpf, d, window);
    }
    forall i | 0 <= i < |rules| && rules[i].action != default && Reachable(bpf[i])
      ensures exists window :: Deviates(window, Desired(bpf), d)
    {
      assert ValidRule(rules[i]);
      var window := OwnNameReaches(bpf, d, i);
      assert Deviates(window, Desired(bpf), d);
    }
  }

  function Letters(n: nat): seq<Label> {
    seq(n, _ => [97])
  }

  lemma {:induction false} JoinLetters(n: nat)
    requires n > 0
    ensures |Join(Letters(n))| == 2 * n - 1
    ensures forall c :: c in Join(Letters(n)) ==> c == 97 || c == DOT
  {
    if n > 1 {
      JoinLetters(n - 1);
      assert Letters(n)[1..] == Letters(n - 1);
    }
  }

  /** The pattern "*.a.a…a" stands for its labels. */
  lemma LettersRule(n: nat) returns (pattern: Text)
    requires n > 0
    ensures ParsePattern(pattern) == (Join(Letters(n)), true)
    ensures Split(Join(Letters(n))) == LabelsOf(Join(Letters(n))) == Letters(n)
    ensures |TrimDot(Join(Letters(n)))| == 2 * n - 1 && STAR !in Join(Letters(n))
  {
    JoinLetters(n);
    var d := Join(Letters(n));
    forall i | 0 <= i < |d| ensures d[i] == 97 || d[i] == DOT {
      assert d[i] in d;
    }
    pattern := [STAR, DOT] + d;
    assert pattern[2..] == d;
    SplitJoin(Letters(n));
    JoinKeepsEnd(Letters(n));
    assert Lower(d) == d;
  }

  /** The validator accepts configs that can never act: one differing rule of more than ten labels. */
  lemma AcceptedNoOp(n: nat) returns (rule: ConfigRule)
    requires MAX_LABELS < n <= 63
    ensures ValidRule(rule) && rule.action != CLUSTER_RESOLVE_NAME
    ensures Installable(ToRules([rule]))
    ensures forall window :: !Deviates(window, Desired(ToRules([rule])), ToBpfAction(CLUSTER_RESOLVE_NAME))
  {
    var pattern := LettersRule(n);
    rule := ConfigRule(pattern, HOST_RESOLVE_NAME);
    LoneRule(rule, Letters(n));
  }

  lemma LoneRule(rule: ConfigRule, labels: seq<Label>)
    requires ValidRule(rule) && rule.action != CLUSTER_RESOLVE_NAME && Encodable(ParsePattern(rule.pattern).0)
    requires LabelsOf(ParsePattern(rule.pattern).0) == labels && |labels| > MAX_LABELS
    requires forall i :: 0 <= i < |labels| ==> !AllNul(labels[i])
    ensures Installable(ToRules([rule]))
    ensures forall window :: !Deviates(window, Desired(ToRules([rule])), ToBpfAction(CLUSTER_RESOLVE_NAME))
  {
    assert RuleLabels(ToRules([rule])[0]) == labels;
    NoOpExactly(CLUSTER_RESOLVE_NAME, [rule]);
  }
}
