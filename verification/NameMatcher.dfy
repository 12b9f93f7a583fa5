/**
 Resolving a query name to an action: the label walk and the padded lookups of
 `dns_gateway_ingress` (bpf/dns_gateway.c), against a specification over label lists.
 */
module NameMatcher {
  import opened Bytes
  import opened WireFormat
  import opened SuffixCodec
  import opened RuleTable

  datatype Walked = BadLabel | Walked(offsets: seq<nat>, end: nat)

  /** Label offsets from `pos` on, at most `budget` of them, and where the walk stopped. */
  function Walk(window: seq<byte>, pos: nat, budget: nat): (r: Walked)
    ensures r.Walked? ==> pos <= r.end && forall i :: 0 <= i < |r.offsets| ==> pos <= r.offsets[i] < r.end
    decreases |window|, budget
  {
    if budget == 0 || pos >= |window| || window[pos] == 0 then Walked([], pos)
    else if window[pos] > MAX_LABEL_LEN then BadLabel
    else
      match Walk(window, pos + 1 + window[pos], budget - 1)
      case BadLabel => BadLabel
      case Walked(offsets, end) => Walked([pos] + offsets, end)
  }

  /** Looks up the padded bytes from each offset through `end`, first hit wins. */
  function FirstMatch(window: seq<byte>, offsets: seq<nat>, end: nat, table: Table): Option<nat>
    requires end < |window| <= MAX_DNS_NAME_LEN && forall i :: 0 <= i < |offsets| ==> offsets[i] < end
  {
    if offsets == [] then None
    else
      var key := Pad(window[offsets[0]..end + 1]);
      if key in table then Some(table[key]) else FirstMatch(window, offsets[1..], end, table)
  }

  /** `NoName` passes without a counter, `BadName` counts a parse error. */
  datatype Resolution = NoName | BadName | Resolved(action: nat, matched: bool)

  /** What ingress decides for the bytes of the question it loaded. */
  function Resolve(window: seq<byte>, table: Table, default: nat): Resolution
    requires |window| <= MAX_DNS_NAME_LEN
  {
    match Walk(window, 0, MAX_LABELS)
    case BadLabel => BadName
    case Walked(offsets, end) =>
      if offsets == [] || end >= |window| then NoName
      else
        match FirstMatch(window, offsets, end, table)
        case None => Resolved(default, false)
        case Some(action) => Resolved(action, true)
  }

  // ----- The walk in terms of labels

  function Offsets(labels: seq<Label>, pos: nat): seq<nat> {
    if labels == [] then [] else [pos] + Offsets(labels[1..], pos + 1 + |labels[0]|)
  }

  /**
   A walk that stops inside the window passed over valid labels held there; it
   stopped at a terminator or because it had used up its label budget.
   */
  lemma {:induction false} WalkHolds(window: seq<byte>, pos: nat, budget: nat) returns (labels: seq<Label>)
    requires Walk(window, pos, budget).Walked? && Walk(window, pos, budget).end < |window|
    ensures ValidLabels(labels) && HoldsAt(window, pos, labels) && |labels| <= budget
    ensures Walk(window, pos, budget) == Walked(Offsets(labels, pos), pos + |WireLabels(labels)|)
    ensures window[pos + |WireLabels(labels)|] != 0 ==> |labels| == budget
    decreases budget
  {
    if budget == 0 || window[pos] == 0 {
      labels := [];
    } else {
      var n := window[pos];
      var rest := WalkHolds(window, pos + 1 + n, budget - 1);
      labels := [window[pos + 1..pos + 1 + n]] + rest;
      LabelBefore(window, pos, rest);
      assert Walk(window, pos, budget).offsets == [pos] + Offsets(rest, pos + 1 + n);
    }
  }

  /** One more label held in the window, in front of the `rest` held after it. */
  lemma LabelBefore(window: seq<byte>, pos: nat, rest: seq<Label>)
    requires pos < |window| && 1 <= window[pos] <= MAX_LABEL_LEN && ValidLabels(rest)
    requires HoldsAt(window, pos + 1 + window[pos], rest)
    ensures var labels := [window[pos + 1..pos + 1 + window[pos]]] + rest;
            && ValidLabels(labels) && HoldsAt(window, pos, labels)
            && Offsets(labels, pos) == [pos] + Offsets(rest, pos + 1 + window[pos])
            && |WireLabels(labels)| == 1 + window[pos] + |WireLabels(rest)|
  {
    var labels := [window[pos + 1..pos + 1 + window[pos]]] + rest;
    assert labels[1..] == rest && |labels[0]| == window[pos];
    HoldsAtCons(window, pos, labels);
  }

  /** Conversely, labels held in the window and followed by a terminator or the end of the budget are walked. */
  lemma {:induction false} WalkOf(window: seq<byte>, pos: nat, budget: nat, labels: seq<Label>)
    requires ValidLabels(labels) && HoldsAt(window, pos, labels) && |labels| <= budget
    requires pos + |WireLabels(labels)| < |window|
    requires window[pos + |WireLabels(labels)|] == 0 || |labels| == budget
    ensures Walk(window, pos, budget) == Walked(Offsets(labels, pos), pos + |WireLabels(labels)|)
    decreases budget
  {
    if labels != [] {
      HoldsAtCons(window, pos, labels);
      WalkOf(window, pos + 1 + |labels[0]|, budget - 1, labels[1..]);
    }
  }

  /** Longest suffix first over label lists; `last` is the byte where a terminator would be. */
  function Longest(table: Table, labels: seq<Label>, last: byte): Option<nat>
    requires ValidLabels(labels) && |WireLabels(labels)| < MAX_DNS_NAME_LEN
  {
    if labels == [] then None
    else
      var key := Pad(WireLabels(labels) + [last]);
      if key in table then Some(table[key]) else Longest(table, labels[1..], last)
  }

  lemma {:induction false} FirstMatchIsLongest(window: seq<byte>, pos: nat, labels: seq<Label>, table: Table)
    requires ValidLabels(labels) && HoldsAt(window, pos, labels)
    requires pos + |WireLabels(labels)| < |window| <= MAX_DNS_NAME_LEN
    ensures var end := pos + |WireLabels(labels)|;
            && (forall i :: 0 <= i < |Offsets(labels, pos)| ==> Offsets(labels, pos)[i] < end)
            && FirstMatch(window, Offsets(labels, pos), end, table) == Longest(table, labels, window[end])
    decreases |labels|
  {
    if labels != [] {
      var end := pos + |WireLabels(labels)|;
      HoldsAtCons(window, pos, labels);
      FirstMatchIsLongest(window, pos + 1 + |labels[0]|, labels[1..], table);
      assert Offsets(labels, pos)[1..] == Offsets(labels[1..], pos + 1 + |labels[0]|);
      assert window[pos..end + 1] == WireLabels(labels) + [window[end]];
    }
  }

  /** The question bytes resolve as the labels they hold do. */
  lemma ResolveHeld(window: seq<byte>, labels: seq<Label>, table: Table, default: nat)
    requires ValidLabels(labels) && HoldsAt(window, 0, labels) && 1 <= |labels| <= MAX_LABELS
    requires |WireLabels(labels)| < |window| <= MAX_DNS_NAME_LEN
    requires window[|WireLabels(labels)|] == 0 || |labels| == MAX_LABELS
    ensures Resolve(window, table, default) ==
            match Longest(table, labels, window[|WireLabels(labels)|])
            case None => Resolved(default, false)
            case Some(action) => Resolved(action, true)
  {
    WalkOf(window, 0, MAX_LABELS, labels);
    FirstMatchIsLongest(window, 0, labels, table);
  }

  /** The window starts with these labels, at most ten, and has a byte to spare after them. */
  predicate StartsWith(window: seq<byte>, labels: seq<Label>) {
    ValidLabels(labels) && HoldsAt(window, 0, labels) && |labels| <= MAX_LABELS && |WireLabels(labels)| < |window|
  }

  /** A question resolves exactly when it starts with one to ten labels that end there or fill the budget. */
  lemma ResolvedIff(window: seq<byte>, table: Table, default: nat)
    requires |window| <= MAX_DNS_NAME_LEN
    ensures Resolve(window, table, default).Resolved? <==>
            exists labels :: StartsWith(window, labels) && labels != []
                             && (window[|WireLabels(labels)|] == 0 || |labels| == MAX_LABELS)
  {
    if Resolve(window, table, default).Resolved? {
      var labels := WalkHolds(window, 0, MAX_LABELS);
      assert StartsWith(window, labels) && labels != [];
    }
    forall labels | StartsWith(window, labels) && labels != []
                    && (window[|WireLabels(labels)|] == 0 || |labels| == MAX_LABELS)
      ensures Resolve(window, table, default).Resolved?
    {
      ResolveHeld(window, labels, table, default);
    }
  }

  lemma {:induction false} WalkMeetsBad(window: seq<byte>, pos: nat, budget: nat, labels: seq<Label>)
    requires ValidLabels(labels) && HoldsAt(window, pos, labels) && |labels| < budget
    requires pos + |WireLabels(labels)| < |window| && window[pos + |WireLabels(labels)|] > MAX_LABEL_LEN
    ensures Walk(window, pos, budget) == BadLabel
    decreases |labels|
  {
    if labels != [] {
      HoldsAtCons(window, pos, labels);
      WalkMeetsBad(window, pos + 1 + |labels[0]|, budget - 1, labels[1..]);
    }
  }

  lemma {:induction false} BadWalkHolds(window: seq<byte>, pos: nat, budget: nat) returns (labels: seq<Label>)
    requires Walk(window, pos, budget) == BadLabel
    ensures ValidLabels(labels) && HoldsAt(window, pos, labels) && |labels| < budget
    ensures pos + |WireLabels(labels)| < |window| && window[pos + |WireLabels(labels)|] > MAX_LABEL_LEN
    decreases budget
  {
    var n := window[pos];
    if n > MAX_LABEL_LEN {
      labels := [];
    } else {
      var rest := BadWalkHolds(window, pos + 1 + n, budget - 1);
      labels := [window[pos + 1..pos + 1 + n]] + rest;
      assert labels[1..] == rest;
      HoldsAtCons(window, pos, labels);
    }
  }

  /** A parse error is counted exactly when fewer than ten labels are followed by a length above 63. */
  lemma BadNameIff(window: seq<byte>, table: Table, default: nat)
    requires |window| <= MAX_DNS_NAME_LEN
    ensures Resolve(window, table, default) == BadName <==>
            exists labels :: StartsWith(window, labels) && |labels| < MAX_LABELS
                             && window[|WireLabels(labels)|] > MAX_LABEL_LEN
  {
    if Resolve(window, table, default) == BadName {
      var labels := BadWalkHolds(window, 0, MAX_LABELS);
      assert StartsWith(window, labels);
    }
    forall labels | StartsWith(window, labels) && |labels| < MAX_LABELS && window[|WireLabels(labels)|] > MAX_LABEL_LEN
      ensures Resolve(window, table, default) == BadName
    {
      WalkMeetsBad(window, 0, MAX_LABELS, labels);
    }
  }

  // ----- The specification over label lists

  /** The rule's labels are the last labels of the name; the name itself counts. */
  predicate Suits(rule: Rule, labels: seq<Label>) {
    IsSuffix(RuleLabels(rule), labels)
  }

  /** Rule `i` suits the name and no suitable rule has more labels. */
  predicate MostSpecific(rules: seq<Rule>, labels: seq<Label>, i: nat)
    requires i < |rules|
  {
    Suits(rules[i], labels)
    && forall j :: 0 <= j < |rules| && Suits(rules[j], labels) ==> |RuleLabels(rules[j])| <= |RuleLabels(rules[i])|
  }

  /** The documented rule: the most specific rule decides, else the default action. */
  ghost predicate Decides(rules: seq<Rule>, default: nat, labels: seq<Label>, action: nat, matched: bool) {
    if matched then exists i :: 0 <= i < |rules| && MostSpecific(rules, labels, i) && rules[i].action == action
    else action == default && forall i :: 0 <= i < |rules| ==> !Suits(rules[i], labels)
  }

  /** A key is installed exactly when some rule has those labels, and then with that rule's action. */
  lemma KeyInstalled(rules: seq<Rule>, labels: seq<Label>)
    requires Installable(rules) && Fits(labels)
    ensures Key(labels) in Desired(rules) <==> exists i :: 0 <= i < |rules| && RuleLabels(rules[i]) == labels
    ensures forall i :: 0 <= i < |rules| && RuleLabels(rules[i]) == labels ==>
                          Key(labels) in Desired(rules) && Desired(rules)[Key(labels)] == rules[i].action
  {
    DesiredMeaning(rules);
    if Key(labels) in Desired(rules) {
      var i :| 0 <= i < |rules| && RuleKey(rules[i]) == Key(labels);
      KeyInjective(RuleLabels(rules[i]), labels);
    }
    forall i | 0 <= i < |rules| && RuleLabels(rules[i]) == labels
      ensures Key(labels) in Desired(rules) && Desired(rules)[Key(labels)] == rules[i].action
    {
      assert RuleKey(rules[i]) == Key(labels);
    }
  }

  lemma {:induction false} LongestDecides(rules: seq<Rule>, default: nat, labels: seq<Label>)
    requires Installable(rules) && Fits(labels)
    ensures match Longest(Desired(rules), labels, 0)
            case None => Decides(rules, default, labels, default, false)
            case Some(action) => Decides(rules, default, labels, action, true)
  {
    if labels != [] {
      KeyInstalled(rules, labels);
      if Key(labels) in Desired(rules) {
        var i :| 0 <= i < |rules| && RuleLabels(rules[i]) == labels;
        assert MostSpecific(rules, labels, i);
      } else {
        LongestDecides(rules, default, labels[1..]);
        forall i | 0 <= i < |rules| ensures Suits(rules[i], labels) <==> Suits(rules[i], labels[1..]) {
          SuffixOfTail(RuleLabels(rules[i]), labels);
        }
        forall i | 0 <= i < |rules| && MostSpecific(rules, labels[1..], i) ensures MostSpecific(rules, labels, i) {
        }
      }
    }
  }

  lemma SuffixOfTail<T>(s: seq<T>, t: seq<T>)
    requires t != []
    ensures IsSuffix(s, t) <==> s == t || IsSuffix(s, t[1..])
  {
    if |s| < |t| {
      assert t[|t| - |s|..] == t[1..][|t| - 1 - |s|..];
    }
  }

  /** At most one answer meets the specification. */
  lemma DecidesUnique(rules: seq<Rule>, default: nat, labels: seq<Label>, a: nat, m: bool, b: nat, n: bool)
    requires Installable(rules)
    requires Decides(rules, default, labels, a, m) && Decides(rules, default, labels, b, n)
    ensures a == b && m == n
  {
    if m && n {
      var i :| 0 <= i < |rules| && MostSpecific(rules, labels, i) && rules[i].action == a;
      var j :| 0 <= j < |rules| && MostSpecific(rules, labels, j) && rules[j].action == b;
      assert RuleLabels(rules[i]) == RuleLabels(rules[j]);
      DesiredMeaning(rules);
    }
  }

  /**
   Matching refines its specification: for every installed rule list and every name of one to
   ten labels that lies in the loaded window, the padded lookups give the action of
   the most specific rule, else the default.
   */
  lemma MatchRefinesSpec(rules: seq<Rule>, default: nat, window: seq<byte>, labels: seq<Label>,
                         action: nat, matched: bool)
    requires Installable(rules) && |window| <= MAX_DNS_NAME_LEN
    requires NameAt(window, 0, labels) && 1 <= |labels| <= MAX_LABELS
    ensures Resolve(window, Desired(rules), default) == Resolved(action, matched)
            <==> Decides(rules, default, labels, action, matched)
  {
    ResolveHeld(window, labels, Desired(rules), default);
    LongestDecides(rules, default, labels);
    var r := Resolve(window, Desired(rules), default);
    assert r.Resolved? && Decides(rules, default, labels, r.action, r.matched);
    if Decides(rules, default, labels, action, matched) {
      DecidesUnique(rules, default, labels, action, matched, r.action, r.matched);
    }
  }

  /** Rule labels are lowercase. */
  lemma RuleLabelsLower(rule: Rule, i: nat)
    requires i < |RuleLabels(rule)|
    ensures Lower(RuleLabels(rule)[i]) == RuleLabels(rule)[i]
  {
    var domain := ParsePattern(rule.pattern).0;
    LowerIdempotent(TrimDot(domain));
    LowerSplit(Lower(TrimDot(domain)));
  }

  predicate HasCapital(lab: Label) {
    Lower(lab) != lab
  }

  lemma SuitsBeyondCapital(rule: Rule, labels: seq<Label>, k: nat)
    requires k < |labels| && HasCapital(labels[k])
    ensures Suits(rule, labels) <==> Suits(rule, labels[k + 1..])
  {
    var mine := RuleLabels(rule);
    if |mine| + k < |labels| {
      assert labels[k + 1..][|labels| - k - 1 - |mine|..] == labels[|labels| - |mine|..];
    } else if |mine| <= |labels| {
      var at := k - (|labels| - |mine|);
      assert labels[|labels| - |mine|..][at] == labels[k];
      RuleLabelsLower(rule, at);
    }
  }

  /**
   Capitals hide exactly the labels up to them: a name with a capital in label `k` is decided
   as the rest of the name after that label is.
   */
  lemma CapitalHidesPrefix(rules: seq<Rule>, default: nat, labels: seq<Label>, k: nat, action: nat, matched: bool)
    requires k < |labels| && HasCapital(labels[k])
    ensures Decides(rules, default, labels, action, matched)
            <==> Decides(rules, default, labels[k + 1..], action, matched)
  {
    forall i | 0 <= i < |rules| ensures Suits(rules[i], labels) <==> Suits(rules[i], labels[k + 1..]) {
      SuitsBeyondCapital(rules[i], labels, k);
    }
    forall i | 0 <= i < |rules| ensures MostSpecific(rules, labels, i) <==> MostSpecific(rules, labels[k + 1..], i) {
    }
  }

  /** A name with a capital in its last label takes the default action: CoreDNS only if that is cluster-resolve. */
  lemma MixedCaseTakesDefault(rules: seq<Rule>, default: nat, window: seq<byte>, labels: seq<Label>)
    requires Installable(rules) && |window| <= MAX_DNS_NAME_LEN
    requires NameAt(window, 0, labels) && 1 <= |labels| <= MAX_LABELS && HasCapital(labels[|labels| - 1])
    ensures Resolve(window, Desired(rules), default) == Resolved(default, false)
  {
    assert labels[|labels|..] == [];
    assert Decides(rules, default, labels[|labels|..], default, false);
    CapitalHidesPrefix(rules, default, labels, |labels| - 1, default, false);
    MatchRefinesSpec(rules, default, window, labels, default, false);
  }

  /** But a name with capitals before a rule's labels is matched all the same. */
  lemma MixedCaseStillMatches(rules: seq<Rule>, default: nat, i: nat, lab: Label) returns (window: seq<byte>)
    requires Installable(rules) && i < |rules| && |RuleLabels(rules[i])| < MAX_LABELS
    requires HasCapital(lab) && Fits([lab] + RuleLabels(rules[i]))
    ensures |window| <= MAX_DNS_NAME_LEN && NameAt(window, 0, [lab] + RuleLabels(rules[i]))
    ensures Resolve(window, Desired(rules), default) == Resolved(rules[i].action, true)
  {
    var labels := [lab] + RuleLabels(rules[i]);
    window := Key(labels);
    KeyShape(labels);
    assert labels[1..] == RuleLabels(rules[i]);
    assert MostSpecific(rules, labels[1..], i);
    CapitalHidesPrefix(rules, default, labels, 0, rules[i].action, true);
    MatchRefinesSpec(rules, default, window, labels, rules[i].action, true);
  }

  // ----- Names cut at the label budget

  /** The window goes on after ten labels: its eleventh length byte is not a terminator. */
  predicate CutAt(window: seq<byte>, cut: seq<Label>) {
    && |cut| == MAX_LABELS && ValidLabels(cut) && HoldsAt(window, 0, cut)
    && |WireLabels(cut)| < |window| && window[|WireLabels(cut)|] != 0
  }

  /** A rule reached by a cut name: some of the cut labels, then one all-NUL label of the next length. */
  predicate NulRule(rule: Rule, cut: seq<Label>, n: byte) {
    var labels := RuleLabels(rule);
    && 2 <= |labels| <= |cut| + 1
    && labels[|labels| - 1] == Zeros(n)
    && IsSuffix(labels[..|labels| - 1], cut)
  }

  /** Rule `i` is such a rule and none of them has more labels. */
  predicate LongestNulRule(rules: seq<Rule>, cut: seq<Label>, n: byte, i: nat)
    requires i < |rules|
  {
    NulRule(rules[i], cut, n)
    && forall j :: 0 <= j < |rules| && NulRule(rules[j], cut, n) ==> |RuleLabels(rules[j])| <= |RuleLabels(rules[i])|
  }

  lemma CutKeyInstalled(rules: seq<Rule>, cut: seq<Label>, n: byte)
    requires Installable(rules) && ValidLabels(cut) && n > 0 && |WireLabels(cut)| < MAX_DNS_NAME_LEN
    ensures var key := Pad(WireLabels(cut) + [n]);
            && (key in Desired(rules) <==> exists i :: 0 <= i < |rules| && RuleLabels(rules[i]) == cut + [Zeros(n)])
            && (key in Desired(rules) ==>
                  exists i :: 0 <= i < |rules| && RuleLabels(rules[i]) == cut + [Zeros(n)]
                              && rules[i].action == Desired(rules)[key])
  {
    DesiredMeaning(rules);
    forall i | 0 <= i < |rules|
      ensures RuleKey(rules[i]) == Pad(WireLabels(cut) + [n]) <==> RuleLabels(rules[i]) == cut + [Zeros(n)]
    {
      EncodableFits(ParsePattern(rules[i].pattern).0);
      CutKeyMatches(cut, n, RuleLabels(rules[i]));
    }
  }

  /** `hit` is the action of the longest such rule, or none if there is no such rule. */
  ghost predicate LongestNul(rules: seq<Rule>, cut: seq<Label>, n: byte, hit: Option<nat>) {
    match hit
    case None => forall i :: 0 <= i < |rules| ==> !NulRule(rules[i], cut, n)
    case Some(action) =>
      exists i :: 0 <= i < |rules| && LongestNulRule(rules, cut, n, i) && rules[i].action == action
  }

  lemma {:induction false} LongestCut(rules: seq<Rule>, cut: seq<Label>, n: byte)
    requires Installable(rules) && ValidLabels(cut) && n > 0 && |WireLabels(cut)| < MAX_DNS_NAME_LEN
    ensures LongestNul(rules, cut, n, Longest(Desired(rules), cut, n))
  {
    if cut != [] {
      CutKeyInstalled(rules, cut, n);
      var key := Pad(WireLabels(cut) + [n]);
      if key in Desired(rules) {
        WholeCutIsLongest(rules, cut, n, Desired(rules)[key]);
      } else {
        LongestCut(rules, cut[1..], n);
        ShorterCutIsLongest(rules, cut, n, Longest(Desired(rules), cut[1..], n));
      }
    }
  }

  lemma WholeCutIsLongest(rules: seq<Rule>, cut: seq<Label>, n: byte, action: nat)
    requires cut != []
    requires exists i :: 0 <= i < |rules| && RuleLabels(rules[i]) == cut + [Zeros(n)] && rules[i].action == action
    ensures LongestNul(rules, cut, n, Some(action))
  {
    var i :| 0 <= i < |rules| && RuleLabels(rules[i]) == cut + [Zeros(n)] && rules[i].action == action;
    NulRuleTail(rules[i], cut, n);
    assert LongestNulRule(rules, cut, n, i);
  }

  lemma ShorterCutIsLongest(rules: seq<Rule>, cut: seq<Label>, n: byte, hit: Option<nat>)
    requires cut != [] && LongestNul(rules, cut[1..], n, hit)
    requires !exists i :: 0 <= i < |rules| && RuleLabels(rules[i]) == cut + [Zeros(n)]
    ensures LongestNul(rules, cut, n, hit)
  {
    forall i | 0 <= i < |rules| ensures NulRule(rules[i], cut, n) <==> NulRule(rules[i], cut[1..], n) {
      NulRuleTail(rules[i], cut, n);
    }
    if hit.Some? {
      var i :| 0 <= i < |rules| && LongestNulRule(rules, cut[1..], n, i) && rules[i].action == hit.value;
      assert LongestNulRule(rules, cut, n, i);
    }
  }

  lemma NulRuleTail(rule: Rule, cut: seq<Label>, n: byte)
    requires cut != []
    ensures NulRule(rule, cut, n) <==> RuleLabels(rule) == cut + [Zeros(n)] || NulRule(rule, cut[1..], n)
  {
    var labels := RuleLabels(rule);
    if |labels| >= 2 {
      SuffixOfTail(labels[..|labels| - 1], cut);
      assert labels == labels[..|labels| - 1] + [labels[|labels| - 1]];
    }
  }

  /**
   A name of more than ten labels is not rejected: it is looked up on a cut, unterminated
   prefix.  It hits a rule exactly when a rule ends in the matching all-NUL label, and then the
   one with the most labels decides; with no such rule the default action alone decides.
   */
  lemma CutNameMatchesOnlyNul(rules: seq<Rule>, default: nat, window: seq<byte>, cut: seq<Label>)
    requires Installable(rules) && |window| <= MAX_DNS_NAME_LEN && CutAt(window, cut)
    ensures var n := window[|WireLabels(cut)|];
            var r := Resolve(window, Desired(rules), default);
            && r.Resolved?
            && (r.matched <==> exists i :: 0 <= i < |rules| && NulRule(rules[i], cut, n))
            && (if r.matched
                then exists i :: 0 <= i < |rules| && LongestNulRule(rules, cut, n, i) && rules[i].action == r.action
                else r.action == default)
  {
    ResolveHeld(window, cut, Desired(rules), default);
    LongestCut(rules, cut, window[|WireLabels(cut)|]);
  }

  predicate NoNulLabel(rules: seq<Rule>) {
    forall i, j :: 0 <= i < |rules| && 0 <= j < |RuleLabels(rules[i])| ==> !AllNul(RuleLabels(rules[i])[j])
  }

  /** Without all-NUL rule labels, a name of more than ten labels always takes the default action. */
  lemma CutNameTakesDefault(rules: seq<Rule>, default: nat, window: seq<byte>, cut: seq<Label>)
    requires Installable(rules) && NoNulLabel(rules) && |window| <= MAX_DNS_NAME_LEN && CutAt(window, cut)
    ensures Resolve(window, Desired(rules), default) == Resolved(default, false)
  {
    CutNameMatchesOnlyNul(rules, default, window, cut);
    var n := window[|WireLabels(cut)|];
    forall i | 0 <= i < |rules| ensures !NulRule(rules[i], cut, n) {
      var labels := RuleLabels(rules[i]);
      assert labels != [] ==> !AllNul(labels[|labels| - 1]);
    }
  }

  /** A rule of at most ten labels, or of eleven with the last all-NUL. */
  predicate Reachable(rule: Rule) {
    var labels := RuleLabels(rule);
    |labels| <= MAX_LABELS || (|labels| == MAX_LABELS + 1 && AllNul(labels[MAX_LABELS]))
  }

  /** Whatever the question bytes are, an action that came from a rule came from a reachable one. */
  lemma MatchedRuleIsReachable(rules: seq<Rule>, default: nat, window: seq<byte>)
    requires Installable(rules) && |window| <= MAX_DNS_NAME_LEN
    ensures var r := Resolve(window, Desired(rules), default);
            r.Resolved? ==>
              if r.matched then exists i :: 0 <= i < |rules| && Reachable(rules[i]) && rules[i].action == r.action
              else r.action == default
  {
    var r := Resolve(window, Desired(rules), default);
    if r.Resolved? && r.matched {
      var labels := WalkHolds(window, 0, MAX_LABELS);
      if window[|WireLabels(labels)|] == 0 {
        MatchRefinesSpec(rules, default, window, labels, r.action, true);
        DecidedRuleIsReachable(rules, default, labels, r.action);
      } else {
        CutNameMatchesOnlyNul(rules, default, window, labels);
        NulRuleIsReachable(rules, labels, window[|WireLabels(labels)|], r.action);
      }
    }
  }

  lemma DecidedRuleIsReachable(rules: seq<Rule>, default: nat, labels: seq<Label>, action: nat)
    requires |labels| <= MAX_LABELS && Decides(rules, default, labels, action, true)
    ensures exists i :: 0 <= i < |rules| && Reachable(rules[i]) && rules[i].action == action
  {
    var i :| 0 <= i < |rules| && MostSpecific(rules, labels, i) && rules[i].action == action;
    assert Reachable(rules[i]);
  }

  lemma NulRuleIsReachable(rules: seq<Rule>, cut: seq<Label>, n: byte, action: nat)
    requires |cut| == MAX_LABELS
    requires exists i :: 0 <= i < |rules| && NulRule(rules[i], cut, n) && rules[i].action == action
    ensures exists i :: 0 <= i < |rules| && Reachable(rules[i]) && rules[i].action == action
  {
    var i :| 0 <= i < |rules| && NulRule(rules[i], cut, n) && rules[i].action == action;
    assert Reachable(rules[i]);
  }

  function OnlyReachable(rules: seq<Rule>): (kept: seq<Rule>)
    ensures forall rule :: rule in kept <==> rule in rules && Reachable(rule)
  {
    if rules == [] then []
    else
      assert rules == [rules[0]] + rules[1..];
      (if Reachable(rules[0]) then [rules[0]] else []) + OnlyReachable(rules[1..])
  }

  lemma KeptInstallable(rules: seq<Rule>)
    requires Installable(rules)
    ensures Installable(OnlyReachable(rules))
  {
    var kept := OnlyReachable(rules);
    DesiredMeaning(rules);
    forall i | 0 <= i < |kept|
      ensures Accepted(kept[i]) && RuleKey(kept[i]) in Desired(rules)
      ensures Desired(rules)[RuleKey(kept[i])] == kept[i].action
    {
      assert kept[i] in rules;
    }
  }

  /** Dropping unreachable rules does not change the lookup of a key that only reachable rules have. */
  lemma LookupKept(rules: seq<Rule>, key: seq<byte>)
    requires Installable(rules) && Installable(OnlyReachable(rules))
    requires forall rule :: rule in rules && Accepted(rule) && RuleKey(rule) == key ==> Reachable(rule)
    ensures var kept := OnlyReachable(rules);
            && (key in Desired(rules) <==> key in Desired(kept))
            && (key in Desired(rules) ==> Desired(rules)[key] == Desired(kept)[key])
  {
    var kept := OnlyReachable(rules);
    if key in Desired(rules) {
      var rule := KeyHasRule(rules, key);
      RuleInstalled(rules, rule);
      RuleInstalled(kept, rule);
    } else if key in Desired(kept) {
      var rule := KeyHasRule(kept, key);
      RuleInstalled(rules, rule);
    }
  }

  /** A key the matcher builds from at most ten labels belongs to reachable rules only. */
  lemma BuiltKeyIsReachable(rule: Rule, labels: seq<Label>, last: byte)
    requires Accepted(rule) && ValidLabels(labels) && |labels| <= MAX_LABELS && |WireLabels(labels)| < MAX_DNS_NAME_LEN
    requires RuleKey(rule) == Pad(WireLabels(labels) + [last])
    ensures Reachable(rule)
  {
    EncodableFits(ParsePattern(rule.pattern).0);
    if last == 0 {
      KeyInjective(RuleLabels(rule), labels);
    } else {
      CutKeyMatches(labels, last, RuleLabels(rule));
    }
  }

  lemma {:induction false} LongestKept(rules: seq<Rule>, labels: seq<Label>, last: byte)
    requires Installable(rules) && Installable(OnlyReachable(rules))
    requires ValidLabels(labels) && |labels| <= MAX_LABELS && |WireLabels(labels)| < MAX_DNS_NAME_LEN
    ensures Longest(Desired(rules), labels, last) == Longest(Desired(OnlyReachable(rules)), labels, last)
  {
    if labels != [] {
      var key := Pad(WireLabels(labels) + [last]);
      forall rule | rule in rules && Accepted(rule) && RuleKey(rule) == key ensures Reachable(rule) {
        BuiltKeyIsReachable(rule, labels, last);
      }
      LookupKept(rules, key);
      LongestKept(rules, labels[1..], last);
    }
  }

  /**
   Unreachable rules have no effect at all: whatever the question bytes are, the answer is the same
   without them.
   */
  lemma UnreachableRulesAreInert(rules: seq<Rule>, default: nat, window: seq<byte>)
    requires Installable(rules) && |window| <= MAX_DNS_NAME_LEN
    ensures Installable(OnlyReachable(rules))
    ensures Resolve(window, Desired(rules), default) == Resolve(window, Desired(OnlyReachable(rules)), default)
  {
    KeptInstallable(rules);
    var walk := Walk(window, 0, MAX_LABELS);
    if walk.Walked? && walk.offsets != [] && walk.end < |window| {
      var labels := WalkHolds(window, 0, MAX_LABELS);
      ResolveHeld(window, labels, Desired(rules), default);
      ResolveHeld(window, labels, Desired(OnlyReachable(rules)), default);
      LongestKept(rules, labels, window[|WireLabels(labels)|]);
    }
  }

  /** Every reachable rule is reached, by the question that holds its own key. */
  lemma OwnNameReaches(rules: seq<Rule>, default: nat, i: nat) returns (window: seq<byte>)
    requires Installable(rules) && i < |rules| && Reachable(rules[i])
    ensures |window| <= MAX_DNS_NAME_LEN
    ensures Resolve(window, Desired(rules), default) == Resolved(rules[i].action, true)
  {
    var labels := RuleLabels(rules[i]);
    EncodableFits(ParsePattern(rules[i].pattern).0);
    window := Key(labels);
    KeyShape(labels);
    if |labels| <= MAX_LABELS {
      assert MostSpecific(rules, labels, i);
      MatchRefinesSpec(rules, default, window, labels, rules[i].action, true);
    } else {
      KeyOfElevenIsCut(labels, window);
      var cut, n := labels[..MAX_LABELS], |labels[MAX_LABELS]|;
      CutKeyMatches(cut, n, labels);
      KeyInstalled(rules, labels);
      ResolveHeld(window, cut, Desired(rules), default);
    }
  }

  lemma KeyOfElevenIsCut(labels: seq<Label>, window: seq<byte>)
    requires Fits(labels) && |labels| == MAX_LABELS + 1 && window == Key(labels)
    ensures var cut := labels[..MAX_LABELS];
            CutAt(window, cut) && window[|WireLabels(cut)|] == |labels[MAX_LABELS]|
  {
    var cut, last := labels[..MAX_LABELS], labels[MAX_LABELS];
    assert labels == cut + [last];
    WireLabelsOne(last);
    WireLabelsAppend(cut, [last]);
    assert window[..|WireLabels(cut)|] == WireLabels(cut);
  }

  // ----- The loops over the per-CPU scratch buffers

  /** `x & (MAX_DNS_NAME_LEN - 1)` on an unsigned word. */
  function Mask(x: nat): nat {
    x % MAX_DNS_NAME_LEN
  }

  function Prepend(offsets: seq<nat>, rest: Walked): Walked {
    match rest
    case BadLabel => BadLabel
    case Walked(more, end) => Walked(offsets + more, end)
  }

  /** A walk takes one more label: its offset moves over to those already found. */
  lemma WalkTakesLabel(offsets: seq<nat>, window: seq<byte>, pos: nat, budget: nat)
    requires budget > 0 && pos < |window| && 1 <= window[pos] <= MAX_LABEL_LEN
    ensures Prepend(offsets, Walk(window, pos, budget))
         == Prepend(offsets + [pos], Walk(window, pos + 1 + window[pos], budget - 1))
  {
    var rest := Walk(window, pos + 1 + window[pos], budget - 1);
    if rest.Walked? {
      assert offsets + ([pos] + rest.offsets) == offsets + [pos] + rest.offsets;
    }
  }

  /** `struct scratch_buf`: both buffers keep whatever earlier packets left in them. */
  class Scratch {
    const qname: array<byte>
    const lookup: array<byte>

    ghost predicate Valid() {
      qname.Length == MAX_DNS_NAME_LEN && lookup.Length == MAX_DNS_NAME_LEN && qname != lookup
    }

    constructor ()
      ensures Valid() && fresh(qname) && fresh(lookup)
    {
      qname := new byte[MAX_DNS_NAME_LEN];
      lookup := new byte[MAX_DNS_NAME_LEN];
      new;
    }

    /** Records at most `budget` label boundaries; reads only the `remaining` bytes just loaded. */
    method WalkLabels(remaining: nat, budget: nat) returns (bad: bool, offsets: seq<nat>, pos: nat)
      requires Valid() && 1 <= remaining <= MAX_DNS_NAME_LEN
      ensures Walk(qname[..remaining], 0, budget) == if bad then BadLabel else Walked(offsets, pos)
    {
      ghost var window := qname[..remaining];
      var labelOffsets := new nat[budget](_ => 0);
      var numLabels := 0;
      bad, pos := false, 0;
      for i := 0 to budget
        invariant numLabels == i
        invariant Walk(window, 0, budget) == Prepend(labelOffsets[..i], Walk(window, pos, budget - i))
      {
        if pos >= remaining || pos >= MAX_DNS_NAME_LEN {
          break;
        }
        var labelLen := qname[Mask(pos)];
        if labelLen == 0 {
          break;
        }
        if labelLen > MAX_LABEL_LEN {
          return true, [], pos;
        }
        ghost var before := labelOffsets[..i];
        WalkTakesLabel(before, window, pos, budget - i);
        labelOffsets[numLabels] := pos;
        assert labelOffsets[..i + 1] == before + [pos];
        numLabels := numLabels + 1;
        pos := pos + 1 + labelLen;
      }
      offsets := labelOffsets[..numLabels];
      assert offsets + [] == offsets;
    }

    /** Overwrites the whole lookup buffer with one padded suffix. */
    method CopySuffix(suffixStart: nat, suffixLen: nat)
      requires Valid() && suffixStart + suffixLen <= MAX_DNS_NAME_LEN
      modifies lookup
      ensures lookup[..] == Pad(qname[suffixStart..suffixStart + suffixLen])
    {
      var ss := Mask(suffixStart);
      for k := 0 to MAX_DNS_NAME_LEN
        invariant forall j :: 0 <= j < k ==> lookup[j] == if j < suffixLen then qname[suffixStart + j] else 0
      {
        var si := Mask(ss + k);
        lookup[k] := if k < suffixLen then qname[si] else 0;
      }
    }

    /** Looks up each suffix in turn, the full name first. */
    method MatchSuffixes(offsets: seq<nat>, total: nat, table: Table) returns (hit: Option<nat>)
      requires Valid() && 1 <= total <= MAX_DNS_NAME_LEN && |offsets| <= MAX_LABELS
      requires forall i :: 0 <= i < |offsets| ==> offsets[i] < total - 1
      modifies lookup
      ensures hit == FirstMatch(qname[..total], offsets, total - 1, table)
    {
      ghost var window := qname[..total];
      for i := 0 to MAX_LABELS
        invariant i <= |offsets|
        invariant FirstMatch(window, offsets, total - 1, table) == FirstMatch(window, offsets[i..], total - 1, table)
      {
        if i >= |offsets| {
          break;
        }
        var suffixLen := total - offsets[i];
        CopySuffix(offsets[i], suffixLen);
        assert lookup[..] == Pad(window[offsets[i]..total]);
        if lookup[..] in table {
          return Some(table[lookup[..]]);
        }
      }
      assert offsets[|offsets|..] == [];
      return None;
    }
  }
}
