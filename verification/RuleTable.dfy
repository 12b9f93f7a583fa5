/** The `suffix_rules` map and its reconciliation (internal/ebpf/maps.go). */
module RuleTable {
  import opened Bytes
  import opened WireFormat
  import opened SuffixCodec
  import opened KernelMaps

  const HOST_RESOLVE: nat := 1
  const CLUSTER_RESOLVE: nat := 2

  datatype Rule = Rule(pattern: Text, action: nat)

  /** Keys are padded wire names, values are actions. */
  type Table = map<seq<byte>, nat>

  predicate ValidAction(action: nat) {
    action == HOST_RESOLVE || action == CLUSTER_RESOLVE
  }

  /** The checks a rule passes on its own. */
  predicate Accepted(rule: Rule) {
    var (suffix, wildcard) := ParsePattern(rule.pattern);
    ValidAction(rule.action) && wildcard && STAR !in suffix && Encodable(suffix)
  }

  function RuleLabels(rule: Rule): seq<Label> {
    LabelsOf(ParsePattern(rule.pattern).0)
  }

  function RuleKey(rule: Rule): seq<byte>
    requires Accepted(rule)
  {
    EncodableFits(ParsePattern(rule.pattern).0);
    Key(RuleLabels(rule))
  }

  predicate AllAccepted(rules: seq<Rule>) {
    forall i :: 0 <= i < |rules| ==> Accepted(rules[i])
  }

  function Entries(rules: seq<Rule>): seq<(seq<byte>, nat)>
    requires AllAccepted(rules)
  {
    seq(|rules|, i requires 0 <= i < |rules| => (RuleKey(rules[i]), rules[i].action))
  }

  /** No two rules give one key different actions. */
  predicate Installable(rules: seq<Rule>) {
    AllAccepted(rules) && Agree(Entries(rules))
  }

  /** The map the rules ask for. */
  function Desired(rules: seq<Rule>): Table
    requires AllAccepted(rules)
  {
    Collect(Entries(rules))
  }

  /** Every rule keeps its own action, and no other key is present. */
  lemma DesiredMeaning(rules: seq<Rule>)
    requires Installable(rules)
    ensures forall i :: 0 <= i < |rules| ==>
                          RuleKey(rules[i]) in Desired(rules) && Desired(rules)[RuleKey(rules[i])] == rules[i].action
    ensures forall k :: k in Desired(rules) ==> exists i :: 0 <= i < |rules| && RuleKey(rules[i]) == k
  {
    CollectMeaning(Entries(rules));
    forall i | 0 <= i < |rules|
      ensures RuleKey(rules[i]) in Desired(rules) && Desired(rules)[RuleKey(rules[i])] == rules[i].action
    {
      assert Entries(rules)[i] == (RuleKey(rules[i]), rules[i].action);
    }
    forall k | k in Desired(rules) ensures exists i :: 0 <= i < |rules| && RuleKey(rules[i]) == k {
      assert (k, Desired(rules)[k]) in Entries(rules);
    }
  }

  lemma RuleInstalled(rules: seq<Rule>, rule: Rule)
    requires Installable(rules) && rule in rules
    ensures Accepted(rule) && RuleKey(rule) in Desired(rules) && Desired(rules)[RuleKey(rule)] == rule.action
  {
    DesiredMeaning(rules);
  }

  lemma KeyHasRule(rules: seq<Rule>, key: seq<byte>) returns (rule: Rule)
    requires Installable(rules) && key in Desired(rules)
    ensures rule in rules && Accepted(rule) && RuleKey(rule) == key
  {
    DesiredMeaning(rules);
    var i :| 0 <= i < |rules| && RuleKey(rules[i]) == key;
    rule := rules[i];
  }

  /** The installed map depends on which rules there are, not on their order or repetition. */
  lemma OrderIndependent(a: seq<Rule>, b: seq<Rule>)
    requires Installable(a) && Installable(b)
    requires forall rule :: rule in a <==> rule in b
    ensures Desired(a) == Desired(b)
  {
    EntriesWithin(a, b);
    EntriesWithin(b, a);
    CollectSame(Entries(a), Entries(b));
  }

  lemma EntriesWithin(a: seq<Rule>, b: seq<Rule>)
    requires AllAccepted(a) && AllAccepted(b)
    requires forall rule :: rule in a ==> rule in b
    ensures forall e :: e in Entries(a) ==> e in Entries(b)
  {
    forall e | e in Entries(a) ensures e in Entries(b) {
      var i :| 0 <= i < |a| && Entries(a)[i] == e;
      assert a[i] in b;
      var j :| 0 <= j < |b| && b[j] == a[i];
      assert Entries(b)[j] == e;
    }
  }

  /** The checks on one rule, in the order they are made; gives its key. */
  method CheckRule(rule: Rule) returns (r: Result<seq<byte>>)
    ensures r.Ok? <==> Accepted(rule)
    ensures r.Ok? ==> r.value == RuleKey(rule)
  {
    if rule.action != HOST_RESOLVE && rule.action != CLUSTER_RESOLVE {
      return Err;
    }
    var (suffix, wildcard) := ParsePattern(rule.pattern);
    if !wildcard {
      return Err;
    }
    if STAR in suffix {
      return Err;
    }
    r := EncodeSuffix(suffix);
  }

  /** First loop of `PopulateSuffixRules`: validates the rules and collects the wanted map. */
  method BuildDesired(rules: seq<Rule>) returns (r: Result<Table>)
    ensures r.Ok? <==> Installable(rules)
    ensures r.Ok? ==> r.value == Desired(rules)
  {
    var desired: Table := map[];
    ghost var entries: seq<(seq<byte>, nat)> := [];
    for i := 0 to |rules|
      invariant EntriesSoFar(rules, i, entries) && Agree(entries) && desired == Collect(entries)
    {
      var key := CheckRule(rules[i]);
      if key.Err? {
        return Err;
      }
      CollectExtend(entries, key.value, rules[i].action);
      ghost var more := entries + [(key.value, rules[i].action)];
      ExtendEntries(rules, i, entries, (key.value, rules[i].action));
      if key.value in desired && desired[key.value] != rules[i].action {
        PrefixDisagrees(rules, more);
        return Err;
      }
      entries := more;
      desired := desired[key.value := rules[i].action];
    }
    AllEntries(rules, entries);
    return Ok(desired);
  }

  predicate EntryOf(rule: Rule, entry: (seq<byte>, nat)) {
    Accepted(rule) && entry == (RuleKey(rule), rule.action)
  }

  predicate EntriesSoFar(rules: seq<Rule>, n: nat, entries: seq<(seq<byte>, nat)>) {
    n == |entries| <= |rules| && forall j :: 0 <= j < n ==> EntryOf(rules[j], entries[j])
  }

  lemma ExtendEntries(rules: seq<Rule>, n: nat, entries: seq<(seq<byte>, nat)>, entry: (seq<byte>, nat))
    requires EntriesSoFar(rules, n, entries) && n < |rules| && EntryOf(rules[n], entry)
    ensures EntriesSoFar(rules, n + 1, entries + [entry])
  {
    forall j | 0 <= j < n + 1 ensures EntryOf(rules[j], (entries + [entry])[j]) {
      if j < n {
        assert EntryOf(rules[j], entries[j]) && (entries + [entry])[j] == entries[j];
      }
    }
  }

  lemma PrefixDisagrees(rules: seq<Rule>, entries: seq<(seq<byte>, nat)>)
    requires EntriesSoFar(rules, |entries|, entries) && !Agree(entries)
    ensures !Installable(rules)
  {
    if AllAccepted(rules) {
      assert forall j :: 0 <= j < |entries| ==> Entries(rules)[j] == entries[j];
    }
  }

  lemma AllEntries(rules: seq<Rule>, entries: seq<(seq<byte>, nat)>)
    requires EntriesSoFar(rules, |rules|, entries)
    ensures AllAccepted(rules) && entries == Entries(rules)
  {
  }

  /**
   Brings the kernel map to the wanted rules.  It succeeds exactly when the rules are
   installable, fit the map, and no operation it needs fails.  Stale keys go first, so the map never
   outgrows the larger of the old and the new rule set.
   */
  method PopulateSuffixRules(store: KernelMap<seq<byte>>, rules: seq<Rule>, faults: MapFaults<seq<byte>>)
    returns (status: Status)
    requires |store.table| <= CAPACITY
    modifies store
    ensures status == Done <==>
            && Installable(rules) && |Desired(rules)| <= 1024
            && Harmless(faults, old(store.table), Desired(rules))
    ensures status == Rejected <==> !Installable(rules)
    ensures status == Rejected ==> store.table == old(store.table)
    ensures status == Done ==> store.table == Desired(rules)
    ensures status == NoSpace ==> |Desired(rules)| > 1024
    ensures Installable(rules) ==>
              && store.peak <= Max(|Desired(rules)|, |old(store.table)|)
              && (forall k :: k in store.table ==>
                                (k in Desired(rules) && store.table[k] == Desired(rules)[k])
                                || (k in old(store.table) && store.table[k] == old(store.table)[k]))
              && (forall k :: k in old(store.table) && k in Desired(rules) ==> k in store.table)
  {
    var wanted := BuildDesired(rules);
    if wanted.Err? {
      return Rejected;
    }
    status := Reconcile(store, wanted.value, faults);
  }

  /** Each key has its old or its wanted value, and no old key that is wanted is lost. */
  ghost predicate Between(existing: Table, table: Table, desired: Table) {
    && (forall k :: k in table ==>
                      (k in desired && table[k] == desired[k]) || (k in existing && table[k] == existing[k]))
    && (forall k :: k in existing && k in desired ==> k in table)
  }

  /** Deleting stale keys and then filling stays between the two. */
  lemma FilledBetween(existing: Table, base: Table, table: Table, desired: Table)
    requires Pruned(existing, base, desired) && base.Keys <= table.Keys <= desired.Keys
    requires forall k :: k in table ==> table[k] == desired[k] || (k in base && table[k] == base[k])
    ensures Between(existing, table, desired)
  {
  }

  /** Snapshot, delete, then add. */
  method Reconcile(store: KernelMap<seq<byte>>, desired: Table, faults: MapFaults<seq<byte>>) returns (status: Status)
    requires |store.table| <= CAPACITY
    modifies store
    ensures status != Rejected
    ensures status == Done <==> |desired| <= CAPACITY && Harmless(faults, old(store.table), desired)
    ensures status == Done ==> store.table == desired
    ensures status == NoSpace ==> |desired| > CAPACITY
    ensures store.peak <= Max(|desired|, |old(store.table)|)
    ensures Between(old(store.table), store.table, desired)
  {
    store.peak := |store.table|;
    if faults.iterate {
      return KernelError;
    }
    var existing := store.table;
    status := store.DeleteStale(desired, faults.delete);
    if status == Done {
      SubsetSize(store.table.Keys, existing.Keys);
      PrunedFills(existing, store.table, desired);
      ghost var base, todo := store.table, {};
      status, todo := store.AddWanted(existing, desired, faults.update);
      FillingMeans(base, store.table, desired, todo);
      FilledBetween(existing, base, store.table, desired);
    }
  }
}
