/** A BPF hash map of fixed capacity and its reconciliation with a wanted map. */
module KernelMaps {
  const CAPACITY: nat := 1024

  datatype Status = Done | Rejected | NoSpace | KernelError

  /** Entries in order, a later one replacing an earlier one. */
  function Collect<K, V>(entries: seq<(K, V)>): map<K, V> {
    if entries == [] then map[]
    else
      var (k, v) := entries[|entries| - 1];
      Collect(entries[..|entries| - 1])[k := v]
  }

  /** No key comes with two values. */
  predicate Agree<K(==), V(==)>(entries: seq<(K, V)>) {
    forall i, j :: 0 <= i < j < |entries| && entries[i].0 == entries[j].0 ==> entries[i].1 == entries[j].1
  }

  /** A map of agreeing entries gives every entry its own value and holds nothing else. */
  lemma {:induction false} CollectMeaning<K, V>(entries: seq<(K, V)>)
    requires Agree(entries)
    ensures forall k :: k in Collect(entries) ==> (k, Collect(entries)[k]) in entries
    ensures forall e :: e in entries ==> e.0 in Collect(entries) && Collect(entries)[e.0] == e.1
  {
    if entries != [] {
      var n := |entries| - 1;
      assert entries == entries[..n] + [entries[n]];
      CollectMeaning(entries[..n]);
      assert (entries[n].0, entries[n].1) == entries[n];
    }
  }

  /** Only which entries there are matters, not their order or repetition. */
  lemma CollectSame<K, V>(a: seq<(K, V)>, b: seq<(K, V)>)
    requires Agree(a) && Agree(b) && forall e :: e in a <==> e in b
    ensures Collect(a) == Collect(b)
  {
    CollectMeaning(a);
    CollectMeaning(b);
    forall k | k in Collect(a) ensures k in Collect(b) && Collect(b)[k] == Collect(a)[k] {
      var e := (k, Collect(a)[k]);
      assert e in b;
    }
    forall k | k in Collect(b) ensures k in Collect(a) {
      var e := (k, Collect(b)[k]);
      assert e in a;
    }
  }

  /** One more entry keeps the agreement exactly when the map does not contradict it. */
  lemma CollectExtend<K, V>(entries: seq<(K, V)>, k: K, v: V)
    requires Agree(entries)
    ensures Collect(entries + [(k, v)]) == Collect(entries)[k := v]
    ensures Agree(entries + [(k, v)]) <==> (k in Collect(entries) ==> Collect(entries)[k] == v)
  {
    var more := entries + [(k, v)];
    assert more[..|entries|] == entries;
    CollectMeaning(entries);
    if k in Collect(entries) && Collect(entries)[k] != v {
      assert (k, Collect(entries)[k]) in entries;
      var i :| 0 <= i < |entries| && entries[i] == (k, Collect(entries)[k]);
      assert more[i].0 == more[|entries|].0 && more[i].1 != more[|entries|].1;
    }
  }

  lemma SubsetSize<T>(a: set<T>, b: set<T>)
    requires a <= b
    ensures |a| <= |b|
  {
    assert b == a + (b - a);
  }

  function Max(a: nat, b: nat): nat {
    if a > b then a else b
  }

  /** `table` is `base` with the desired entries outside `todo` already written. */
  ghost predicate Filling<K>(base: map<K, nat>, table: map<K, nat>, desired: map<K, nat>, todo: set<K>) {
    && todo <= desired.Keys && base.Keys <= desired.Keys
    && table.Keys == base.Keys + (desired.Keys - todo)
    && forall k :: k in table ==> table[k] == if k in todo then base[k] else desired[k]
  }

  lemma FillOne<K>(base: map<K, nat>, table: map<K, nat>, desired: map<K, nat>, todo: set<K>, key: K)
    requires Filling(base, table, desired, todo) && key in todo
    ensures Filling(base, table[key := desired[key]], desired, todo - {key})
  {
    assert table[key := desired[key]].Keys == table.Keys + {key};
  }

  /** `base` has what existed before and is wanted. */
  ghost predicate Retains<K>(base: map<K, nat>, existing: map<K, nat>, desired: map<K, nat>) {
    forall k :: k in existing && k in desired ==> k in base && base[k] == existing[k]
  }

  /** `table` is what existed before, less some keys that are not wanted. */
  ghost predicate Pruned<K>(existing: map<K, nat>, table: map<K, nat>, desired: map<K, nat>) {
    && existing.Keys * desired.Keys <= table.Keys <= existing.Keys
    && forall k :: k in table ==> table[k] == existing[k]
  }

  /** What is neither wanted nor in `todo` is already gone. */
  ghost predicate Pruning<K>(existing: map<K, nat>, table: map<K, nat>, desired: map<K, nat>, todo: set<K>) {
    && Pruned(existing, table, desired)
    && todo <= table.Keys <= desired.Keys + todo
  }

  lemma PruneOne<K>(existing: map<K, nat>, table: map<K, nat>, desired: map<K, nat>, todo: set<K>, key: K)
    requires Pruning(existing, table, desired, todo) && key in todo
    ensures key in existing && |table| <= |existing| && |table - {key}| <= |existing|
    ensures Pruning(existing, if key in desired then table else table - {key}, desired, todo - {key})
  {
    SubsetSize(table.Keys, existing.Keys);
    SubsetSize((table - {key}).Keys, existing.Keys);
  }

  /** Once nothing unwanted is left, filling can begin. */
  lemma PrunedFills<K>(existing: map<K, nat>, table: map<K, nat>, desired: map<K, nat>)
    requires Pruned(existing, table, desired) && table.Keys <= desired.Keys
    ensures Filling(table, table, desired, desired.Keys) && Retains(table, existing, desired)
  {
  }

  /** A key still to do that had its wanted value before has it now. */
  lemma StillThere<K>(base: map<K, nat>, existing: map<K, nat>, table: map<K, nat>, desired: map<K, nat>, todo: set<K>,
                      key: K)
    requires Filling(base, table, desired, todo) && key in todo && Retains(base, existing, desired)
    requires key in existing && existing[key] == desired[key]
    ensures key in table && table[key] == desired[key]
  {
  }

  /** The map after one turn of the adding loop, which wrote `key` or stopped. */
  lemma FillTurn<K>(base: map<K, nat>, table: map<K, nat>, desired: map<K, nat>, todo: set<K>, key: K, done: bool,
                    after: map<K, nat>)
    requires Filling(base, table, desired, todo) && key in todo
    requires after == if done then table[key := desired[key]] else table
    ensures Filling(base, after, desired, if done then todo - {key} else todo)
    ensures |after| <= |desired| && (key !in table ==> |table| < |desired|)
  {
    FillOne(base, table, desired, todo, key);
    FillSize(table, desired, key);
  }

  /** A filled map lies between the two: nothing wanted is lost, nothing unwanted is left, each value is old or new. */
  lemma FillingMeans<K>(base: map<K, nat>, table: map<K, nat>, desired: map<K, nat>, todo: set<K>)
    requires Filling(base, table, desired, todo)
    ensures base.Keys <= table.Keys <= desired.Keys
    ensures forall k :: k in table ==> table[k] == desired[k] || (k in base && table[k] == base[k])
    ensures todo == {} ==> table == desired
  {
  }

  lemma FillSize<K>(table: map<K, nat>, desired: map<K, nat>, key: K)
    requires table.Keys <= desired.Keys && key in desired
    ensures |table| <= |desired| && |table[key := desired[key]]| <= |desired|
    ensures key !in table ==> |table| < |desired|
  {
    assert table[key := desired[key]].Keys == table.Keys + {key};
    SubsetSize(table.Keys, desired.Keys);
    SubsetSize(table.Keys + {key}, desired.Keys);
  }

  /** Which map operations fail; each key is deleted or written at most once per reconciliation. */
  datatype MapFaults<!K> = MapFaults(iterate: bool, delete: set<K>, update: set<K>)

  /** The keys a reconciliation has to delete. */
  function Stale<K>(existing: map<K, nat>, desired: map<K, nat>): set<K> {
    existing.Keys - desired.Keys
  }

  /** A reconciliation has to write the key. */
  predicate Differs<K(==)>(existing: map<K, nat>, desired: map<K, nat>, k: K) {
    k in desired && !(k in existing && existing[k] == desired[k])
  }

  /** Outside `todo`, no faulty key had to be written. */
  predicate Spared<K(==)>(existing: map<K, nat>, desired: map<K, nat>, faults: set<K>, todo: set<K>) {
    forall k :: k in faults && Differs(existing, desired, k) ==> k in todo
  }

  /** The faults hit nothing the reconciliation needs. */
  predicate Harmless<K(==)>(faults: MapFaults<K>, existing: map<K, nat>, desired: map<K, nat>) {
    && !faults.iterate
    && Stale(existing, desired) * faults.delete == {}
    && Spared(existing, desired, faults.update, {})
  }

  class KernelMap<K(==)> {
    var table: map<K, nat>
    /** The largest size the map has had since the current reconciliation began. */
    ghost var peak: nat

    constructor (initial: map<K, nat>)
      requires |initial| <= CAPACITY
      ensures table == initial
    {
      table := initial;
      peak := |initial|;
    }

    /** A new key is refused when the map is full; a faulty call has no effect. */
    method Update(key: K, action: nat, fault: bool) returns (status: Status)
      requires |table| <= CAPACITY
      modifies this
      ensures status == if fault then KernelError
                        else if key !in old(table) && |old(table)| >= CAPACITY then NoSpace else Done
      ensures table == if status == Done then old(table)[key := action] else old(table)
      ensures |table| <= CAPACITY && peak == Max(|table|, old(peak))
    {
      if fault {
        status := KernelError;
      } else if key !in table && |table| >= CAPACITY {
        status := NoSpace;
      } else {
        assert table[key := action].Keys == table.Keys + {key};
        table := table[key := action];
        status := Done;
      }
      peak := Max(|table|, peak);
    }

    method Delete(key: K, fault: bool) returns (status: Status)
      modifies this
      ensures status == if fault then KernelError else Done
      ensures table == if status == Done then old(table) - {key} else old(table)
      ensures peak == Max(|table|, old(peak))
    {
      if fault {
        status := KernelError;
      } else {
        table := table - {key};
        status := Done;
      }
      peak := Max(|table|, peak);
    }

    /** Removes what is not wanted; fails exactly when the deletion of a stale key does. */
    method DeleteStale(desired: map<K, nat>, faults: set<K>) returns (status: Status)
      requires peak == |table|
      modifies this
      ensures status == if Stale(old(table), desired) * faults == {} then Done else KernelError
      ensures Pruned(old(table), table, desired)
      ensures status == Done ==> table.Keys <= desired.Keys
      ensures peak == |old(table)|
    {
      var existing := table;
      var todo := existing.Keys;
      while todo != {}
        invariant Pruning(existing, table, desired, todo) && peak == |existing|
        invariant Stale(existing, desired) * faults <= todo
        decreases todo
      {
        var key :| key in todo;
        PruneOne(existing, table, desired, todo, key);
        if key !in desired {
          status := Delete(key, key in faults);
          if status == KernelError {
            assert key in Stale(existing, desired) * faults;
            return;
          }
        }
        todo := todo - {key};
      }
      status := Done;
    }

    /** One wanted entry: skipped when it is already there, else written. */
    method AddOne(key: K, existing: map<K, nat>, action: nat, fault: bool) returns (status: Status)
      requires |table| <= CAPACITY
      requires key in existing && existing[key] == action ==> key in table && table[key] == action
      modifies this
      ensures status != Rejected
      ensures status == KernelError <==> fault && !(key in existing && existing[key] == action)
      ensures table == if status == Done then old(table)[key := action] else old(table)
      ensures status == NoSpace ==> key !in old(table) && |old(table)| >= CAPACITY
      ensures |table| <= CAPACITY && (peak == old(peak) || peak == Max(|table|, old(peak)))
    {
      if key in existing && existing[key] == action {
        assert table == table[key := action];
        return Done;
      }
      status := Update(key, action, fault);
    }

    /** One turn of the adding loop. */
    method FillKey(ghost base: map<K, nat>, existing: map<K, nat>, desired: map<K, nat>, ghost todo: set<K>,
                   key: K, fault: bool)
      returns (status: Status)
      requires Filling(base, table, desired, todo) && key in todo && |table| <= CAPACITY
      requires Retains(base, existing, desired)
      modifies this
      ensures status != Rejected
      ensures status == KernelError <==> fault && Differs(existing, desired, key)
      ensures status == NoSpace ==> |desired| > CAPACITY
      ensures Filling(base, table, desired, if status == Done then todo - {key} else todo)
      ensures |table| <= CAPACITY && peak <= Max(|desired|, old(peak))
    {
      if key in existing && existing[key] == desired[key] {
        StillThere(base, existing, table, desired, todo, key);
      }
      ghost var before := table;
      status := AddOne(key, existing, desired[key], fault);
      FillTurn(base, before, desired, todo, key, status == Done, table);
    }

    /** Writes what is missing or different; with no fault on those keys only lack of space can stop it. */
    method AddWanted(existing: map<K, nat>, desired: map<K, nat>, faults: set<K>)
      returns (status: Status, ghost todo: set<K>)
      requires |table| <= CAPACITY && Filling(table, table, desired, desired.Keys)
      requires Retains(table, existing, desired)
      modifies this
      ensures status != Rejected
      ensures status == KernelError ==> !Spared(existing, desired, faults, {})
      ensures status == Done ==> todo == {} && Spared(existing, desired, faults, {})
      ensures status == NoSpace ==> |desired| > CAPACITY
      ensures Filling(old(table), table, desired, todo)
      ensures |table| <= CAPACITY && peak <= Max(|desired|, old(peak))
    {
      var rest := desired.Keys;
      while rest != {}
        invariant Filling(old(table), table, desired, rest) && |table| <= CAPACITY
        invariant peak <= Max(|desired|, old(peak))
        invariant Spared(existing, desired, faults, rest)
        decreases rest
      {
        var key :| key in rest;
        status := FillKey(old(table), existing, desired, rest, key, key in faults);
        if status != Done {
          return status, rest;
        }
        rest := rest - {key};
      }
      return Done, {};
    }
  }
}
