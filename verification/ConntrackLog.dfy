/**
 The conntrack protocol seen through its table: what each event does to it, and
 what that says about every SNAT in a run.
 */
module ConntrackLog {
  import opened Datapath

  /** The table change that goes with an event; `leak` says that the deletion it ends with failed. */
  ghost predicate TableMove(before: Conntrack, now: nat, event: Event, leak: bool, after: Conntrack) {
    match event
    case Redirect(key, queried) => after == before[key := CtVal(queried, now)]
    case RedirectFailed(key, queried, _) =>
      after == if leak then before[key := CtVal(queried, now)] else before - {key}
    case Snat(key, shown) =>
      && key in before && before[key].corednsIp == shown
      && Age(now, before[key].timestamp) <= CONNTRACK_TTL_NS
      && after == if leak then before else before - {key}
    case _ => SubTable(after, before)
  }

  ghost predicate SubTable(a: Conntrack, b: Conntrack) {
    forall key :: key in a ==> key in b && a[key] == b[key]
  }

  /** Tables, clock readings, events and failed deletions of a run that starts with an empty table. */
  datatype Log = Log(tables: seq<Conntrack>, clock: seq<nat>, events: seq<Event>, leaks: seq<bool>) {
    ghost predicate Valid() {
      && |tables| == |clock| == |events| + 1 && |leaks| == |events|
      && tables[0] == map[]
      && (forall i :: 0 <= i < |events| ==> TableMove(tables[i], clock[i], events[i], leaks[i], tables[i + 1]))
      && (forall i, j :: 0 <= i <= j < |clock| ==> clock[i] <= clock[j])
      && (forall i :: 0 <= i < |clock| ==> clock[i] < TWO64)
    }

    /** Event `i` left an entry for `key`: a redirect, or a failed one whose entry could not be taken out again. */
    predicate StampsAt(i: int, key: CtKey) {
      && 0 <= i < |events| && i < |leaks|
      && (events[i].Redirect? || (events[i].RedirectFailed? && leaks[i]))
      && events[i].key == key
    }

    predicate SnatAt(i: int, key: CtKey) {
      0 <= i < |events| && events[i].Snat? && events[i].key == key
    }

    /** The last event before `n` that left an entry for `key`, or -1. */
    function LastStamp(n: nat, key: CtKey): (i: int)
      ensures -1 <= i < n
      ensures i >= 0 ==> StampsAt(i, key)
      ensures forall m :: i < m < n ==> !StampsAt(m, key)
    {
      if n == 0 then -1 else if StampsAt(n - 1, key) then n - 1 else LastStamp(n - 1, key)
    }

    /** The last event is the same at `n` as at `m` when nothing in between left an entry. */
    lemma {:induction false} LastStampUnchanged(m: nat, n: nat, key: CtKey)
      requires m <= n && forall i :: m <= i < n ==> !StampsAt(i, key)
      ensures LastStamp(n, key) == LastStamp(m, key)
      decreases n
    {
      if m < n {
        LastStampUnchanged(m, n - 1, key);
      }
    }

    /** Event `i` made the entry live at `n`, and each SNAT that used it since failed to delete it. */
    ghost predicate Accounts(i: int, n: nat, key: CtKey, value: CtVal)
      requires n < |clock|
    {
      && StampsAt(i, key) && i < n && i < |clock|
      && events[i].queried == value.corednsIp && clock[i] == value.timestamp
      && forall m :: i < m < n && SnatAt(m, key) ==> m < |leaks| && leaks[m]
    }

    /** Every live entry is accounted for by the last event that left one for its key. */
    lemma {:induction false} EntriesAccounted(n: nat, key: CtKey)
      requires Valid() && n < |tables| && key in tables[n]
      ensures Accounts(LastStamp(n, key), n, key, tables[n][key])
    {
      if n > 0 {
        assert TableMove(tables[n - 1], clock[n - 1], events[n - 1], leaks[n - 1], tables[n - 1 + 1]);
        if !StampsAt(n - 1, key) {
          EntriesAccounted(n - 1, key);
        }
      }
    }

    /** The event the SNAT at `j` goes back to. */
    function Origin(j: nat): int
      requires j < |events| && events[j].Snat?
    {
      LastStamp(j, events[j].key)
    }

    /**
     Every SNAT goes back to an earlier attempt to redirect the same pod address, port and
     transaction id, at most five seconds old, and shows the pod the address that attempt's query
     was sent to.  The attempt succeeded, unless both it and the removal of its entry failed.
     */
    lemma SnatHasOrigin(j: nat)
      requires Valid() && j < |events| && events[j].Snat?
      ensures var i := Origin(j);
              && StampsAt(i, events[j].key) && i < j
              && events[i].queried == events[j].shown
              && clock[i] <= clock[j] <= clock[i] + CONNTRACK_TTL_NS
    {
      assert TableMove(tables[j], clock[j], events[j], leaks[j], tables[j + 1]);
      EntriesAccounted(j, events[j].key);
      AgeIsDifference(clock[j], clock[Origin(j)]);
    }

    /** Two SNATs go back to the same event only if the earlier one's deletion failed. */
    lemma SharedOriginLeaks(j: nat, j': nat)
      requires Valid() && j < j' < |events| && events[j].Snat? && events[j'].Snat?
      requires Origin(j) == Origin(j')
      ensures leaks[j]
    {
      SnatHasOrigin(j);
      SnatHasOrigin(j');
      assert TableMove(tables[j'], clock[j'], events[j'], leaks[j'], tables[j' + 1]);
      EntriesAccounted(j', events[j'].key);
      assert SnatAt(j, events[j].key);
    }

    /** Every SNAT goes back to a redirect that succeeded, and each to one of its own. */
    ghost predicate OwnJustified()
      requires Valid()
    {
      && (forall j :: 0 <= j < |events| && events[j].Snat? ==> Origin(j) >= 0 && events[Origin(j)].Redirect?)
      && (forall j, j' :: 0 <= j < j' < |events| && events[j].Snat? && events[j'].Snat? ==> Origin(j) != Origin(j'))
    }

    /** The deletion that should have ended event `i` failed and left its entry behind. */
    predicate LeakAt(i: int) {
      0 <= i < |events| && i < |leaks| && leaks[i] && (events[i].Snat? || events[i].RedirectFailed?)
    }

    /** The entry that event `i` left behind is the one the later SNAT at `j` goes by. */
    ghost predicate Reuses(i: int, j: int) {
      && LeakAt(i) && i < j && SnatAt(j, events[i].key)
      && forall m :: i < m < j ==> !StampsAt(m, events[i].key)
    }

    /** A leaked entry that is used again has no redirect of its own to justify that use. */
    lemma ReuseBreaksJustification(i: int, j: int)
      requires Valid() && Reuses(i, j)
      ensures !OwnJustified()
    {
      var key := events[i].key;
      if events[i].RedirectFailed? {
        assert StampsAt(i, key);
        assert Origin(j) == i;
      } else {
        assert !StampsAt(i, key);
        LastStampUnchanged(i, j, key);
        assert Origin(i) == Origin(j);
      }
    }

    lemma ForeignOriginReuses(j: nat)
      requires Valid() && j < |events| && events[j].Snat?
      requires !(Origin(j) >= 0 && events[Origin(j)].Redirect?)
      ensures Reuses(Origin(j), j)
    {
      SnatHasOrigin(j);
    }

    lemma SharedOriginReuses(j: nat, j': nat)
      requires Valid() && j < j' < |events| && events[j].Snat? && events[j'].Snat?
      requires Origin(j) == Origin(j')
      ensures Reuses(j, j')
    {
      SharedOriginLeaks(j, j');
      SnatHasOrigin(j);
      SnatHasOrigin(j');
    }

    /**
     Every SNAT has a successful redirect of its own exactly when no leaked entry is used again
     before a new one takes its place.
     */
    lemma OwnJustifiedIff()
      requires Valid()
      ensures OwnJustified() <==> !exists i, j :: Reuses(i, j)
    {
      if i, j :| Reuses(i, j) {
        ReuseBreaksJustification(i, j);
      } else {
        forall j | 0 <= j < |events| && events[j].Snat? ensures Origin(j) >= 0 && events[Origin(j)].Redirect? {
          if !(Origin(j) >= 0 && events[Origin(j)].Redirect?) {
            ForeignOriginReuses(j);
          }
        }
        forall j, j' | 0 <= j < j' < |events| && events[j].Snat? && events[j'].Snat?
          ensures Origin(j) != Origin(j')
        {
          if Origin(j) == Origin(j') {
            SharedOriginReuses(j, j');
          }
        }
      }
    }
  }

  /** An entry that a failed deletion leaves behind is still fresh. */
  lemma LeakIsFresh(before: Conntrack, now: nat, event: Event, after: Conntrack)
    requires TableMove(before, now, event, true, after) && (event.Snat? || event.RedirectFailed?)
    ensures event.key in after && Age(now, after[event.key].timestamp) <= CONNTRACK_TTL_NS
  {
  }

  /** A timestamp in the past makes the unsigned subtraction exact. */
  lemma AgeIsDifference(now: nat, timestamp: nat)
    requires timestamp <= now < TWO64
    ensures Age(now, timestamp) == now - timestamp
  {
  }
}
