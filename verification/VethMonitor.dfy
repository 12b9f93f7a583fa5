/**
 Veth discovery: the monitor's `known` map (internal/netlinkmon/monitor.go) and the event
 channel that drives the controller (internal/controller/controller.go).
 */
module VethMonitor {
  import opened Bytes

  datatype Event = Added(ifindex: int, name: string) | Removed(ifindex: int, name: string)

  datatype Update = NewLink(ifindex: int, veth: bool, name: string) | DelLink(ifindex: int) | Unrelated

  type Known = map<int, string>

  /** A section run under the monitor's lock: one netlink update, or one veth listed by the resync. */
  datatype Section = Handle(update: Update) | Resync(ifindex: int, name: string)

  /** The section reports `ifindex` as a veth that exists. */
  predicate Lists(section: Section, ifindex: int) {
    match section
    case Resync(i, _) => i == ifindex
    case Handle(update) => update.NewLink? && update.veth && update.ifindex == ifindex
  }

  function ListedName(section: Section): string
    requires section.Handle? ==> section.update.NewLink?
  {
    if section.Resync? then section.name else section.update.name
  }

  datatype Effect = Effect(known: Known, event: Option<Event>)

  function Admit(known: Known, ifindex: int, name: string): Effect {
    if ifindex in known then Effect(known, None) else Effect(known[ifindex := name], Some(Added(ifindex, name)))
  }

  function RunUpdate(known: Known, update: Update): Effect {
    match update
    case NewLink(ifindex, veth, name) => if veth then Admit(known, ifindex, name) else Effect(known, None)
    case DelLink(ifindex) =>
      if ifindex in known then Effect(known - {ifindex}, Some(Removed(ifindex, known[ifindex])))
      else Effect(known, None)
    case Unrelated => Effect(known, None)
  }

  function Run(known: Known, section: Section): Effect {
    match section
    case Resync(ifindex, name) => Admit(known, ifindex, name)
    case Handle(update) => RunUpdate(known, update)
  }

  class Monitor {
    var known: Known

    constructor ()
      ensures known == map[]
    {
      known := map[];
    }

    /** The locked part of `handle`, with the event it goes on to emit. */
    method HandleUpdate(update: Update) returns (event: Option<Event>)
      modifies this
      ensures Effect(known, event) == Run(old(known), Handle(update))
    {
      match update
      case NewLink(ifindex, veth, name) =>
        if !veth {
          return None;
        }
        if ifindex in known {
          return None;
        }
        known := known[ifindex := name];
        return Some(Added(ifindex, name));
      case DelLink(ifindex) =>
        if ifindex !in known {
          return None;
        }
        var name := known[ifindex];
        known := known - {ifindex};
        return Some(Removed(ifindex, name));
      case Unrelated =>
        return None;
    }

    /** The locked part of the resync goroutine for one listed veth. */
    method ResyncLink(ifindex: int, name: string) returns (event: Option<Event>)
      modifies this
      ensures Effect(known, event) == Run(old(known), Resync(ifindex, name))
    {
      if ifindex in known {
        return None;
      }
      known := known[ifindex := name];
      return Some(Added(ifindex, name));
    }
  }

  // ----- Events in lock order

  /** The locked sections of both goroutines in the order they ran. */
  datatype Log = Log(knowns: seq<Known>, sections: seq<Section>, events: seq<Option<Event>>) {
    ghost predicate Valid() {
      && |knowns| == |sections| + 1 && |events| == |sections|
      && knowns[0] == map[]
      && forall i :: 0 <= i < |sections| ==> Effect(knowns[i + 1], events[i]) == Run(knowns[i], sections[i])
    }

    /** The last event about `ifindex` before position `n`. */
    function Last(n: nat, ifindex: int): Option<Event>
      requires n <= |events|
    {
      if n == 0 then None
      else if events[n - 1].Some? && events[n - 1].value.ifindex == ifindex then events[n - 1]
      else Last(n - 1, ifindex)
    }

    /** An interface is known exactly when its last event was an Add, under that event's name. */
    lemma {:induction false} KnownIsLastAdded(n: nat, ifindex: int)
      requires Valid() && n < |knowns|
      ensures ifindex in knowns[n] <==> Last(n, ifindex).Some? && Last(n, ifindex).value.Added?
      ensures ifindex in knowns[n] ==> Last(n, ifindex) == Some(Added(ifindex, knowns[n][ifindex]))
    {
      if n > 0 {
        KnownIsLastAdded(n - 1, ifindex);
        assert Effect(knowns[n - 1 + 1], events[n - 1]) == Run(knowns[n - 1], sections[n - 1]);
      }
    }

    /** A veth NEWLINK or a resync listing of `ifindex` came after its last DELLINK. */
    function Live(n: nat, ifindex: int): bool
      requires n <= |sections|
    {
      if n == 0 then false
      else if Lists(sections[n - 1], ifindex) then true
      else if sections[n - 1] == Handle(DelLink(ifindex)) then false
      else Live(n - 1, ifindex)
    }

    /** The monitor knows exactly the interfaces that its sections left live. */
    lemma {:induction false} KnownIsLive(n: nat, ifindex: int)
      requires Valid() && n < |knowns|
      ensures ifindex in knowns[n] <==> Live(n, ifindex)
    {
      if n > 0 {
        KnownIsLive(n - 1, ifindex);
        assert Effect(knowns[n - 1 + 1], events[n - 1]) == Run(knowns[n - 1], sections[n - 1]);
      }
    }

    /**
     A section that makes an interface live emits one Add under the name it reports, one that ends
     its life emits one Remove under the name of its Add, and no other section emits anything about it.
     */
    lemma SectionEmits(n: nat, ifindex: int)
      requires Valid() && n < |sections|
      ensures if !Live(n, ifindex) && Live(n + 1, ifindex) then
                Lists(sections[n], ifindex) && events[n] == Some(Added(ifindex, ListedName(sections[n])))
              else if Live(n, ifindex) && !Live(n + 1, ifindex) then
                Last(n, ifindex).Some? && events[n] == Some(Removed(ifindex, Last(n, ifindex).value.name))
              else events[n].Some? ==> events[n].value.ifindex != ifindex
    {
      KnownIsLive(n, ifindex);
      KnownIsLive(n + 1, ifindex);
      KnownIsLastAdded(n, ifindex);
      assert Effect(knowns[n + 1], events[n]) == Run(knowns[n], sections[n]);
    }

    /**
     Even with the resync running, each interface's events alternate Add and Remove in
     lock order, starting with Add; a Remove carries the name of its Add.
     */
    lemma EventsAlternate(n: nat)
      requires Valid() && n < |events| && events[n].Some?
      ensures var event := events[n].value;
              var last := Last(n, event.ifindex);
              if event.Added? then last.None? || last.value.Removed?
              else last == Some(Added(event.ifindex, event.name))
    {
      KnownIsLastAdded(n, events[n].value.ifindex);
      assert Effect(knowns[n + 1], events[n]) == Run(knowns[n], sections[n]);
    }
  }

  // ----- Monitor, channel and controller

  const CHANNEL_CAPACITY: nat := 32

  /**
   The monitor's map, the event each of its two goroutines has still to send, the event channel and
   the interfaces the manager tracks.
   */
  datatype Pipe = Pipe(
    known: Known, handling: Option<Event>, resyncing: Option<Event>, queue: seq<Event>, attached: set<int>)

  /** A locked section, the send that follows it after the lock is released, or the controller's turn. */
  datatype Step = Lock(section: Section) | Send(resync: bool) | Consume(attachFails: bool)

  function Held(p: Pipe, resync: bool): Option<Event> {
    if resync then p.resyncing else p.handling
  }

  /** A goroutine blocks on its send while the channel is full, and starts no section before it is done. */
  predicate Enabled(p: Pipe, step: Step) {
    match step
    case Lock(section) => Held(p, section.Resync?).None?
    case Send(resync) => Held(p, resync).Some? && |p.queue| < CHANNEL_CAPACITY
    case Consume(_) => p.queue != []
  }

  /** The controller's reaction: attach on Add, forget on Remove. */
  function React(attached: set<int>, event: Event, attachFails: bool): set<int> {
    match event
    case Added(ifindex, _) =>
      if ifindex <= 0 || (ifindex !in attached && attachFails) then attached else attached + {ifindex}
    case Removed(ifindex, _) => attached - {ifindex}
  }

  function Next(p: Pipe, step: Step): Pipe
    requires Enabled(p, step)
  {
    match step
    case Lock(section) =>
      var e := Run(p.known, section);
      if section.Resync? then p.(known := e.known, resyncing := e.event)
      else p.(known := e.known, handling := e.event)
    case Send(resync) =>
      var sent := p.(queue := p.queue + [Held(p, resync).value]);
      if resync then sent.(resyncing := None) else sent.(handling := None)
    case Consume(attachFails) =>
      p.(queue := p.queue[1..], attached := React(p.attached, p.queue[0], attachFails))
  }

  predicate About(event: Option<Event>, ifindex: int) {
    event.Some? && event.value.ifindex == ifindex
  }

  /** Nothing about `ifindex` waits to be sent. */
  predicate Settled(p: Pipe, ifindex: int) {
    !About(p.handling, ifindex) && !About(p.resyncing, ifindex)
  }

  datatype PipeRun = PipeRun(pipes: seq<Pipe>, steps: seq<Step>) {
    ghost predicate Valid() {
      && |pipes| == |steps| + 1
      && pipes[0] == Pipe(map[], None, None, [], {})
      && forall i :: 0 <= i < |steps| ==> Enabled(pipes[i], steps[i]) && pipes[i + 1] == Next(pipes[i], steps[i])
    }

    /** A veth NEWLINK or a resync listing of `ifindex` came after its last DELLINK. */
    function Live(n: nat, ifindex: int): bool
      requires n <= |steps|
    {
      if n == 0 then false
      else if steps[n - 1].Lock? && Lists(steps[n - 1].section, ifindex) then true
      else if steps[n - 1] == Lock(Handle(DelLink(ifindex))) then false
      else Live(n - 1, ifindex)
    }

    /** Step `n - 1` sends an event about `ifindex`. */
    predicate Sends(n: nat, ifindex: int)
      requires 0 < n <= |steps| && n <= |pipes|
    {
      steps[n - 1].Send? && About(Held(pipes[n - 1], steps[n - 1].resync), ifindex)
    }

    /** The last event sent about `ifindex` was an Add. */
    function LastSentIsAdd(n: nat, ifindex: int): bool
      requires n <= |steps| && n <= |pipes|
    {
      if n == 0 then false
      else if Sends(n, ifindex) then Held(pipes[n - 1], steps[n - 1].resync).value.Added?
      else LastSentIsAdd(n - 1, ifindex)
    }

    /** The last event sent about `ifindex` was overtaken: an Add of one no longer live, or a Remove of a live one. */
    function Overtaken(n: nat, ifindex: int): bool
      requires n <= |steps| && n <= |pipes|
    {
      if n == 0 then false
      else if Sends(n, ifindex) then Held(pipes[n - 1], steps[n - 1].resync).value.Added? != Live(n - 1, ifindex)
      else Overtaken(n - 1, ifindex)
    }

    /** Step `n - 1` is the controller taking an event about `ifindex`. */
    predicate Takes(n: nat, ifindex: int)
      requires 0 < n <= |steps| && n <= |pipes|
    {
      steps[n - 1].Consume? && pipes[n - 1].queue != [] && pipes[n - 1].queue[0].ifindex == ifindex
    }

    /** The last event about `ifindex` that the controller has taken was an Add. */
    function LastTakenIsAdd(n: nat, ifindex: int): bool
      requires n <= |steps| && n <= |pipes|
    {
      if n == 0 then false
      else if Takes(n, ifindex) then pipes[n - 1].queue[0].Added?
      else LastTakenIsAdd(n - 1, ifindex)
    }

    /** The last Add about `ifindex` that the controller has taken led to an attach that failed. */
    function LastAttachFails(n: nat, ifindex: int): bool
      requires n <= |steps| && n <= |pipes|
    {
      if n == 0 then false
      else if Takes(n, ifindex) && pipes[n - 1].queue[0].Added? then
        steps[n - 1].attachFails && ifindex !in pipes[n - 1].attached
      else LastAttachFails(n - 1, ifindex)
    }

    lemma {:induction false} KnownIsLive(n: nat, ifindex: int)
      requires Valid() && n < |pipes|
      ensures ifindex in pipes[n].known <==> Live(n, ifindex)
    {
      if n > 0 {
        KnownIsLive(n - 1, ifindex);
        assert Enabled(pipes[n - 1], steps[n - 1]) && pipes[n - 1 + 1] == Next(pipes[n - 1], steps[n - 1]);
      }
    }

    /** What has been taken and what waits in the channel add up to what was sent. */
    lemma {:induction false} QueueLeadsToSent(n: nat, ifindex: int)
      requires Valid() && n < |pipes|
      ensures LeadsTo(LastTakenIsAdd(n, ifindex), pipes[n].queue, ifindex) == LastSentIsAdd(n, ifindex)
    {
      if n > 0 {
        QueueLeadsToSent(n - 1, ifindex);
        assert Enabled(pipes[n - 1], steps[n - 1]) && pipes[n - 1 + 1] == Next(pipes[n - 1], steps[n - 1]);
        if steps[n - 1].Send? {
          var event := Held(pipes[n - 1], steps[n - 1].resync).value;
          LeadsToAppend(LastTakenIsAdd(n - 1, ifindex), pipes[n - 1].queue, event, ifindex);
        }
      }
    }

    /** With nothing about it still to send, the last event sent tells whether it is live, unless overtaken. */
    lemma {:induction false} SentIsLive(n: nat, ifindex: int)
      requires Valid() && n < |pipes| && Settled(pipes[n], ifindex)
      ensures LastSentIsAdd(n, ifindex) == (Live(n, ifindex) != Overtaken(n, ifindex))
    {
      if n > 0 {
        assert Enabled(pipes[n - 1], steps[n - 1]) && pipes[n - 1 + 1] == Next(pipes[n - 1], steps[n - 1]);
        if !Sends(n, ifindex) {
          KnownIsLive(n - 1, ifindex);
          SentIsLive(n - 1, ifindex);
        }
      }
    }

    /** An interface is tracked exactly when its last event taken was an Add that led to no failed attach. */
    lemma {:induction false} TrackedIffAttached(n: nat, ifindex: int)
      requires Valid() && n < |pipes|
      ensures ifindex in pipes[n].attached <==>
              LastTakenIsAdd(n, ifindex) && ifindex > 0 && !LastAttachFails(n, ifindex)
    {
      if n > 0 {
        TrackedIffAttached(n - 1, ifindex);
        assert Enabled(pipes[n - 1], steps[n - 1]) && pipes[n - 1 + 1] == Next(pipes[n - 1], steps[n - 1]);
      }
    }

    /**
     Once everything about an interface is sent and the channel is drained, it is tracked exactly when
     it is live, its index is positive and no attach failed, except that an overtaken last event turns
     live and gone around.
     */
    lemma DrainedIsLive(n: nat, ifindex: int)
      requires Valid() && n < |pipes| && Settled(pipes[n], ifindex) && pipes[n].queue == []
      ensures ifindex in pipes[n].attached <==>
              (Live(n, ifindex) != Overtaken(n, ifindex)) && ifindex > 0 && !LastAttachFails(n, ifindex)
    {
      SentIsLive(n, ifindex);
      QueueLeadsToSent(n, ifindex);
      TrackedIffAttached(n, ifindex);
    }

    /** No resync has listed `ifindex` before position `n`. */
    ghost predicate NeverRelisted(n: nat, ifindex: int)
      requires n <= |steps|
    {
      forall i, name :: 0 <= i < n ==> steps[i] != Lock(Resync(ifindex, name))
    }

    /** An interface that no resync lists has its events sent in lock order, so none is overtaken. */
    lemma {:induction false} InOrderWithoutResync(n: nat, ifindex: int)
      requires Valid() && n < |pipes| && NeverRelisted(n, ifindex)
      ensures !Overtaken(n, ifindex) && !About(pipes[n].resyncing, ifindex)
      ensures About(pipes[n].handling, ifindex) ==> pipes[n].handling.value.Added? == Live(n, ifindex)
    {
      if n > 0 {
        InOrderWithoutResync(n - 1, ifindex);
        KnownIsLive(n - 1, ifindex);
        assert Enabled(pipes[n - 1], steps[n - 1]) && pipes[n - 1 + 1] == Next(pipes[n - 1], steps[n - 1]);
      }
    }

    /** The events about such an interface that wait in the channel alternate, opposite to the last one taken. */
    lemma {:induction false} QueueAlternates(n: nat, ifindex: int)
      requires Valid() && n < |pipes| && NeverRelisted(n, ifindex)
      ensures Alternates(LastTakenIsAdd(n, ifindex), pipes[n].queue, ifindex)
      ensures About(pipes[n].handling, ifindex) ==> LastSentIsAdd(n, ifindex) != Live(n, ifindex)
    {
      if n > 0 {
        QueueAlternates(n - 1, ifindex);
        QueueLeadsToSent(n - 1, ifindex);
        InOrderWithoutResync(n - 1, ifindex);
        KnownIsLive(n - 1, ifindex);
        assert Enabled(pipes[n - 1], steps[n - 1]) && pipes[n - 1 + 1] == Next(pipes[n - 1], steps[n - 1]);
        if Settled(pipes[n - 1], ifindex) {
          SentIsLive(n - 1, ifindex);
        }
        if steps[n - 1].Send? {
          var event := Held(pipes[n - 1], steps[n - 1].resync).value;
          AlternatesAppend(LastTakenIsAdd(n - 1, ifindex), pipes[n - 1].queue, event, ifindex);
        }
      }
    }
  }

  // ----- Events that overtake one another

  /** A run of `steps` leads from the start to `end`. */
  ghost predicate Reaches(run: PipeRun, steps: seq<Step>, end: Pipe) {
    run.Valid() && run.steps == steps && run.pipes[|steps|] == end
  }

  lemma Start() returns (run: PipeRun)
    ensures Reaches(run, [], Pipe(map[], None, None, [], {}))
  {
    run := PipeRun([Pipe(map[], None, None, [], {})], []);
  }

  lemma Extend(run: PipeRun, steps: seq<Step>, end: Pipe, step: Step, end': Pipe) returns (longer: PipeRun)
    requires Reaches(run, steps, end) && Enabled(end, step) && end' == Next(end, step)
    ensures Reaches(longer, steps + [step], end')
  {
    longer := PipeRun(run.pipes + [end'], run.steps + [step]);
  }

  /** From `p` with nothing waiting, `first` is sent and taken and then `second`. */
  lemma TwoSent(run: PipeRun, steps: seq<Step>, p: Pipe, first: bool) returns (longer: PipeRun)
    requires Reaches(run, steps, p) && p.queue == [] && p.handling.Some? && p.resyncing.Some?
    ensures var attached := React(p.attached, Held(p, first).value, false);
            Reaches(longer, steps + [Send(first)] + [Send(!first)] + [Consume(false)] + [Consume(false)],
                    Pipe(p.known, None, None, [], React(attached, Held(p, !first).value, false)))
  {
    var one, two := Held(p, first).value, Held(p, !first).value;
    var attached := React(p.attached, one, false);
    var half := if first then p.(resyncing := None, queue := [one]) else p.(handling := None, queue := [one]);
    longer := Extend(run, steps, p, Send(first), half);
    longer := Extend(longer, steps + [Send(first)], half,
                     Send(!first), Pipe(p.known, None, None, [one, two], p.attached));
    longer := Extend(longer, steps + [Send(first)] + [Send(!first)],
                     Pipe(p.known, None, None, [one, two], p.attached),
                     Consume(false), Pipe(p.known, None, None, [two], attached));
    longer := Extend(longer, steps + [Send(first)] + [Send(!first)] + [Consume(false)],
                     Pipe(p.known, None, None, [two], attached),
                     Consume(false), Pipe(p.known, None, None, [], React(attached, two, false)));
  }

  /** The resync's Add is sent after the Remove that ended the interface, which is then tracked for good. */
  lemma GoneButTracked(ifindex: int, name: string) returns (run: PipeRun)
    requires ifindex > 0
    ensures Reaches(run, [Lock(Resync(ifindex, name)), Lock(Handle(DelLink(ifindex))), Send(false), Send(true),
                          Consume(false), Consume(false)],
                    Pipe(map[], None, None, [], {ifindex}))
  {
    var start := Pipe(map[], None, None, [], {});
    var listed := Pipe(map[ifindex := name], None, Some(Added(ifindex, name)), [], {});
    var gone := Pipe(map[], Some(Removed(ifindex, name)), Some(Added(ifindex, name)), [], {});
    run := Start();
    run := Extend(run, [], start, Lock(Resync(ifindex, name)), listed);
    assert listed.known - {ifindex} == map[];
    run := Extend(run, [Lock(Resync(ifindex, name))], listed, Lock(Handle(DelLink(ifindex))), gone);
    run := TwoSent(run, [Lock(Resync(ifindex, name)), Lock(Handle(DelLink(ifindex)))], gone, false);
  }

  /** A veth appears and is attached. */
  lemma VethAttached(ifindex: int, name: string) returns (run: PipeRun)
    requires ifindex > 0
    ensures Reaches(run, [Lock(Handle(NewLink(ifindex, true, name))), Send(false), Consume(false)],
                    Pipe(map[ifindex := name], None, None, [], {ifindex}))
  {
    var known, added := map[ifindex := name], Added(ifindex, name);
    var appears := Lock(Handle(NewLink(ifindex, true, name)));
    run := Start();
    run := Extend(run, [], Pipe(map[], None, None, [], {}), appears, Pipe(known, Some(added), None, [], {}));
    run := Extend(run, [appears], Pipe(known, Some(added), None, [], {}), Send(false),
                  Pipe(known, None, None, [added], {}));
    run := Extend(run, [appears, Send(false)], Pipe(known, None, None, [added], {}), Consume(false),
                  Pipe(known, None, None, [], {ifindex}));
  }

  /** A Remove is sent after the resync's Add that followed it, and a live interface is left without programs. */
  lemma LiveButUntracked(ifindex: int, name: string) returns (run: PipeRun)
    requires ifindex > 0
    ensures Reaches(run, [Lock(Handle(NewLink(ifindex, true, name))), Send(false), Consume(false),
                          Lock(Handle(DelLink(ifindex))), Lock(Resync(ifindex, name)), Send(true), Send(false),
                          Consume(false), Consume(false)],
                    Pipe(map[ifindex := name], None, None, [], {}))
  {
    var known := map[ifindex := name];
    var removed, added := Some(Removed(ifindex, name)), Some(Added(ifindex, name));
    var before := [Lock(Handle(NewLink(ifindex, true, name))), Send(false), Consume(false)];
    var gone := Pipe(map[], removed, None, [], {ifindex});
    run := VethAttached(ifindex, name);
    assert known - {ifindex} == map[];
    run := Extend(run, before, Pipe(known, None, None, [], {ifindex}), Lock(Handle(DelLink(ifindex))), gone);
    run := Extend(run, before + [Lock(Handle(DelLink(ifindex)))], gone, Lock(Resync(ifindex, name)),
                  Pipe(known, removed, added, [], {ifindex}));
    run := TwoSent(run, before + [Lock(Handle(DelLink(ifindex)))] + [Lock(Resync(ifindex, name))],
                   Pipe(known, removed, added, [], {ifindex}), true);
  }

  /** The events about `ifindex` in the queue alternate, starting with an Add unless `added`. */
  predicate Alternates(added: bool, queue: seq<Event>, ifindex: int)
    decreases |queue|
  {
    if queue == [] then true
    else if queue[0].ifindex != ifindex then Alternates(added, queue[1..], ifindex)
    else queue[0].Added? == !added && Alternates(!added, queue[1..], ifindex)
  }

  /** Whether the interface is added once the queue is worked off. */
  function LeadsTo(added: bool, queue: seq<Event>, ifindex: int): bool
    decreases |queue|
  {
    if queue == [] then added
    else if queue[0].ifindex != ifindex then LeadsTo(added, queue[1..], ifindex)
    else LeadsTo(queue[0].Added?, queue[1..], ifindex)
  }

  lemma {:induction false} LeadsToAppend(added: bool, queue: seq<Event>, event: Event, ifindex: int)
    ensures LeadsTo(added, queue + [event], ifindex)
         == if event.ifindex == ifindex then event.Added? else LeadsTo(added, queue, ifindex)
    decreases |queue|
  {
    if queue == [] {
      assert (queue + [event])[1..] == [];
    } else {
      assert (queue + [event])[1..] == queue[1..] + [event];
      LeadsToAppend(if queue[0].ifindex == ifindex then queue[0].Added? else added, queue[1..], event, ifindex);
    }
  }

  lemma {:induction false} AlternatesAppend(added: bool, queue: seq<Event>, event: Event, ifindex: int)
    requires Alternates(added, queue, ifindex)
    requires event.ifindex == ifindex ==> event.Added? == !LeadsTo(added, queue, ifindex)
    ensures Alternates(added, queue + [event], ifindex)
    decreases |queue|
  {
    if queue == [] {
      assert (queue + [event])[1..] == [];
    } else {
      assert (queue + [event])[1..] == queue[1..] + [event];
      AlternatesAppend(if queue[0].ifindex == ifindex then !added else added, queue[1..], event, ifindex);
    }
  }
}
