/** TCX attachments and their link handles (internal/ebpf/attach.go), driven by the controller. */
module AttachManager {
  import opened Bytes
  import opened VethMonitor

  /** A TCX link: one program on one side of one interface. */
  datatype Link = Link(ifindex: int, egress: bool, serial: nat)

  /** The kernel's open links; closing a link releases it even when an error is reported. */
  class Links {
    var open: set<Link>
    var issued: nat

    constructor ()
      ensures open == {} && issued == 0
    {
      open, issued := {}, 0;
    }

    ghost predicate Valid()
      reads this
    {
      forall l :: l in open ==> l.serial < issued
    }

    method AttachTCX(ifindex: int, egress: bool, fails: bool) returns (link: Option<Link>)
      requires Valid()
      modifies this
      ensures Valid()
      ensures link == if fails then None else Some(Link(ifindex, egress, old(issued)))
      ensures issued == if fails then old(issued) else old(issued) + 1
      ensures open == if fails then old(open) else old(open) + {link.value}
    {
      if fails {
        return None;
      }
      link := Some(Link(ifindex, egress, issued));
      open := open + {link.value};
      issued := issued + 1;
    }

    method Close(link: Link, reportsError: bool) returns (err: bool)
      requires Valid()
      modifies this
      ensures Valid() && open == old(open) - {link} && issued == old(issued) && err == reportsError
    {
      open := open - {link};
      err := reportsError;
    }
  }

  class Attachment {
    const ifindex: int
    var ingress: Option<Link>
    var egress: Option<Link>

    constructor (ifindex: int, ingress: Link, egress: Link)
      ensures this.ifindex == ifindex && this.ingress == Some(ingress) && this.egress == Some(egress)
    {
      this.ifindex := ifindex;
      this.ingress := Some(ingress);
      this.egress := Some(egress);
    }

    /** Closes what is open and forgets it, so that a second call does nothing. */
    method Close(links: Links, errors: bool) returns (err: bool)
      requires links.Valid()
      modifies this, links
      ensures links.Valid() && ingress == None && egress == None
      ensures forall l :: l in links.open <==> l in old(links.open) && old(ingress) != Some(l) && old(egress) != Some(l)
      ensures err <==> errors && (old(ingress).Some? || old(egress).Some?)
    {
      err := false;
      if ingress.Some? {
        err := links.Close(ingress.value, errors);
        ingress := None;
      }
      if egress.Some? {
        var err2 := links.Close(egress.value, errors);
        err := err || err2;
        egress := None;
      }
    }
  }

  class Manager {
    const links: Links
    var attachments: map<int, Attachment>

    /**
     The open links are exactly the two links of each tracked interface, one for each
     direction.
     */
    ghost predicate Owns(tracked: map<int, Attachment>)
      reads links, tracked.Values
    {
      && (forall i :: i in tracked ==> tracked[i].ifindex == i && HoldsBoth(tracked[i]))
      && (forall l :: l in links.open ==>
            && l.ifindex in tracked
            && Some(l) == if l.egress then tracked[l.ifindex].egress else tracked[l.ifindex].ingress)
    }

    ghost predicate HoldsBoth(a: Attachment)
      reads links, a
    {
      && a.ingress.Some? && a.ingress.value in links.open
      && a.ingress.value.ifindex == a.ifindex && !a.ingress.value.egress
      && a.egress.Some? && a.egress.value in links.open
      && a.egress.value.ifindex == a.ifindex && a.egress.value.egress
    }

    ghost predicate Valid()
      reads this, links, attachments.Values
    {
      links.Valid() && Owns(attachments)
    }

    constructor (links: Links)
      requires links.Valid() && links.open == {}
      ensures this.links == links && attachments == map[] && Valid()
    {
      this.links := links;
      attachments := map[];
    }

    /** Attaches both programs or neither; an interface already tracked is left alone. */
    method Attach(ifindex: int, ingressFails: bool, egressFails: bool) returns (ok: bool)
      requires Valid()
      modifies this, links
      ensures Valid()
      ensures attachments.Keys == React(old(attachments.Keys), Added(ifindex, ""), ingressFails || egressFails)
      ensures ok <==> ifindex in attachments && ifindex > 0
      ensures forall i :: i in old(attachments) ==> i in attachments && attachments[i] == old(attachments)[i]
      ensures ifindex in old(attachments) || !ok ==> links.open == old(links.open)
    {
      if ifindex <= 0 {
        return false;
      }
      if ifindex in attachments {
        return true;
      }
      var ingress := links.AttachTCX(ifindex, false, ingressFails);
      if ingress.None? {
        return false;
      }
      var egress := links.AttachTCX(ifindex, true, egressFails);
      if egress.None? {
        var _ := links.Close(ingress.value, false);
        assert links.open == old(links.open);
        return false;
      }
      var a := new Attachment(ifindex, ingress.value, egress.value);
      attachments := attachments[ifindex := a];
      return true;
    }

    /** Stops tracking and closes both links; an untracked interface is left alone. */
    method Detach(ifindex: int, errors: bool) returns (err: bool)
      requires Valid()
      modifies this, links, attachments.Values
      ensures Valid()
      ensures attachments == old(attachments) - {ifindex}
      ensures err <==> errors && ifindex in old(attachments)
    {
      if ifindex !in attachments {
        assert attachments == attachments - {ifindex};
        return false;
      }
      var a := attachments[ifindex];
      attachments := attachments - {ifindex};
      err := a.Close(links, errors);
    }

    /** Closes every tracked link: none is left open. */
    method DetachAll(errors: bool) returns (err: bool)
      requires Valid()
      modifies this, links, attachments.Values
      ensures Valid() && attachments == map[] && links.open == {}
      ensures err <==> errors && old(attachments) != map[]
    {
      var all := attachments;
      attachments := map[];
      err := false;
      var rest, todo := all, all.Keys;
      while todo != {}
        invariant rest.Keys == todo && rest.Values <= all.Values
        invariant links.Valid() && Owns(rest) && attachments == map[]
        invariant todo <= all.Keys && (err <==> errors && todo != all.Keys)
        decreases todo
      {
        var i := PickOne(todo);
        var e := CloseOne(rest, i, errors);
        err := err || e;
        rest, todo := rest - {i}, todo - {i};
      }
    }

    method CloseOne(todo: map<int, Attachment>, i: int, errors: bool) returns (err: bool)
      requires links.Valid() && Owns(todo) && i in todo
      modifies todo[i], links
      ensures links.Valid() && Owns(todo - {i}) && err == errors
    {
      err := todo[i].Close(links, errors);
    }
  }

  /** The next key of a map iteration, in no particular order. */
  method PickOne<T>(s: set<T>) returns (x: T)
    requires s != {}
    ensures x in s
  {
    x :| x in s;
  }

  /** `Controller.handle`: attach on Add, detach on Remove, log and go on when either fails. */
  method HandleEvent(m: Manager, event: Event, ingressFails: bool, egressFails: bool, errors: bool)
    requires m.Valid()
    modifies m, m.links, m.attachments.Values
    ensures m.Valid()
    ensures m.attachments.Keys == React(old(m.attachments.Keys), event, ingressFails || egressFails)
  {
    match event
    case Added(ifindex, _) =>
      var _ := m.Attach(ifindex, ingressFails, egressFails);
    case Removed(ifindex, _) =>
      var _ := m.Detach(ifindex, errors);
  }
}
