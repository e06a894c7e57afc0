/** How the converter connects gotos and gosubs to labels, whichever it meets first. */
module LabelResolution {
  import opened Words

  datatype Jump = Goto | Gosub

  /** What the converter has met so far. Numbers stand for the identity of the IR nodes. */
  datatype Event = LabelMet(name: string, node: nat) | JumpMet(jump: Jump, name: string, id: nat)

  /** The first label of a name. */
  function FirstLabel(events: seq<Event>, name: string): Option<nat> {
    if events == [] then None
    else
      var last := events[|events| - 1];
      var before := FirstLabel(events[..|events| - 1], name);
      if before.None? && last.LabelMet? && last.name == name then Some(last.node) else before
  }

  /** It is the label of an event that no other label of that name precedes. */
  lemma {:induction false} FirstLabelExactly(events: seq<Event>, name: string)
    ensures match FirstLabel(events, name)
      case None => NoLabel(events, name)
      case Some(l) => exists i :: 0 <= i < |events| && events[i] == LabelMet(name, l) && NoLabel(events[..i], name)
  {
    if events != [] {
      var n := |events| - 1;
      FirstLabelExactly(events[..n], name);
      var before := FirstLabel(events[..n], name);
      if before.Some? {
        var i :| 0 <= i < n && events[..n][i] == LabelMet(name, before.value) && NoLabel(events[..n][..i], name);
        assert events[..n][..i] == events[..i];
        assert events[i] == LabelMet(name, before.value);
      } else if events[n].LabelMet? && events[n].name == name {
        assert events[n] == LabelMet(name, events[n].node);
      } else {
        assert events == events[..n] + [events[n]];
      }
    }
  }

  predicate NoLabel(events: seq<Event>, name: string) {
    forall e <- events :: e.LabelMet? ==> e.name != name
  }

  lemma OneMoreEvent(events: seq<Event>, e: Event, name: string)
    ensures FirstLabel(events + [e], name)
      == if FirstLabel(events, name).None? && e.LabelMet? && e.name == name then Some(e.node) else FirstLabel(events, name)
  {
    assert (events + [e])[..|events|] == events;
  }

  /** No two jumps of the same kind are the same node. */
  predicate DistinctJumps(events: seq<Event>) {
    forall i, k :: 0 <= i < k < |events| && events[i].JumpMet? && events[k].JumpMet? && events[i].jump == events[k].jump
      ==> events[i].id != events[k].id
  }

  datatype Waiting = Waiting(name: string, id: nat)

  function Without(pending: seq<Waiting>, name: string): (r: seq<Waiting>)
    ensures forall p :: p in r <==> p in pending && p.name != name
  {
    if pending == [] then []
    else (if pending[0].name == name then [] else [pending[0]]) + Without(pending[1..], name)
  }

  /** The table of labels holds the first label of each name. */
  ghost predicate LabelsKnown(events: seq<Event>, labels: map<string, nat>) {
    forall n: string :: FirstLabel(events, n) == if n in labels then Some(labels[n]) else None
  }

  /** Every jump points to the first label of its name, or waits for one. */
  ghost predicate JumpsKnown(j: Jump, events: seq<Event>, pending: seq<Waiting>, targets: map<nat, Option<nat>>) {
    && (forall n, id :: JumpMet(j, n, id) in events ==> id in targets && targets[id] == FirstLabel(events, n))
    && (forall n, id :: Waiting(n, id) in pending <==> JumpMet(j, n, id) in events && FirstLabel(events, n).None?)
  }

  class JumpTable {
    var labels: map<string, nat>
    var pendingGotos: seq<Waiting>
    var pendingGosubs: seq<Waiting>
    var gotoTargets: map<nat, Option<nat>>
    var gosubTargets: map<nat, Option<nat>>
    ghost var events: seq<Event>

    ghost predicate Valid()
      reads this
    {
      && DistinctJumps(events) && LabelsKnown(events, labels)
      && JumpsKnown(Goto, events, pendingGotos, gotoTargets) && JumpsKnown(Gosub, events, pendingGosubs, gosubTargets)
    }

    constructor ()
      ensures Valid() && events == []
    {
      labels, pendingGotos, pendingGosubs, gotoTargets, gosubTargets, events := map[], [], [], map[], map[], [];
    }

    /** Points the jumps waiting for the name to the label. */
    static method Resolve(pending: seq<Waiting>, targets: map<nat, Option<nat>>, name: string, node: nat)
      returns (stillPending: seq<Waiting>, r: map<nat, Option<nat>>)
      ensures stillPending == Without(pending, name)
      ensures forall id :: id in r <==> id in targets || Waiting(name, id) in pending
      ensures forall id <- r :: r[id] == if Waiting(name, id) in pending then Some(node) else targets[id]
    {
      r := targets;
      for i := 0 to |pending|
        invariant forall id :: id in r <==> id in targets || Waiting(name, id) in pending[..i]
        invariant forall id <- r :: r[id] == if Waiting(name, id) in pending[..i] then Some(node) else targets[id]
      {
        assert pending[..i + 1] == pending[..i] + [pending[i]];
        if pending[i].name == name {
          r := r[pending[i].id := Some(node)];
        }
      }
      assert pending[..|pending|] == pending;
      stillPending := Without(pending, name);
    }

    method ConvertLabel(name: string, node: nat)
      requires Valid()
      modifies this
      ensures Valid() && events == old(events) + [LabelMet(name, node)]
    {
      hide FirstLabel, Without, JumpsKnown, DistinctJumps;
      ghost var gotos, gosubs := gotoTargets, gosubTargets;
      var pending1, targets1 := Resolve(pendingGotos, gotoTargets, name, node);
      var pending2, targets2 := Resolve(pendingGosubs, gosubTargets, name, node);
      LabelKeeps(Goto, events, LabelMet(name, node), pendingGotos, gotoTargets, targets1);
      LabelKeeps(Gosub, events, LabelMet(name, node), pendingGosubs, gosubTargets, targets2);
      pendingGotos, gotoTargets, pendingGosubs, gosubTargets := pending1, targets1, pending2, targets2;
      forall n: string ensures FirstLabel(events + [LabelMet(name, node)], n)
        == if FirstLabel(events, n).None? && n == name then Some(node) else FirstLabel(events, n)
      {
        OneMoreEvent(events, LabelMet(name, node), n);
      }
      if name !in labels {
        labels := labels[name := node];
      }
      events := events + [LabelMet(name, node)];
    }

    method ConvertGoto(name: string, id: nat)
      requires Valid() && DistinctJumps(events + [JumpMet(Goto, name, id)])
      modifies this
      ensures Valid() && events == old(events) + [JumpMet(Goto, name, id)]
    {
      hide FirstLabel, JumpsKnown, DistinctJumps;
      var target := if name in labels then Some(labels[name]) else None;
      JumpKeeps(Goto, Goto, events, name, id, pendingGotos, gotoTargets);
      JumpKeeps(Gosub, Goto, events, name, id, pendingGosubs, gosubTargets);
      gotoTargets := gotoTargets[id := target];
      if target.None? {
        pendingGotos := pendingGotos + [Waiting(name, id)];
      }
      JumpAddsNoLabel(events, JumpMet(Goto, name, id));
      events := events + [JumpMet(Goto, name, id)];
    }

    method ConvertGosub(name: string, id: nat)
      requires Valid() && DistinctJumps(events + [JumpMet(Gosub, name, id)])
      modifies this
      ensures Valid() && events == old(events) + [JumpMet(Gosub, name, id)]
    {
      hide FirstLabel, JumpsKnown, DistinctJumps;
      var target := if name in labels then Some(labels[name]) else None;
      JumpKeeps(Gosub, Gosub, events, name, id, pendingGosubs, gosubTargets);
      JumpKeeps(Goto, Gosub, events, name, id, pendingGotos, gotoTargets);
      gosubTargets := gosubTargets[id := target];
      if target.None? {
        pendingGosubs := pendingGosubs + [Waiting(name, id)];
      }
      JumpAddsNoLabel(events, JumpMet(Gosub, name, id));
      events := events + [JumpMet(Gosub, name, id)];
    }

    /** Whatever the order in which labels, gotos and gosubs are met, each jump finally points
        to the first label of its name, and to nothing exactly if there is no such label. */
    method ConvertAll(all: seq<Event>)
      requires Valid() && events == [] && DistinctJumps(all)
      modifies this
      ensures Valid() && events == all
      ensures forall n, id :: JumpMet(Goto, n, id) in all ==> id in gotoTargets && gotoTargets[id] == FirstLabel(all, n)
      ensures forall n, id :: JumpMet(Gosub, n, id) in all ==> id in gosubTargets && gosubTargets[id] == FirstLabel(all, n)
      ensures forall n :: n in labels ==> forall id :: Waiting(n, id) !in pendingGotos && Waiting(n, id) !in pendingGosubs
    {
      hide FirstLabel;
      for i := 0 to |all|
        invariant Valid() && events == all[..i]
      {
        assert all[..i + 1] == all[..i] + [all[i]];
        DistinctBefore(all, i + 1);
        match all[i]
        case LabelMet(name, node) => ConvertLabel(name, node);
        case JumpMet(Goto, name, id) => ConvertGoto(name, id);
        case JumpMet(Gosub, name, id) => ConvertGosub(name, id);
      }
      assert all[..|all|] == all;
    }
  }

  lemma DistinctBefore(events: seq<Event>, n: nat)
    requires DistinctJumps(events) && n <= |events|
    ensures DistinctJumps(events[..n])
  {
  }

  lemma LabelKeeps(j: Jump, events: seq<Event>, e: Event, pending: seq<Waiting>, targets: map<nat, Option<nat>>, r: map<nat, Option<nat>>)
    requires e.LabelMet? && DistinctJumps(events) && JumpsKnown(j, events, pending, targets)
    requires forall id :: id in r <==> id in targets || Waiting(e.name, id) in pending
    requires forall id <- r :: r[id] == if Waiting(e.name, id) in pending then Some(e.node) else targets[id]
    ensures JumpsKnown(j, events + [e], Without(pending, e.name), r)
    ensures DistinctJumps(events + [e])
  {
    hide FirstLabel, Without;
    var after := events + [e];
    forall n: string ensures FirstLabel(after, n)
      == if FirstLabel(events, n).None? && n == e.name then Some(e.node) else FirstLabel(events, n)
    {
      OneMoreEvent(events, e, n);
    }
    forall n, id ensures JumpMet(j, n, id) in after <==> JumpMet(j, n, id) in events {
    }
    forall n, id | JumpMet(j, n, id) in after ensures id in r && r[id] == FirstLabel(after, n) {
      SameName(j, events, n, e.name, id);
    }
  }

  lemma SameName(j: Jump, events: seq<Event>, n: string, m: string, id: nat)
    requires DistinctJumps(events) && JumpMet(j, n, id) in events
    ensures JumpMet(j, m, id) in events ==> m == n
  {
  }

  lemma JumpAddsNoLabel(events: seq<Event>, e: Event)
    requires e.JumpMet?
    ensures forall n :: FirstLabel(events + [e], n) == FirstLabel(events, n)
  {
    forall n ensures FirstLabel(events + [e], n) == FirstLabel(events, n) {
      OneMoreEvent(events, e, n);
    }
  }

  lemma JumpKeeps(k: Jump, j: Jump, events: seq<Event>, name: string, id: nat, pending: seq<Waiting>, targets: map<nat, Option<nat>>)
    requires DistinctJumps(events + [JumpMet(j, name, id)]) && JumpsKnown(k, events, pending, targets)
    ensures var after := events + [JumpMet(j, name, id)];
      var target := FirstLabel(events, name);
      if k == j
      then JumpsKnown(k, after, if target.None? then pending + [Waiting(name, id)] else pending, targets[id := target])
      else JumpsKnown(k, after, pending, targets)
  {
    hide FirstLabel;
    var e := JumpMet(j, name, id);
    var after := events + [e];
    JumpAddsNoLabel(events, e);
    forall n, i ensures JumpMet(k, n, i) in after <==> JumpMet(k, n, i) in events || JumpMet(k, n, i) == e {
    }
    forall n ensures JumpMet(j, n, id) !in events {
      forall i | 0 <= i < |events| ensures events[i] != JumpMet(j, n, id) {
        assert after[i] == events[i] && after[|events|] == e;
      }
    }
  }
}
