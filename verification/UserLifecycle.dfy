/** What deletion of a V2rayUser leaves behind, when it completes, and where the recorded node list settles. */
module UserLifecycle {
  import opened Kube
  import opened Election
  import opened UserSaga
  import opened UserRuns

  // --- the recorded list and the elected services ---

  lemma {:induction false} RecordedMembers(nodes: NodeList, order: seq<string>)
    ensures forall x :: x in Recorded(nodes, order) <==> exists r :: r in order && r in nodes && x in nodes[r].info
  {
    if order != [] {
      RecordedMembers(nodes, order[1..]);
      assert forall r :: r in order <==> r == order[0] || r in order[1..];
    }
  }

  /** Every record was filed for one of the services, and leads back to it by name. */
  lemma RecordNames(nodes: NodeList, order: seq<string>, view: View, svcs: seq<Service>,
                    x: NodeInfo) returns (svc: Service)
    requires UniqueNames(view)
    requires forall s | s in svcs :: s in view.services && InfoOf(view, s).Some?
    requires FilesAll(nodes, view, svcs)
    requires x in Recorded(nodes, order)
    ensures svc in svcs && InfoOf(view, svc) == Some(x) && ServiceNamed(view.services, x.svcName) == Some(svc)
  {
    RecordedMembers(nodes, order);
    var r :| r in order && r in nodes && x in nodes[r].info;
    svc := FiledFor(nodes, view, svcs, r, x);
    NamedFindsMember(view.services, svc);
  }

  /** Every added service has a record. */
  lemma RecordExists(nodes: NodeList, order: seq<string>, view: View, svcs: seq<Service>, svc: Service)
    requires UniqueNames(view)
    requires forall s | s in svcs :: s in view.services && InfoOf(view, s).Some?
    requires FilesAll(nodes, view, svcs) && IsWalk(order, nodes.Keys)
    requires svc in svcs
    ensures InfoOf(view, svc).value in Recorded(nodes, order)
    ensures ServiceNamed(view.services, svc.name) == Some(svc)
  {
    NamedFindsMember(view.services, svc);
    var r := RegionOf(svc);
    var part := OfRegion(svcs, r);
    OfRegionKeeps(svcs, svc);
    var j :| 0 <= j < |part| && part[j] == svc;
    assert Infos(view, part)[j] == InfoOf(view, svc).value;
    assert r in nodes && r in order;
    RecordedMembers(nodes, order);
  }

  /** The removal visits every elected service: its records lead to the slots the add filled. */
  lemma RecordedSlotsAreElected(nodes: NodeList, order: seq<string>, view: View, t: Ticket, svcs: seq<Service>)
    requires UniqueNames(view)
    requires forall s | s in svcs :: s in view.services && InfoOf(view, s).Some?
    requires FilesAll(nodes, view, svcs) && IsWalk(order, nodes.Keys)
    ensures RecordedSlots(view, t, Recorded(nodes, order)) == Slots(view, t, svcs)
  {
    var infos := Recorded(nodes, order);
    forall slot | slot in Slots(view, t, svcs)
      ensures slot in RecordedSlots(view, t, infos)
    {
      var s :| s in svcs && Dial(view, s).Some? && slot == SlotAt(t, Dial(view, s).value);
      RecordExists(nodes, order, view, svcs, s);
    }
    forall slot | slot in RecordedSlots(view, t, infos)
      ensures slot in Slots(view, t, svcs)
    {
      var x :| x in infos && ServiceNamed(view.services, x.svcName).Some?
               && Dial(view, ServiceNamed(view.services, x.svcName).value).Some?
               && slot == SlotAt(t, Dial(view, ServiceNamed(view.services, x.svcName).value).value);
      var s := RecordNames(nodes, order, view, svcs, x);
    }
  }

  lemma {:induction false} OfRegionKeeps(svcs: seq<Service>, s: Service)
    requires s in svcs
    ensures s in OfRegion(svcs, RegionOf(s))
  {
    if svcs[0] != s {
      assert s in svcs[1..];
      OfRegionKeeps(svcs[1..], s);
    }
  }

  /** How many of the services belong to the regions of `order`. */
  function CountIn(svcs: seq<Service>, order: seq<string>): nat {
    if order == [] then 0 else |OfRegion(svcs, order[0])| + CountIn(svcs, order[1..])
  }

  lemma {:induction false} CountInStep(s: Service, svcs: seq<Service>, order: seq<string>)
    requires forall i, j | 0 <= i < j < |order| :: order[i] != order[j]
    ensures CountIn([s] + svcs, order) == CountIn(svcs, order) + if RegionOf(s) in order then 1 else 0
  {
    if order != [] {
      CountInStep(s, svcs, order[1..]);
      assert ([s] + svcs)[1..] == svcs;
      assert RegionOf(s) in order <==> RegionOf(s) == order[0] || RegionOf(s) in order[1..];
    }
  }

  lemma {:induction false} CountInAll(svcs: seq<Service>, order: seq<string>)
    requires forall i, j | 0 <= i < j < |order| :: order[i] != order[j]
    requires forall s | s in svcs :: RegionOf(s) in order
    ensures CountIn(svcs, order) == |svcs|
  {
    if svcs == [] {
      CountInNone(order);
    } else {
      assert svcs == [svcs[0]] + svcs[1..];
      CountInStep(svcs[0], svcs[1..], order);
      CountInAll(svcs[1..], order);
    }
  }

  lemma {:induction false} CountInNone(order: seq<string>)
    ensures CountIn([], order) == 0
  {
    if order != [] { CountInNone(order[1..]); }
  }

  lemma {:induction false} RecordedLength(nodes: NodeList, order: seq<string>, view: View, svcs: seq<Service>)
    requires forall s | s in svcs :: InfoOf(view, s).Some?
    requires FilesAll(nodes, view, svcs)
    requires forall r | r in order :: r in nodes
    ensures |Recorded(nodes, order)| == CountIn(svcs, order)
  {
    if order != [] {
      assert order[0] in order;
      RecordedLength(nodes, order[1..], view, svcs);
    }
  }

  /** The record holds exactly one entry per added service, however its regions are walked. */
  lemma RecordedOncePerService(nodes: NodeList, order: seq<string>, view: View, svcs: seq<Service>)
    requires forall s | s in svcs :: InfoOf(view, s).Some?
    requires FilesAll(nodes, view, svcs) && IsWalk(order, nodes.Keys)
    ensures |Recorded(nodes, order)| == |svcs|
  {
    RecordedLength(nodes, order, view, svcs);
    CountInAll(svcs, order);
  }

  /** Recording conserves the election: with regions distinct after lower-casing, each region is left with as many
      records as the election allowed it, however the maps are walked. */
  lemma RecordingConservesElection(view: View, o: V2rayUser, input: Input, users: Users, t: Ticket,
                                   svcs: seq<Service>, q: string)
    requires GoodInput(input) && forall r :: input.ok(ListServices(r)) == Fine
    requires DistinctLower(input.electOrder(o.nodeList.Keys))
    requires Elected(view, o, input) == Some(svcs)
    requires AddUser(users, view, t, svcs, input.ok).Added?
    requires q in o.nodeList
    ensures var nodes := AddUser(users, view, t, svcs, input.ok).nodes;
            if Listed(view, Lower(q)) == [] then Lower(q) !in nodes
            else
              && Lower(q) in nodes && nodes[Lower(q)].size == 0
              && |nodes[Lower(q)].info| == Min(|Listed(view, Lower(q))|, Wanted(o.nodeList[q]))
  {
    var order := input.electOrder(o.nodeList.Keys);
    var lists := r => input.ok(ListServices(r));
    assert IsWalk(order, o.nodeList.Keys);
    ElectPerRegion(view, o.nodeList, order, lists, q);
    ElectMembers(view, o.nodeList, order, lists);
    OfRegionIsInRegion(svcs, Lower(q));
    AddRecordsAll(users, view, t, svcs, input.ok);
    FiledCount(AddUser(users, view, t, svcs, input.ok).nodes, view, svcs, Lower(q));
  }

  lemma FiledCount(nodes: NodeList, view: View, svcs: seq<Service>, r: string)
    requires forall s | s in svcs :: InfoOf(view, s).Some?
    requires forall s | s in svcs :: HasRegion(s, RegionOf(s))
    requires FilesAll(nodes, view, svcs)
    ensures if InRegion(svcs, r) == [] then r !in nodes
            else r in nodes && nodes[r].size == 0 && |nodes[r].info| == |InRegion(svcs, r)|
  {
    var part := OfRegion(svcs, r);
    OfRegionIsInRegion(svcs, r);
    OfRegionEmptyIff(svcs, r);
    if part != [] {
      assert r in nodes && nodes[r] == RegionNodes(0, Infos(view, part));
    }
  }

  lemma OfRegionEmptyIff(svcs: seq<Service>, r: string)
    ensures OfRegion(svcs, r) == [] <==> forall x | x in svcs :: RegionOf(x) != r
  {
    if x :| x in svcs && RegionOf(x) == r {
      OfRegionKeeps(svcs, x);
    } else {
      NoneOfRegion(svcs, r);
    }
  }

  lemma {:induction false} SlotCount(view: View, t: Ticket, svcs: seq<Service>)
    requires forall s | s in svcs :: Dial(view, s).Some?
    ensures |Slots(view, t, svcs)| <= |svcs|
    ensures |Slots(view, t, svcs)| == |svcs| <==> DistinctServers(view, svcs)
  {
    if svcs != [] {
      var n := |svcs| - 1;
      var init := svcs[..n];
      SlotCount(view, t, init);
      SlotsExtend(view, t, svcs, n);
      assert svcs[..n + 1] == svcs;
      SlotsOne(view, t, svcs[n]);
      var slot := SlotAt(t, Dial(view, svcs[n]).value);
      assert Slots(view, t, svcs) == Slots(view, t, init) + {slot};
      LastIsDistinct(view, t, svcs);
    }
  }

  lemma LastIsDistinct(view: View, t: Ticket, svcs: seq<Service>)
    requires svcs != [] && forall s | s in svcs :: Dial(view, s).Some?
    ensures var n := |svcs| - 1;
            DistinctServers(view, svcs) <==>
              DistinctServers(view, svcs[..n]) && SlotAt(t, Dial(view, svcs[n]).value) !in Slots(view, t, svcs[..n])
  {
    var n := |svcs| - 1;
    var slot := SlotAt(t, Dial(view, svcs[n]).value);
    if DistinctServers(view, svcs) {
      SlotNotInPrefix(view, t, svcs, n);
    }
    if DistinctServers(view, svcs[..n]) && slot !in Slots(view, t, svcs[..n]) {
      forall i, j | 0 <= i < j < |svcs|
        ensures Dial(view, svcs[i]) != Dial(view, svcs[j])
      {
        if j == n {
          assert svcs[i] in svcs[..n];
        } else {
          assert svcs[..n][i] == svcs[i] && svcs[..n][j] == svcs[j];
        }
      }
    }
  }

  // --- when a pass releases the object, and what it leaves ---

  /** A pass reaches its election with the object `o` and elects `svcs`. */
  ghost predicate Elects(s: System, input: Input, o: V2rayUser, svcs: seq<Service>)
    requires GoodInput(input)
  {
    && s.stored.Some? && input.ok(GetObject) == Fine
    && Prepare(s.stored.value, input) == (o, true)
    && Elected(s.view, o, input) == Some(svcs)
  }

  lemma ElectedInView(view: View, o: V2rayUser, input: Input)
    requires GoodInput(input)
    ensures Elected(view, o, input).Some? ==> forall x | x in Elected(view, o, input).value :: x in view.services
  {
    var order := input.electOrder(o.nodeList.Keys);
    assert IsWalk(order, o.nodeList.Keys);
    ElectMembers(view, o.nodeList, order, r => input.ok(ListServices(r)));
  }

  /** A pass that makes the object disappear was a pass over a marked object whose removal loop returned no error;
      it leaves the tables as they were, less exactly the slots of the services it elected. So no service in the node
      list stored at that moment holds the user any more - and a slot of the user on any other service stays. */
  lemma ReleaseExact(s: System, input: Input)
    requires GoodInput(input) && UniqueNames(s.view)
    requires s.stored.Some? && Pass(s, input).stored.None?
    ensures var (o, goOn) := Prepare(s.stored.value, input);
            && s.stored.value.deleting
            && Elected(s.view, o, input).Some?
            && MemberFor(o.tag, o.id, o.level).Some?
            && (var svcs := Elected(s.view, o, input).value;
                var t := TicketOf(o, MemberFor(o.tag, o.id, o.level).value);
                var r := AddUser(s.users, s.view, t, svcs, input.ok);
                && Elects(s, input, o, svcs)
                && r.Added?
                && Pass(s, input).users == s.users - Slots(s.view, t, svcs)
                && (var infos := Recorded(r.nodes, input.removeOrder(r.nodes.Keys));
                    && !RemoveUser(r.users, s.view, t, infos, input.ok).failed
                    && RecordedSlots(s.view, t, infos) !! Pass(s, input).users.Keys)
                && DistinctServers(s.view, svcs)
                && input.ok(StatusFinalized) == Fine
                && Finalized(Pass(s, CutRelease(input)).stored)
                && Pass(s, CutRelease(input)).stored.value.nodeList == r.nodes)
  {
    var o, svcs, t := ReleasingPass(s, input);
    CutPass(s, input, o, svcs, t);
    var r := AddUser(s.users, s.view, t, svcs, input.ok);
    var order := input.removeOrder(r.nodes.Keys);
    var infos := Recorded(r.nodes, order);
    ElectedInView(s.view, o, input);
    AddSucceedsExact(s.users, s.view, t, svcs, input.ok);
    AddRecordsAll(s.users, s.view, t, svcs, input.ok);
    RemoveSucceedsExact(r.users, s.view, t, infos, input.ok);
    assert IsWalk(order, r.nodes.Keys);
    RecordedSlotsAreElected(r.nodes, order, s.view, t, svcs);
    RecordedOncePerService(r.nodes, order, s.view, svcs);
    SlotCount(s.view, t, svcs);
    EnrolThenDropAll(s.users, Slots(s.view, t, svcs), t.member);
  }

  lemma EnrolThenDropAll(users: Users, slots: set<Slot>, member: Member)
    ensures Enrol(users, slots, member) - slots == users - slots
  {
  }

  /** The path a releasing pass takes. */
  lemma ReleasingPass(s: System, input: Input) returns (o: V2rayUser, svcs: seq<Service>, t: Ticket)
    requires GoodInput(input)
    requires s.stored.Some? && Pass(s, input).stored.None?
    ensures && s.stored.value.deleting && o == Prepare(s.stored.value, input).0
            && Elects(s, input, o, svcs) && svcs != []
            && MemberFor(o.tag, o.id, o.level) == Some(t.member) && t == TicketOf(o, t.member)
            && (var r := AddUser(s.users, s.view, t, svcs, input.ok);
                && r.Added?
                && (var infos := Recorded(r.nodes, input.removeOrder(r.nodes.Keys));
                    var removed := RemoveUser(r.users, s.view, t, infos, input.ok);
                    !removed.failed && Pass(s, input).users == removed.users))
            && input.ok(StatusFinalized) == Fine
  {
    o := Prepare(s.stored.value, input).0;
    svcs := Elected(s.view, o, input).value;
    t := TicketOf(o, MemberFor(o.tag, o.id, o.level).value);
  }

  /** The services in the node list stored when a pass makes the object disappear can all be reached, and none of them
      holds the user after it. */
  lemma RecordedAreReleased(s: System, input: Input)
    requires GoodInput(input) && UniqueNames(s.view)
    requires s.stored.Some? && Pass(s, input).stored.None?
    ensures Pass(s, CutRelease(input)).stored.Some?
    ensures NoneHolds(Pass(s, input).users, s.view, Pass(s, CutRelease(input)).stored.value.nodeList,
                      s.stored.value.tag, s.stored.value.email)
  {
    var o, svcs, t := ReleasingPass(s, input);
    CutPass(s, input, o, svcs, t);
    PrepareKeeps(s.stored.value, input);
    var r := AddUser(s.users, s.view, t, svcs, input.ok);
    var order := input.removeOrder(r.nodes.Keys);
    assert IsWalk(order, r.nodes.Keys);
    RemoveSucceedsExact(r.users, s.view, t, Recorded(r.nodes, order), input.ok);
    RecordedHoldNothing(Pass(s, input).users, s.view, t, r.nodes, order);
  }

  /** Every service the node list names can be reached and does not hold the user. */
  ghost predicate NoneHolds(users: Users, view: View, nodes: NodeList, tag: string, email: string) {
    forall r, x | r in nodes && x in nodes[r].info ::
      var svc := ServiceNamed(view.services, x.svcName);
      svc.Some? && Dial(view, svc.value).Some? && Slot(Dial(view, svc.value).value, tag, email) !in users
  }

  lemma RecordedHoldNothing(users: Users, view: View, t: Ticket, nodes: NodeList, order: seq<string>)
    requires IsWalk(order, nodes.Keys)
    requires RecordedSlots(view, t, Recorded(nodes, order)) !! users.Keys
    requires forall x | x in Recorded(nodes, order) ::
               && ServiceNamed(view.services, x.svcName).Some?
               && Dial(view, ServiceNamed(view.services, x.svcName).value).Some?
    ensures NoneHolds(users, view, nodes, t.tag, t.email)
  {
    RecordedMembers(nodes, order);
    forall r, x | r in nodes && x in nodes[r].info
      ensures x in Recorded(nodes, order)
    {
      assert r in order;
    }
  }

  /** Release safety over whole runs: whatever failed before, if step `i` of a run is a pass that makes the object
      disappear, no service in the node list stored at that moment holds the user after it, and none of those the pass
      elected. */
  lemma ReleaseSafety(s: System, steps: seq<Step>, i: nat, key: Key)
    requires forall j | 0 <= j < |steps| :: GoodStep(steps[j])
    requires i < |steps| && steps[i].Reconcile?
    requires var mid := Run(s, steps[..i]);
             UniqueNames(mid.view) && mid.stored.Some? && Key(mid.stored.value.tag, mid.stored.value.email) == key
    requires Run(s, steps[..i + 1]).stored.None?
    ensures var mid := Run(s, steps[..i]);
            var before, end := Pass(mid, CutRelease(steps[i].input)), Run(s, steps[..i + 1]);
            var (o, goOn) := Prepare(mid.stored.value, steps[i].input);
            && o.deleting
            && before.stored.Some?
            && NoneHolds(end.users, mid.view, before.stored.value.nodeList, key.tag, key.email)
            && Elected(mid.view, o, steps[i].input).Some?
            && forall svc | svc in Elected(mid.view, o, steps[i].input).value ::
                 Dial(mid.view, svc).Some? && Slot(Dial(mid.view, svc).value, key.tag, key.email) !in end.users
  {
    var mid := Run(s, steps[..i]);
    assert steps[..i + 1][..i] == steps[..i];
    RecordedAreReleased(mid, steps[i].input);
    ElectedAreReleased(mid, steps[i].input);
    PrepareKeeps(mid.stored.value, steps[i].input);
  }

  lemma ElectedAreReleased(s: System, input: Input)
    requires GoodInput(input) && UniqueNames(s.view)
    requires s.stored.Some? && Pass(s, input).stored.None?
    ensures var (o, goOn) := Prepare(s.stored.value, input);
            && s.stored.value.deleting
            && Elected(s.view, o, input).Some?
            && forall svc | svc in Elected(s.view, o, input).value ::
                 Dial(s.view, svc).Some? && Slot(Dial(s.view, svc).value, o.tag, o.email) !in Pass(s, input).users
  {
    ReleaseExact(s, input);
    var o := Prepare(s.stored.value, input).0;
    var svcs := Elected(s.view, o, input).value;
    var t := TicketOf(o, MemberFor(o.tag, o.id, o.level).value);
    AddSucceedsExact(s.users, s.view, t, svcs, input.ok);
    forall svc | svc in svcs
      ensures SlotAt(t, Dial(s.view, svc).value) in Slots(s.view, t, svcs)
    {
    }
  }

  lemma PassServes(s: System, input: Input, o: V2rayUser, svcs: seq<Service>)
    requires GoodInput(input) && Elects(s, input, o, svcs) && svcs != []
    ensures Pass(s, input) == Serve(s, o, svcs, input) && (PassFails(s, input) <==> ServeFails(s, o, svcs, input))
  {
  }

  /** A pass whose add fails. */
  lemma FailedPass(s: System, input: Input, o: V2rayUser, svcs: seq<Service>, member: Member)
    requires GoodInput(input) && Elects(s, input, o, svcs) && svcs != []
    requires MemberFor(o.tag, o.id, o.level) == Some(member)
    requires AddUser(s.users, s.view, TicketOf(o, member), svcs, input.ok).AddFailed?
    ensures Pass(s, input) == System(s.view, AddUser(s.users, s.view, TicketOf(o, member), svcs, input.ok).users,
                                     Some(Report(o, input.ok(StatusAddFailed), Available, IsFalse)))
  {
    PassServes(s, input, o, svcs);
  }

  /** Deletion leaves no entry of the user anywhere exactly when every place that held it belongs to a service the
      releasing pass elected. */
  lemma DeletionIsCleanIff(s: System, input: Input, o: V2rayUser, svcs: seq<Service>, member: Member)
    requires GoodInput(input) && UniqueNames(s.view)
    requires s.stored.Some? && Pass(s, input).stored.None?
    requires Elects(s, input, o, svcs) && MemberFor(o.tag, o.id, o.level) == Some(member)
    ensures (forall slot | slot in Pass(s, input).users :: !Own(Key(o.tag, o.email), slot))
       <==> (forall slot | slot in s.users && Own(Key(o.tag, o.email), slot) ::
               slot in Slots(s.view, TicketOf(o, member), svcs))
  {
    ReleaseExact(s, input);
  }

  /** One error-free pass over a marked object completes its deletion exactly when the election finds a service, the
      inbound tag is supported, and the elected services can be reached and located, no two at the same address. */
  lemma DeletionCompletesIff(s: System, input: Input, o: V2rayUser, svcs: seq<Service>)
    requires ErrorFree(input) && UniqueNames(s.view)
    requires Elects(s, input, o, svcs) && o.deleting && o.finalizer
    ensures Pass(s, input).stored.None?
       <==> (&& svcs != []
             && AccountFor(o.tag, o.id).Some?
             && (forall x | x in svcs :: Dial(s.view, x).Some? && InfoOf(s.view, x).Some?)
             && DistinctServers(s.view, svcs))
  {
    if Pass(s, input).stored.None? {
      ReleaseExact(s, input);
      var t := TicketOf(o, MemberFor(o.tag, o.id, o.level).value);
      AddSucceedsExact(s.users, s.view, t, svcs, input.ok);
    } else if && svcs != []
              && AccountFor(o.tag, o.id).Some?
              && (forall x | x in svcs :: Dial(s.view, x).Some? && InfoOf(s.view, x).Some?) {
      var t := TicketOf(o, MemberFor(o.tag, o.id, o.level).value);
      var r := AddUser(s.users, s.view, t, svcs, input.ok);
      AddWithoutFaults(s.users, s.view, t, svcs, input.ok);
      AddSucceedsExact(s.users, s.view, t, svcs, input.ok);
      AddRecordsAll(s.users, s.view, t, svcs, input.ok);
      ElectedInView(s.view, o, input);
      RemovalOfElected(r.users, r.nodes, input.removeOrder(r.nodes.Keys), s.view, t, svcs, input.ok);
    }
  }

  /** Without faults the recorded services can all be removed again exactly when no two share a server. */
  lemma RemovalOfElected(users: Users, nodes: NodeList, order: seq<string>, view: View, t: Ticket, svcs: seq<Service>,
                         ok: Oracle)
    requires forall c :: ok(c) == Fine
    requires UniqueNames(view) && IsWalk(order, nodes.Keys)
    requires forall s | s in svcs :: s in view.services && Dial(view, s).Some? && InfoOf(view, s).Some?
    requires FilesAll(nodes, view, svcs) && Slots(view, t, svcs) <= users.Keys
    ensures !RemoveUser(users, view, t, Recorded(nodes, order), ok).failed <==> DistinctServers(view, svcs)
  {
    RecordedSlotsAreElected(nodes, order, view, t, svcs);
    RecordedOncePerService(nodes, order, view, svcs);
    SlotCount(view, t, svcs);
    RecordedResolve(nodes, order, view, svcs);
    RemoveSucceedsIff(users, view, t, Recorded(nodes, order), ok);
  }

  lemma RecordedResolve(nodes: NodeList, order: seq<string>, view: View, svcs: seq<Service>)
    requires UniqueNames(view)
    requires forall s | s in svcs :: s in view.services && Dial(view, s).Some? && InfoOf(view, s).Some?
    requires FilesAll(nodes, view, svcs) && IsWalk(order, nodes.Keys)
    ensures forall x | x in Recorded(nodes, order) ::
              ServiceNamed(view.services, x.svcName).Some?
              && Dial(view, ServiceNamed(view.services, x.svcName).value).Some?
  {
    forall x | x in Recorded(nodes, order)
      ensures ServiceNamed(view.services, x.svcName).Some?
              && Dial(view, ServiceNamed(view.services, x.svcName).value).Some?
    {
      var s := RecordNames(nodes, order, view, svcs, x);
    }
  }

  /** The user is added before the finalizer is stored: when that write fails, a deletion request removes the object
      at once, and every service the pass elected goes on holding the user. */
  lemma LeakBeforeFinalizer(s: System, input: Input, o: V2rayUser, svcs: seq<Service>, member: Member)
    requires GoodInput(input) && Elects(s, input, o, svcs) && svcs != []
    requires !o.finalizer && !o.deleting && MemberFor(o.tag, o.id, o.level) == Some(member)
    requires AddUser(s.users, s.view, TicketOf(o, member), svcs, input.ok).Added?
    requires input.ok(UpdateFinalizer) != Fine
    ensures var end := Take(Take(s, Reconcile(input)), MarkDeleted);
            end.stored.None? && Slots(s.view, TicketOf(o, member), svcs) <= end.users.Keys
  {
    AddSucceedsExact(s.users, s.view, TicketOf(o, member), svcs, input.ok);
  }

  /** Whose account a successful add leaves: every service of the list holds the user, and all of them with the object's
      own level and account exactly when those that held it before did so with them - an entry that is there already
      stays as it is, and the add counts as success. */
  lemma OwnAccountsIff(s: System, input: Input, o: V2rayUser, svcs: seq<Service>, member: Member)
    requires GoodInput(input) && Elects(s, input, o, svcs) && svcs != [] && !o.deleting
    requires MemberFor(o.tag, o.id, o.level) == Some(member)
    requires AddUser(s.users, s.view, TicketOf(o, member), svcs, input.ok).Added?
    ensures var slots, end := Slots(s.view, TicketOf(o, member), svcs), Pass(s, input).users;
            && slots <= end.Keys
            && ((forall slot | slot in slots :: end[slot] == member) <==>
                forall slot | slot in slots && slot in s.users :: s.users[slot] == member)
  {
    PassServes(s, input, o, svcs);
    AddSucceedsExact(s.users, s.view, TicketOf(o, member), svcs, input.ok);
  }

  /** The object is gone and an entry of its user is still there. */
  ghost predicate Leaks(s: System, key: Key) {
    s.stored.None? && exists slot :: slot in s.users && Own(key, slot)
  }

  /** Before the finalizer is stored a deletion request removes the object at once. A pass over a live object without
      it leaves something behind for such a request exactly in these cases: the add succeeded and the finalizer was not
      written; or the add failed, and some place of the user - one it had before, or one the add reached - is not among
      those the rollback took away. */
  lemma LeakIff(s: System, input: Input, o: V2rayUser, svcs: seq<Service>, member: Member)
    requires GoodInput(input) && Elects(s, input, o, svcs) && svcs != []
    requires !o.finalizer && !o.deleting && MemberFor(o.tag, o.id, o.level) == Some(member)
    ensures var t, key := TicketOf(o, member), Key(o.tag, o.email);
            var k := Completed(s.users, s.view, t, svcs, input.ok);
            var end := Take(Take(s, Reconcile(input)), MarkDeleted);
            && k <= |svcs|
            && (Leaks(end, key) <==>
                 if k == |svcs| && input.ok(UpdateNodeList) == Fine then input.ok(UpdateFinalizer) != Fine
                 else exists slot :: slot in s.users.Keys + Slots(s.view, t, Reached(s.view, svcs, input.ok, k))
                                     && Own(key, slot) && slot !in Undone(s.view, t, svcs[..k], input.ok, 0))
  {
    var t := TicketOf(o, member);
    CompletedIsFirstObstacle(s.users, s.view, t, svcs, input.ok);
    MarkedAfterPass(s, input, o, svcs, member);
    if AddUser(s.users, s.view, t, svcs, input.ok).Added? {
      AddSucceedsExact(s.users, s.view, t, svcs, input.ok);
      FirstSlotIsOwn(s.view, t, svcs);
    } else {
      AddRollbackExact(s.users, s.view, t, svcs, input.ok);
    }
  }

  /** A deletion request right after a pass over a live object without its finalizer. */
  lemma MarkedAfterPass(s: System, input: Input, o: V2rayUser, svcs: seq<Service>, member: Member)
    requires GoodInput(input) && Elects(s, input, o, svcs) && svcs != []
    requires !o.finalizer && !o.deleting && MemberFor(o.tag, o.id, o.level) == Some(member)
    ensures var r := AddUser(s.users, s.view, TicketOf(o, member), svcs, input.ok);
            var end := Take(Take(s, Reconcile(input)), MarkDeleted);
            && (end.stored.None? <==> r.AddFailed? || input.ok(UpdateFinalizer) != Fine)
            && end.users == r.users && end.view == s.view
  {
  }

  lemma FailedPassLeaks(s: System, input: Input, o: V2rayUser, svcs: seq<Service>, member: Member, slot: Slot)
    requires GoodInput(input) && Elects(s, input, o, svcs) && svcs != []
    requires !o.finalizer && !o.deleting && MemberFor(o.tag, o.id, o.level) == Some(member)
    requires AddUser(s.users, s.view, TicketOf(o, member), svcs, input.ok) == AddFailed(map[slot := member])
    requires Own(Key(o.tag, o.email), slot)
    ensures Pass(s, input).users == map[slot := member]
    ensures Take(Take(s, Reconcile(input)), MarkDeleted) == System(s.view, map[slot := member], None)
    ensures Leaks(Take(Take(s, Reconcile(input)), MarkDeleted), Key(o.tag, o.email))
  {
    FailedPass(s, input, o, svcs, member);
    MarkedAfterPass(s, input, o, svcs, member);
  }

  lemma FirstSlotIsOwn(view: View, t: Ticket, svcs: seq<Service>)
    requires svcs != [] && Dial(view, svcs[0]).Some?
    ensures exists slot :: slot in Slots(view, t, svcs) && Own(Key(t.tag, t.email), slot)
  {
    var slot := SlotAt(t, Dial(view, svcs[0]).value);
    assert svcs[0] in svcs && slot in Slots(view, t, svcs);
  }

  /** For a new user on distinct servers: a deletion request leaves it behind exactly when the finalizer could not be
      written, or the add failed after the RPC of the service it stopped at, or a rollback RPC failed. */
  lemma FreshLeakIff(s: System, input: Input, o: V2rayUser, svcs: seq<Service>, member: Member)
    requires GoodInput(input) && Elects(s, input, o, svcs) && svcs != []
    requires !o.finalizer && !o.deleting && MemberFor(o.tag, o.id, o.level) == Some(member)
    requires forall slot | slot in s.users :: !Own(Key(o.tag, o.email), slot)
    requires DistinctServers(s.view, svcs)
    ensures var k := Completed(s.users, s.view, TicketOf(o, member), svcs, input.ok);
            var end := Take(Take(s, Reconcile(input)), MarkDeleted);
            Leaks(end, Key(o.tag, o.email)) <==>
              if k == |svcs| && input.ok(UpdateNodeList) == Fine then input.ok(UpdateFinalizer) != Fine
              else RpcDone(s.view, svcs, input.ok, k) || !UndoAddWorks(input.ok, k)
  {
    var t := TicketOf(o, member);
    var k := Completed(s.users, s.view, t, svcs, input.ok);
    LeakIff(s, input, o, svcs, member);
    CompletedIsFirstObstacle(s.users, s.view, t, svcs, input.ok);
    ReachedButNotUndone(s.view, t, svcs, input.ok, k);
    SlotsAreOwn(s.view, t, Reached(s.view, svcs, input.ok, k));
  }

  /** On distinct servers the rollback leaves something of what the add reached exactly when the add stopped after an
      RPC, or a rollback RPC fails. */
  lemma ReachedButNotUndone(view: View, t: Ticket, svcs: seq<Service>, ok: Oracle, k: nat)
    requires k <= |svcs| && DistinctServers(view, svcs)
    requires forall j | 0 <= j < k :: Works(view, svcs[j], ok, j)
    ensures (exists slot :: slot in Slots(view, t, Reached(view, svcs, ok, k))
                            && slot !in Undone(view, t, svcs[..k], ok, 0))
       <==> RpcDone(view, svcs, ok, k) || !UndoAddWorks(ok, k)
  {
    var reached, gone := Slots(view, t, Reached(view, svcs, ok, k)), Undone(view, t, svcs[..k], ok, 0);
    UndoneSlots(view, t, svcs[..k], ok);
    if RpcDone(view, svcs, ok, k) {
      SlotNotInPrefix(view, t, svcs, k);
      SlotsExtend(view, t, svcs, k);
      SlotsOne(view, t, svcs[k]);
      assert SlotAt(t, Dial(view, svcs[k]).value) in reached;
    }
    if !UndoAddWorks(ok, k) {
      var j: nat :| j < k && ok(UndoAddRpc(j)) != Fine;
      assert Works(view, svcs[j], ok, j);
      NotUndone(view, t, svcs, ok, k, j);
      assert svcs[..k][j] in svcs[..k];
      if RpcDone(view, svcs, ok, k) {
        SlotsExtend(view, t, svcs, k);
      }
      assert SlotAt(t, Dial(view, svcs[j]).value) in reached;
    }
  }

  lemma NotUndone(view: View, t: Ticket, svcs: seq<Service>, ok: Oracle, k: nat, j: nat)
    requires j < k <= |svcs| && DistinctServers(view, svcs)
    requires Dial(view, svcs[j]).Some? && ok(UndoAddRpc(j)) != Fine
    ensures SlotAt(t, Dial(view, svcs[j]).value) !in Undone(view, t, svcs[..k], ok, 0)
  {
  }

  // --- what is stored before the object disappears ---

  /** The same pass with its last write cut off. */
  function CutRelease(input: Input): Input {
    input.(ok := c => if c == UpdateRelease then Broken else input.ok(c))
  }

  ghost predicate SameButRelease(a: Oracle, b: Oracle) {
    forall c | c != UpdateRelease :: a(c) == b(c)
  }

  lemma {:induction false} SameElection(view: View, nodeList: NodeList, order: seq<string>,
                                        a: string -> Answer, b: string -> Answer)
    requires forall r | r in order :: r in nodeList
    requires forall r :: a(r) == b(r)
    ensures Elect(view, nodeList, order, a) == Elect(view, nodeList, order, b)
  {
    if order != [] {
      SameElection(view, nodeList, order[1..], a, b);
    }
  }

  /** An add that succeeds ends the same. */
  lemma SameAdd(users: Users, view: View, t: Ticket, svcs: seq<Service>, a: Oracle, b: Oracle)
    requires SameButRelease(a, b) && AddUser(users, view, t, svcs, a).Added?
    ensures AddUser(users, view, t, svcs, a) == AddUser(users, view, t, svcs, b)
  {
    AddSucceedsIff(users, view, t, svcs, a);
    forall j | 0 <= j < |svcs|
      ensures Works(view, svcs[j], b, j)
    {
      assert Works(view, svcs[j], a, j);
      assert a(AddRpc(j)) == b(AddRpc(j)) && (LookupsAnswer(a, j) <==> LookupsAnswer(b, j));
    }
    AddSucceedsIff(users, view, t, svcs, b);
    AddSucceedsExact(users, view, t, svcs, a);
    AddSucceedsExact(users, view, t, svcs, b);
    RecordsAgree(users, users, view, t, t, svcs, a, b);
  }

  /** A removal that succeeds ends the same. */
  lemma SameRemoval(users: Users, view: View, t: Ticket, infos: seq<NodeInfo>, a: Oracle, b: Oracle)
    requires SameButRelease(a, b) && !RemoveUser(users, view, t, infos, a).failed
    ensures !RemoveUser(users, view, t, infos, b).failed
    ensures RemoveUser(users, view, t, infos, a).users == RemoveUser(users, view, t, infos, b).users
  {
    RemoveSucceedsIff(users, view, t, infos, a);
    forall j | 0 <= j < |infos|
      ensures RemoveAnswers(b, j)
    {
      assert RemoveAnswers(a, j) && a(GetService(j)) == b(GetService(j)) && a(RemoveRpc(j)) == b(RemoveRpc(j));
    }
    RemoveSucceedsIff(users, view, t, infos, b);
    RemoveSucceedsExact(users, view, t, infos, a);
    RemoveSucceedsExact(users, view, t, infos, b);
  }

  /** A marked object with its finalizer, whose deletion has been reported complete. */
  predicate Finalized(stored: Option<V2rayUser>) {
    && stored.Some? && stored.value.deleting && stored.value.finalizer
    && Degraded in stored.value.conditions && stored.value.conditions[Degraded] == IsTrue
  }

  lemma CutInRelease(s: System, o: V2rayUser, t: Ticket, input: Input)
    requires GoodInput(input) && o.deleting && o.finalizer && Release(s, o, t, input).stored.None?
    ensures var before := Release(s, o, t, CutRelease(input));
            && before.users == Release(s, o, t, input).users && Finalized(before.stored)
            && before.stored.value.nodeList == o.nodeList
  {
    var cut := CutRelease(input);
    var infos := Recorded(o.nodeList, input.removeOrder(o.nodeList.Keys));
    assert SameButRelease(input.ok, cut.ok);
    ReleaseGone(s, o, t, input);
    SameRemoval(s.users, s.view, t, infos, input.ok, cut.ok);
    ReleaseHeld(s, o, t, cut);
  }

  /** What a release that makes the object disappear has passed. */
  lemma ReleaseGone(s: System, o: V2rayUser, t: Ticket, input: Input)
    requires GoodInput(input) && Release(s, o, t, input).stored.None?
    ensures var removed :=
              RemoveUser(s.users, s.view, t, Recorded(o.nodeList, input.removeOrder(o.nodeList.Keys)), input.ok);
            !removed.failed && Release(s, o, t, input).users == removed.users
    ensures input.ok(StatusFinalizing) == input.ok(GetAfterRemove) == input.ok(StatusFinalized) == Fine
  {
  }

  /** A release that fails at its last write. */
  lemma ReleaseHeld(s: System, o: V2rayUser, t: Ticket, input: Input)
    requires GoodInput(input) && o.deleting && o.finalizer
    requires input.ok(StatusFinalizing) == input.ok(GetAfterRemove) == input.ok(StatusFinalized) == Fine
    requires input.ok(UpdateRelease) != Fine
    requires !RemoveUser(s.users, s.view, t, Recorded(o.nodeList, input.removeOrder(o.nodeList.Keys)), input.ok).failed
    ensures var removed :=
              RemoveUser(s.users, s.view, t, Recorded(o.nodeList, input.removeOrder(o.nodeList.Keys)), input.ok);
            && Release(s, o, t, input).users == removed.users && Finalized(Release(s, o, t, input).stored)
            && Release(s, o, t, input).stored.value.nodeList == o.nodeList
  {
  }

  lemma ServeReleases(s: System, o: V2rayUser, svcs: seq<Service>, member: Member, input: Input)
    requires GoodInput(input) && MemberFor(o.tag, o.id, o.level) == Some(member)
    ensures var t := TicketOf(o, member);
            var r := AddUser(s.users, s.view, t, svcs, input.ok);
            if r.Added? && (o.finalizer || input.ok(UpdateFinalizer) == Fine) && o.deleting
            then Serve(s, o, svcs, input) ==
                 Release(s.(users := r.users), o.(nodeList := r.nodes, finalizer := true), t, input)
            else Serve(s, o, svcs, input).stored.Some?
  {
  }

  lemma CutInServe(s: System, o: V2rayUser, svcs: seq<Service>, input: Input)
    requires GoodInput(input) && Serve(s, o, svcs, input).stored.None?
    ensures MemberFor(o.tag, o.id, o.level).Some?
    ensures var before := Serve(s, o, svcs, CutRelease(input));
            var r := AddUser(s.users, s.view, TicketOf(o, MemberFor(o.tag, o.id, o.level).value), svcs, input.ok);
            && before.users == Serve(s, o, svcs, input).users && Finalized(before.stored)
            && r.Added? && before.stored.value.nodeList == r.nodes
  {
    var cut := CutRelease(input);
    var t := TicketOf(o, MemberFor(o.tag, o.id, o.level).value);
    assert SameButRelease(input.ok, cut.ok);
    ServeReleases(s, o, svcs, t.member, input);
    ServeReleases(s, o, svcs, t.member, cut);
    SameAdd(s.users, s.view, t, svcs, input.ok, cut.ok);
    var r := AddUser(s.users, s.view, t, svcs, input.ok);
    CutInRelease(s.(users := r.users), o.(nodeList := r.nodes, finalizer := true), t, input);
  }

  lemma CutPass(s: System, input: Input, o: V2rayUser, svcs: seq<Service>, t: Ticket)
    requires GoodInput(input) && Elects(s, input, o, svcs) && svcs != [] && Pass(s, input).stored.None?
    requires MemberFor(o.tag, o.id, o.level) == Some(t.member) && t == TicketOf(o, t.member)
    ensures var before := Pass(s, CutRelease(input));
            var r := AddUser(s.users, s.view, t, svcs, input.ok);
            && before.users == Pass(s, input).users && Finalized(before.stored)
            && r.Added? && before.stored.value.nodeList == r.nodes
  {
    CutElects(s, input, o, svcs);
    PassServes(s, input, o, svcs);
    PassServes(s, CutRelease(input), o, svcs);
    CutInServe(s, o, svcs, input);
  }

  /** Deletion is ordered: had the last write of a pass that makes the object disappear failed, the object would be
      there, marked, with its finalizer and Degraded True - and the tables as they are now. */
  lemma ReleaseIsOrdered(s: System, input: Input)
    requires GoodInput(input)
    requires s.stored.Some? && Pass(s, input).stored.None?
    ensures var before := Pass(s, CutRelease(input));
            before.users == Pass(s, input).users && Finalized(before.stored)
  {
    var o, svcs, t := ReleasingPass(s, input);
    CutPass(s, input, o, svcs, t);
  }

  lemma CutElects(s: System, input: Input, o: V2rayUser, svcs: seq<Service>)
    requires GoodInput(input) && Elects(s, input, o, svcs)
    ensures Elects(s, CutRelease(input), o, svcs)
  {
    var cut := CutRelease(input);
    var order := input.electOrder(o.nodeList.Keys);
    assert IsWalk(order, o.nodeList.Keys);
    SameElection(s.view, o.nodeList, order, r => input.ok(ListServices(r)), r => cut.ok(ListServices(r)));
    assert Prepare(s.stored.value, cut) == Prepare(s.stored.value, input);
  }

  // --- what a pass without an error tells ---

  /** A pass that reads the object and returns no error has told what happened: a live object reports Available True if
      a service was elected and the add succeeded, and False otherwise; a marked object is gone, or reports Available
      False because its services could not all be added again. */
  lemma QuietPassTells(s: System, input: Input)
    requires GoodInput(input) && s.stored.Some? && input.ok(GetObject) == Fine && !PassFails(s, input)
    ensures var (o, goOn) := Prepare(s.stored.value, input);
            var elected := Elected(s.view, o, input);
            var end := Pass(s, input).stored;
            var member := MemberFor(o.tag, o.id, o.level);
            && goOn && elected.Some?
            && (var added := elected.value != [] && member.Some?
                             && AddUser(s.users, s.view, TicketOf(o, member.value), elected.value, input.ok).Added?;
                && (end.None? <==> s.stored.value.deleting && added)
                && (end.Some? ==> Available in end.value.conditions
                                  && end.value.conditions[Available] == if added then IsTrue else IsFalse))
  {
    PrepareKeeps(s.stored.value, input);
  }

  // --- what is written, and when ---

  predicate DegradedIs(stored: Option<V2rayUser>, status: Status) {
    stored.Some? && Degraded in stored.value.conditions && stored.value.conditions[Degraded] == status
  }

  /** Degraded True means released: a pass that finds the object without Degraded True and leaves it stored with
      Degraded True has taken the user off every service of the stored node list. */
  lemma DegradedMeansReleased(s: System, input: Input)
    requires GoodInput(input) && UniqueNames(s.view) && s.stored.Some? && !DegradedIs(s.stored, IsTrue)
    ensures var end := Pass(s, input);
            DegradedIs(end.stored, IsTrue) ==>
              NoneHolds(end.users, s.view, end.stored.value.nodeList, end.stored.value.tag, end.stored.value.email)
  {
    var end := Pass(s, input);
    if DegradedIs(end.stored, IsTrue) {
      var o := Prepare(s.stored.value, input).0;
      PrepareKeepsDegraded(s.stored.value, input);
      var svcs := DegradedElects(s, input, o);
      PassServes(s, input, o, svcs);
      var t := DegradedServes(s, o, svcs, input);
      var r := AddUser(s.users, s.view, t, svcs, input.ok);
      var order := input.removeOrder(r.nodes.Keys);
      assert IsWalk(order, r.nodes.Keys);
      RemoveSucceedsExact(r.users, s.view, t, Recorded(r.nodes, order), input.ok);
      RecordedHoldNothing(end.users, s.view, t, r.nodes, order);
    }
  }

  lemma DegradedElects(s: System, input: Input, o: V2rayUser) returns (svcs: seq<Service>)
    requires GoodInput(input) && s.stored.Some? && !DegradedIs(s.stored, IsTrue)
    requires o == Prepare(s.stored.value, input).0 && !DegradedIs(Some(o), IsTrue)
    requires DegradedIs(Pass(s, input).stored, IsTrue)
    ensures Elects(s, input, o, svcs) && svcs != []
  {
    svcs := Elected(s.view, o, input).value;
  }

  lemma DegradedServes(s: System, o: V2rayUser, svcs: seq<Service>, input: Input) returns (t: Ticket)
    requires GoodInput(input) && !DegradedIs(Some(o), IsTrue) && DegradedIs(Serve(s, o, svcs, input).stored, IsTrue)
    ensures MemberFor(o.tag, o.id, o.level) == Some(t.member) && t == TicketOf(o, t.member)
    ensures var r := AddUser(s.users, s.view, t, svcs, input.ok);
            var end := Serve(s, o, svcs, input);
            && r.Added?
            && (var removed :=
                RemoveUser(r.users, s.view, t, Recorded(r.nodes, input.removeOrder(r.nodes.Keys)), input.ok);
                !removed.failed && end.users == removed.users)
            && end.stored.value.nodeList == r.nodes && end.stored.value.tag == t.tag
            && end.stored.value.email == t.email
  {
    var member := MemberFor(o.tag, o.id, o.level).value;
    t := TicketOf(o, member);
    ServeReleases(s, o, svcs, member, input);
    ServeLive(s, o, svcs, member, input);
    var r := AddUser(s.users, s.view, t, svcs, input.ok);
    ReleaseDegraded(s.(users := r.users), o.(nodeList := r.nodes, finalizer := true), t, input);
  }

  lemma ReleaseDegraded(s: System, o: V2rayUser, t: Ticket, input: Input)
    requires GoodInput(input) && !DegradedIs(Some(o), IsTrue) && DegradedIs(Release(s, o, t, input).stored, IsTrue)
    ensures var removed :=
              RemoveUser(s.users, s.view, t, Recorded(o.nodeList, input.removeOrder(o.nodeList.Keys)), input.ok);
            var end := Release(s, o, t, input);
            && !removed.failed && end.users == removed.users
            && end.stored.value.nodeList == o.nodeList && end.stored.value.tag == o.tag
            && end.stored.value.email == o.email
  {
  }

  /** What is stored when the pass does not come to the deletion. */
  lemma ServeLive(s: System, o: V2rayUser, svcs: seq<Service>, member: Member, input: Input)
    requires GoodInput(input) && MemberFor(o.tag, o.id, o.level) == Some(member)
    ensures var r := AddUser(s.users, s.view, TicketOf(o, member), svcs, input.ok);
            var end := Serve(s, o, svcs, input).stored;
            !(r.Added? && (o.finalizer || input.ok(UpdateFinalizer) == Fine) && o.deleting) ==>
              && end.Some?
              && (DegradedIs(end, IsTrue) <==> DegradedIs(Some(o), IsTrue))
              && (r.Added? ==>
                    && end.value.nodeList == r.nodes
                    && (end.value.finalizer <==> o.finalizer || input.ok(UpdateFinalizer) == Fine))
  {
  }

  lemma ReleaseKeeps(s: System, o: V2rayUser, t: Ticket, input: Input)
    requires GoodInput(input)
    ensures Release(s, o, t, input).stored.Some? ==>
              var end := Release(s, o, t, input).stored.value;
              end.nodeList == o.nodeList && end.finalizer == o.finalizer
  {
  }

  lemma PrepareKeepsDegraded(o: V2rayUser, input: Input)
    ensures var after := Prepare(o, input).0;
            && (Degraded in after.conditions <==> Degraded in o.conditions)
            && (Degraded in o.conditions ==> after.conditions[Degraded] == o.conditions[Degraded])
  {
  }

  /** A removal that fails is rolled back, returned as an error, and reported as Degraded Unknown; the object stays,
      with its finalizer and the node list the add recorded. */
  lemma FailedRemovalReported(s: System, input: Input, o: V2rayUser, svcs: seq<Service>, member: Member)
    requires GoodInput(input) && Elects(s, input, o, svcs) && svcs != [] && o.deleting
    requires MemberFor(o.tag, o.id, o.level) == Some(member)
    requires AddUser(s.users, s.view, TicketOf(o, member), svcs, input.ok).Added?
    requires o.finalizer || input.ok(UpdateFinalizer) == Fine
    requires input.ok(StatusFinalizing) == Fine
    requires var r := AddUser(s.users, s.view, TicketOf(o, member), svcs, input.ok);
             RemoveUser(r.users, s.view, TicketOf(o, member), Recorded(r.nodes, input.removeOrder(r.nodes.Keys)),
                        input.ok).failed
    ensures var r := AddUser(s.users, s.view, TicketOf(o, member), svcs, input.ok);
            var end := Pass(s, input);
            && PassFails(s, input)
            && end.users == RemoveUser(r.users, s.view, TicketOf(o, member),
                                       Recorded(r.nodes, input.removeOrder(r.nodes.Keys)), input.ok).users
            && end.stored.Some? && end.stored.value.deleting && end.stored.value.finalizer
            && end.stored.value.nodeList == r.nodes
            && Degraded in end.stored.value.conditions && end.stored.value.conditions[Degraded] == Unknown
  {
    PassServes(s, input, o, svcs);
    ServeReleases(s, o, svcs, member, input);
  }

  /** The deletion half is ordered: nothing is removed before Degraded Unknown is stored, and Degraded becomes True only
      after the removal succeeded and the object was read again; whatever fails on the way is returned. */
  lemma DegradedIsOrdered(s: System, input: Input, o: V2rayUser, svcs: seq<Service>, member: Member)
    requires GoodInput(input) && Elects(s, input, o, svcs) && svcs != [] && o.deleting && o.finalizer
    requires MemberFor(o.tag, o.id, o.level) == Some(member)
    requires AddUser(s.users, s.view, TicketOf(o, member), svcs, input.ok).Added?
    ensures var r := AddUser(s.users, s.view, TicketOf(o, member), svcs, input.ok);
            var removed := RemoveUser(r.users, s.view, TicketOf(o, member),
                                      Recorded(r.nodes, input.removeOrder(r.nodes.Keys)), input.ok);
            var end := Pass(s, input);
            if input.ok(StatusFinalizing) != Fine then
              && end.users == r.users && PassFails(s, input)
              && end.stored.Some? && end.stored.value.conditions == o.conditions
            else
              && end.users == removed.users
              && if removed.failed || input.ok(GetAfterRemove) != Fine || input.ok(StatusFinalized) != Fine
                 then DegradedIs(end.stored, Unknown) && PassFails(s, input)
                 else if input.ok(UpdateRelease) != Fine then DegradedIs(end.stored, IsTrue) && PassFails(s, input)
                 else end.stored.None? && !PassFails(s, input)
  {
    PassServes(s, input, o, svcs);
    ServeReleases(s, o, svcs, member, input);
  }

  predicate AvailableIs(o: V2rayUser, status: Status) {
    Available in o.conditions && o.conditions[Available] == status
  }

  /** Where Available changes in a pass, its write went through: to True on a live object, to False after an election
      without services or a failed add, to Unknown on an object without conditions. */
  lemma AvailableIsWritten(s: System, input: Input)
    requires GoodInput(input) && s.stored.Some? && Pass(s, input).stored.Some?
    ensures var o, end := s.stored.value, Pass(s, input).stored.value;
            && (AvailableIs(end, IsTrue) ==>
                  AvailableIs(o, IsTrue) || (!o.deleting && input.ok(StatusAvailable) == Fine))
            && (AvailableIs(end, IsFalse) ==>
                  AvailableIs(o, IsFalse) || input.ok(StatusNoNode) == Fine || input.ok(StatusAddFailed) == Fine)
            && (AvailableIs(end, Unknown) ==>
                  AvailableIs(o, Unknown) || (o.conditions == map[] && input.ok(InitStatus) == Fine))
            && (Available !in end.conditions ==> Available !in o.conditions)
  {
    if input.ok(GetObject) == Fine {
      var (o, goOn) := Prepare(s.stored.value, input);
      PrepareWrites(s.stored.value, input);
      var elected := Elected(s.view, o, input);
      if goOn && elected.Some? && elected.value != [] {
        ServeWritesAvailable(s, o, elected.value, input);
      }
    }
  }

  lemma ServeWritesAvailable(s: System, o: V2rayUser, svcs: seq<Service>, input: Input)
    requires GoodInput(input)
    ensures var end := Serve(s, o, svcs, input).stored;
            end.Some? ==>
              && (AvailableIs(end.value, IsTrue) ==>
                    AvailableIs(o, IsTrue) || (!o.deleting && input.ok(StatusAvailable) == Fine))
              && (AvailableIs(end.value, IsFalse) ==> AvailableIs(o, IsFalse) || input.ok(StatusAddFailed) == Fine)
              && (AvailableIs(end.value, Unknown) ==> AvailableIs(o, Unknown))
              && (Available !in end.value.conditions ==> Available !in o.conditions)
  {
    var member := MemberFor(o.tag, o.id, o.level);
    if member.Some? {
      ServeReleases(s, o, svcs, member.value, input);
      var r := AddUser(s.users, s.view, TicketOf(o, member.value), svcs, input.ok);
      if r.Added? {
        ReleaseKeepsAvailable(s.(users := r.users), o.(nodeList := r.nodes, finalizer := true),
                              TicketOf(o, member.value), input);
      }
    }
  }

  lemma ReleaseKeepsAvailable(s: System, o: V2rayUser, t: Ticket, input: Input)
    requires GoodInput(input)
    ensures var end := Release(s, o, t, input).stored;
            end.Some? ==> forall status :: AvailableIs(end.value, status) <==> AvailableIs(o, status)
  {
  }

  /** Nothing is written except by a call that was answered: where the stored object differs after a pass, the write
      responsible for it went through. */
  lemma PassWrites(s: System, input: Input)
    requires GoodInput(input) && s.stored.Some?
    ensures var o, end := s.stored.value, Pass(s, input).stored;
            && (end.None? ==> o.deleting && input.ok(UpdateRelease) == Fine)
            && (end.Some? ==>
                  && end.value.level == o.level && end.value.email == o.email && end.value.tag == o.tag
                  && end.value.deleting == o.deleting
                  && (end.value.id != o.id ==>
                        o.id == "" && end.value.id == input.freshId && input.ok(UpdateId) == Fine)
                  && (end.value.nodeList != o.nodeList ==> input.ok(UpdateNodeList) == Fine)
                  && (end.value.finalizer != o.finalizer ==> end.value.finalizer && input.ok(UpdateFinalizer) == Fine))
    ensures Pass(s, input).users != s.users ==>
              && input.ok(GetObject) == input.ok(UpdateId) == input.ok(GetAfterId) == Fine
              && (s.stored.value.conditions == map[] ==> input.ok(InitStatus) == input.ok(GetAfterInit) == Fine)
  {
    if input.ok(GetObject) == Fine {
      var (o, goOn) := Prepare(s.stored.value, input);
      PrepareWrites(s.stored.value, input);
      var elected := Elected(s.view, o, input);
      if goOn && elected.Some? && elected.value != [] {
        ServeWrites(s, o, elected.value, input);
      }
    }
  }

  /** What the opening of a pass wrote stays, whatever comes after it: a generated id, and the first condition. */
  lemma PreparedIsKept(s: System, input: Input)
    requires GoodInput(input) && s.stored.Some? && input.ok(GetObject) == Fine && Pass(s, input).stored.Some?
    ensures var o, end := s.stored.value, Pass(s, input).stored.value;
            && (o.id == "" && input.ok(UpdateId) == Fine
                && (o.conditions == map[] ==> input.ok(InitStatus) == input.ok(GetAfterInit) == Fine)
                ==> end.id == input.freshId)
            && (o.conditions == map[] && input.ok(InitStatus) == Fine ==> Available in end.conditions)
            && (o.conditions != map[] ==> end.conditions != map[])
  {
    var (o, goOn) := Prepare(s.stored.value, input);
    PrepareWrites(s.stored.value, input);
    var elected := Elected(s.view, o, input);
    if goOn && elected.Some? && elected.value != [] {
      ServeShape(s, o, elected.value, input);
      ServeWritesAvailable(s, o, elected.value, input);
      ServeKeepsConditions(s, o, elected.value, input);
    }
  }

  lemma ServeKeepsConditions(s: System, o: V2rayUser, svcs: seq<Service>, input: Input)
    requires GoodInput(input)
    ensures Serve(s, o, svcs, input).stored.Some? ==>
              o.conditions.Keys <= Serve(s, o, svcs, input).stored.value.conditions.Keys
  {
    var member := MemberFor(o.tag, o.id, o.level);
    if member.Some? {
      ServeReleases(s, o, svcs, member.value, input);
    }
  }

  lemma PrepareWrites(o: V2rayUser, input: Input)
    ensures var (after, goOn) := Prepare(o, input);
            && after == o.(id := after.id, conditions := after.conditions)
            && (after.id != o.id ==> o.id == "" && after.id == input.freshId && input.ok(UpdateId) == Fine)
            && (goOn ==> input.ok(UpdateId) == input.ok(GetAfterId) == Fine)
            && (goOn && o.conditions == map[] ==> input.ok(InitStatus) == input.ok(GetAfterInit) == Fine)
            && (o.conditions != map[] ==> after.conditions == o.conditions)
            && (o.conditions == map[] ==>
                  after.conditions == if input.ok(InitStatus) == Fine then map[Available := Unknown] else map[])
  {
  }

  lemma ServeWrites(s: System, o: V2rayUser, svcs: seq<Service>, input: Input)
    requires GoodInput(input)
    ensures var end := Serve(s, o, svcs, input).stored;
            && (end.None? ==> o.deleting && input.ok(UpdateRelease) == Fine)
            && (end.Some? ==>
                  && Later(o, end.value)
                  && (end.value.nodeList != o.nodeList ==> input.ok(UpdateNodeList) == Fine)
                  && (end.value.finalizer != o.finalizer ==> input.ok(UpdateFinalizer) == Fine))
  {
    ServeShape(s, o, svcs, input);
    var member := MemberFor(o.tag, o.id, o.level);
    if member.Some? {
      ServeReleases(s, o, svcs, member.value, input);
    }
  }

  /** A successful add is always recorded, whatever fails after it: unless the object is gone, the stored node list is
      the one the add recorded - and the finalizer is there exactly when it was before or its write went through. */
  lemma AddedIsRecorded(s: System, input: Input, o: V2rayUser, svcs: seq<Service>, member: Member)
    requires GoodInput(input) && Elects(s, input, o, svcs) && svcs != []
    requires MemberFor(o.tag, o.id, o.level) == Some(member)
    requires AddUser(s.users, s.view, TicketOf(o, member), svcs, input.ok).Added?
    ensures var r := AddUser(s.users, s.view, TicketOf(o, member), svcs, input.ok);
            var end := Pass(s, input).stored;
            && (forall x | x in svcs :: InfoOf(s.view, x).Some?) && FilesAll(r.nodes, s.view, svcs)
            && (end.Some? ==>
                  && end.value.nodeList == r.nodes
                  && (end.value.finalizer <==> o.finalizer || input.ok(UpdateFinalizer) == Fine))
  {
    var t := TicketOf(o, member);
    AddRecordsAll(s.users, s.view, t, svcs, input.ok);
    PassServes(s, input, o, svcs);
    ServeReleases(s, o, svcs, member, input);
    ServeLive(s, o, svcs, member, input);
    var r := AddUser(s.users, s.view, t, svcs, input.ok);
    ReleaseKeeps(s.(users := r.users), o.(nodeList := r.nodes, finalizer := true), t, input);
  }

  /** Whose account is sent: after a pass whose add succeeded, every elected slot that was free holds the account the
      tag calls for - vless if the tag mentions it, else vmess with alterId 0 - under the object's id and level. */
  lemma AddedAccount(s: System, input: Input, o: V2rayUser, svcs: seq<Service>, member: Member, svc: Service)
    requires GoodInput(input) && Elects(s, input, o, svcs) && svcs != [] && !o.deleting
    requires MemberFor(o.tag, o.id, o.level) == Some(member)
    requires AddUser(s.users, s.view, TicketOf(o, member), svcs, input.ok).Added?
    requires svc in svcs
    ensures Dial(s.view, svc).Some?
    ensures var slot, end := Slot(Dial(s.view, svc).value, o.tag, o.email), Pass(s, input).users;
            && slot in end
            && (slot in s.users ==> end[slot] == s.users[slot])
            && (slot !in s.users ==>
                  && end[slot].account == (if Mentions(o.tag, "vless") then Vless(o.id) else Vmess(o.id, 0))
                  && 0 <= end[slot].level < 0x1_0000_0000 && (o.level - end[slot].level) % 0x1_0000_0000 == 0)
  {
    var t := TicketOf(o, member);
    PassKeepsAdded(s, input, o, svcs, member);
    AddSucceedsExact(s.users, s.view, t, svcs, input.ok);
    MemberExact(o.tag, o.id, o.level);
    assert SlotAt(t, Dial(s.view, svc).value) in Slots(s.view, t, svcs);
  }

  lemma PassKeepsAdded(s: System, input: Input, o: V2rayUser, svcs: seq<Service>, member: Member)
    requires GoodInput(input) && Elects(s, input, o, svcs) && svcs != [] && !o.deleting
    requires MemberFor(o.tag, o.id, o.level) == Some(member)
    requires AddUser(s.users, s.view, TicketOf(o, member), svcs, input.ok).Added?
    ensures Pass(s, input).users == AddUser(s.users, s.view, TicketOf(o, member), svcs, input.ok).users
  {
    PassServes(s, input, o, svcs);
  }

  /** A tag that mentions neither protocol is refused: the tables stay, and Available False is reported. */
  lemma UnsupportedTag(s: System, input: Input, o: V2rayUser, svcs: seq<Service>)
    requires GoodInput(input) && Elects(s, input, o, svcs) && svcs != []
    requires !Mentions(o.tag, "vless") && !Mentions(o.tag, "vmess")
    ensures Pass(s, input).users == s.users && Pass(s, input).stored.Some?
    ensures input.ok(StatusAddFailed) == Fine ==>
              var conditions := Pass(s, input).stored.value.conditions;
              Available in conditions && conditions[Available] == IsFalse
  {
    MemberExact(o.tag, o.id, o.level);
    PassServes(s, input, o, svcs);
  }

  // --- which failures are returned ---

  /** An object that cannot be read: nothing happens, and that is an error unless it was not found. */
  lemma UnreadObject(s: System, input: Input)
    requires GoodInput(input) && s.stored.Some? && input.ok(GetObject) != Fine
    ensures Pass(s, input) == s && (PassFails(s, input) <==> input.ok(GetObject) == Broken)
  {
  }

  /** Before anything is added: a failing write or read of the object, or a List that fails other than by not-found, is
      returned, and leaves the tables alone. */
  lemma EarlyFailure(s: System, input: Input)
    requires GoodInput(input) && s.stored.Some? && input.ok(GetObject) == Fine
    requires || input.ok(UpdateId) != Fine || input.ok(GetAfterId) != Fine
             || (s.stored.value.conditions == map[] && (input.ok(InitStatus) != Fine || input.ok(GetAfterInit) != Fine))
             || (exists r :: r in s.stored.value.nodeList && input.ok(ListServices(r)) == Broken)
    ensures PassFails(s, input) && Pass(s, input).users == s.users
  {
    var (o, goOn) := Prepare(s.stored.value, input);
    PrepareWrites(s.stored.value, input);
    var order := input.electOrder(o.nodeList.Keys);
    assert IsWalk(order, o.nodeList.Keys);
    ElectFails(s.view, o.nodeList, order, r => input.ok(ListServices(r)));
    if r :| r in s.stored.value.nodeList && input.ok(ListServices(r)) == Broken {
      assert r in order;
    }
  }

  /** A pass that makes the object disappear returns no error. */
  lemma ReleaseReturnsNoError(s: System, input: Input)
    requires GoodInput(input) && s.stored.Some? && Pass(s, input).stored.None?
    ensures !PassFails(s, input)
  {
    var o, svcs, t := ReleasingPass(s, input);
    PassServes(s, input, o, svcs);
  }

  /** Without faults the one error a pass can return is that of a removal between services that share a server. */
  lemma ErrorFreePassFailsIff(s: System, input: Input, o: V2rayUser, svcs: seq<Service>)
    requires ErrorFree(input) && UniqueNames(s.view) && Elects(s, input, o, svcs)
    ensures PassFails(s, input) <==>
              && o.deleting && svcs != [] && AccountFor(o.tag, o.id).Some?
              && (forall x | x in svcs :: Dial(s.view, x).Some? && InfoOf(s.view, x).Some?)
              && !DistinctServers(s.view, svcs)
  {
    var member := MemberFor(o.tag, o.id, o.level);
    if svcs != [] && member.Some? {
      var t := TicketOf(o, member.value);
      PassServes(s, input, o, svcs);
      AddWithoutFaults(s.users, s.view, t, svcs, input.ok);
      var r := AddUser(s.users, s.view, t, svcs, input.ok);
      if r.Added? && o.deleting {
        AddSucceedsExact(s.users, s.view, t, svcs, input.ok);
        AddRecordsAll(s.users, s.view, t, svcs, input.ok);
        ElectedInView(s.view, o, input);
        assert IsWalk(input.removeOrder(r.nodes.Keys), r.nodes.Keys);
        RemovalOfElected(r.users, r.nodes, input.removeOrder(r.nodes.Keys), s.view, t, svcs, input.ok);
      }
    }
  }

  // --- where the node list settles ---

  /** One record per region: its first listed service. */
  ghost predicate FirstOfEach(nodes: NodeList, view: View, regions: set<string>) {
    && nodes.Keys == regions
    && forall r | r in regions ::
         && Listed(view, r) != []
         && InfoOf(view, Listed(view, r)[0]).Some?
         && nodes[r] == RegionNodes(0, [InfoOf(view, Listed(view, r)[0]).value])
  }

  /** A node list as a pass rebuilds it: sizes zero, regions lower-case and served. */
  ghost predicate Rebuilt(nodes: NodeList, view: View) {
    forall r | r in nodes :: nodes[r].size == 0 && Lower(r) == r && Listed(view, r) != []
  }

  /** A live pass that ends with Available True. */
  ghost predicate Succeeds(s: System, input: Input)
    requires GoodInput(input)
  {
    && s.stored.Some? && !s.stored.value.deleting
    && Pass(s, input).stored.Some? && IsAvailable(Pass(s, input).stored.value)
  }

  /** What an error-free live pass does when it succeeds. */
  lemma SuccessExact(s: System, input: Input)
    requires ErrorFree(input) && Succeeds(s, input)
    ensures var o := Prepare(s.stored.value, input).0;
            && MemberFor(o.tag, o.id, o.level).Some?
            && Elected(s.view, o, input).Some? && Elected(s.view, o, input).value != []
            && (var svcs := Elected(s.view, o, input).value;
                var t := TicketOf(o, MemberFor(o.tag, o.id, o.level).value);
                var end := Pass(s, input);
                && o.id != "" && !PassFails(s, input)
                && (forall x | x in svcs :: x in s.view.services && Dial(s.view, x).Some? && InfoOf(s.view, x).Some?)
                && end.view == s.view
                && end.users == Enrol(s.users, Slots(s.view, t, svcs), t.member)
                && FilesAll(end.stored.value.nodeList, s.view, svcs)
                && end.stored.value == o.(nodeList := end.stored.value.nodeList, finalizer := true,
                                          conditions := o.conditions[Available := IsTrue]))
  {
    var o := Prepare(s.stored.value, input).0;
    PrepareKeeps(s.stored.value, input);
    var order := input.electOrder(o.nodeList.Keys);
    assert IsWalk(order, o.nodeList.Keys);
    ElectFails(s.view, o.nodeList, order, r => input.ok(ListServices(r)));
    ElectedInView(s.view, o, input);
    var svcs := Elected(s.view, o, input).value;
    var t := TicketOf(o, MemberFor(o.tag, o.id, o.level).value);
    AddSucceedsExact(s.users, s.view, t, svcs, input.ok);
    AddRecordsAll(s.users, s.view, t, svcs, input.ok);
  }

  /** What an error-free pass reports of a live object: Available is True exactly when services were elected, the tag
      is supported, and every elected service can be dialled and located; otherwise it is False, and node list and
      finalizer stay. */
  lemma LivePassReports(s: System, input: Input)
    requires ErrorFree(input) && s.stored.Some? && !s.stored.value.deleting
    ensures var o := Prepare(s.stored.value, input).0;
            var elected := Elected(s.view, o, input);
            var end := Pass(s, input).stored;
            && !PassFails(s, input)
            && elected.Some? && end.Some? && Available in end.value.conditions
            && (if && elected.value != [] && AccountFor(o.tag, o.id).Some?
                   && forall x | x in elected.value :: Dial(s.view, x).Some? && InfoOf(s.view, x).Some?
                then end.value.conditions[Available] == IsTrue
                else && end.value.conditions[Available] == IsFalse
                     && end.value.nodeList == o.nodeList && end.value.finalizer == o.finalizer)
  {
    var o := Prepare(s.stored.value, input).0;
    PrepareKeeps(s.stored.value, input);
    var order := input.electOrder(o.nodeList.Keys);
    assert IsWalk(order, o.nodeList.Keys);
    ElectFails(s.view, o.nodeList, order, r => input.ok(ListServices(r)));
    var svcs := Elected(s.view, o, input).value;
    var member := MemberFor(o.tag, o.id, o.level);
    if member.Some? {
      AddWithoutFaults(s.users, s.view, TicketOf(o, member.value), svcs, input.ok);
    }
  }

  lemma {:induction false} FirstIsElected(view: View, nodeList: NodeList, order: seq<string>, lists: string -> Answer,
                                          r: string)
    requires forall q | q in order :: q in nodeList && lists(q) == Fine
    requires r in order && Listed(view, Lower(r)) != []
    ensures Elect(view, nodeList, order, lists).Some?
    ensures Listed(view, Lower(r))[0] in Elect(view, nodeList, order, lists).value
  {
    ElectFails(view, nodeList, order, lists);
    if order[0] == r {
      var head := Prefix(Listed(view, Lower(r)), Wanted(nodeList[r]));
      assert head[0] == Listed(view, Lower(r))[0];
    } else {
      FirstIsElected(view, nodeList, order[1..], lists, r);
    }
  }

  lemma SuccessRebuilds(s: System, input: Input)
    requires ErrorFree(input) && Succeeds(s, input)
    ensures var end := Pass(s, input);
            && end.stored.Some?
            && Rebuilt(end.stored.value.nodeList, s.view)
            && Elected(s.view, Prepare(s.stored.value, input).0, input).Some?
            && (forall r | r in end.stored.value.nodeList ::
                  Listed(s.view, r)[0] in Elected(s.view, Prepare(s.stored.value, input).0, input).value)
  {
    SuccessExact(s, input);
    var o := Prepare(s.stored.value, input).0;
    var svcs := Elected(s.view, o, input).value;
    var nodes := Pass(s, input).stored.value.nodeList;
    var order := input.electOrder(o.nodeList.Keys);
    var lists := r => input.ok(ListServices(r));
    assert IsWalk(order, o.nodeList.Keys);
    ElectMembers(s.view, o.nodeList, order, lists);
    forall r | r in nodes
      ensures nodes[r].size == 0 && Lower(r) == r && Listed(s.view, r) != [] && Listed(s.view, r)[0] in svcs
    {
      var x :| x in svcs && RegionOf(x) == r;
      var q :| q in order && Lower(q) == RegionOf(x) && x in Listed(s.view, RegionOf(x));
      LowerIdempotent(q);
      FirstIsElected(s.view, o.nodeList, order, lists, q);
    }
  }

  /** The services are the first listed ones of the regions, one each. */
  ghost predicate ElectsFirsts(view: View, svcs: seq<Service>, regions: set<string>) {
    && (forall r | r in regions :: Listed(view, r) != [] && OfRegion(svcs, r) == [Listed(view, r)[0]])
    && (forall x | x in svcs :: RegionOf(x) in regions && x == Listed(view, RegionOf(x))[0])
  }

  lemma FirstElected(view: View, svcs: seq<Service>, regions: set<string>, r: string)
    requires ElectsFirsts(view, svcs, regions) && r in regions
    ensures Listed(view, r)[0] in svcs && RegionOf(Listed(view, r)[0]) == r
  {
    var part := OfRegion(svcs, r);
    assert part[0] in part;
    ListedMembers(view, r);
    assert Listed(view, r)[0] in Listed(view, r);
  }

  /** A pass over a rebuilt list elects the first service of each of its regions. */
  lemma RebuiltElectsFirsts(view: View, o: V2rayUser, input: Input)
    requires GoodInput(input) && forall r :: input.ok(ListServices(r)) == Fine
    requires Rebuilt(o.nodeList, view)
    ensures Elected(view, o, input).Some?
    ensures ElectsFirsts(view, Elected(view, o, input).value, o.nodeList.Keys)
  {
    var order := input.electOrder(o.nodeList.Keys);
    var lists := r => input.ok(ListServices(r));
    assert IsWalk(order, o.nodeList.Keys);
    ElectFails(view, o.nodeList, order, lists);
    ElectMembers(view, o.nodeList, order, lists);
    var svcs := Elected(view, o, input).value;
    forall r | r in o.nodeList
      ensures OfRegion(svcs, r) == [Listed(view, r)[0]]
    {
      OfRegionIsInRegion(svcs, r);
      RebuiltDistinct(o.nodeList, view, order);
      ElectPerRegion(view, o.nodeList, order, lists, r);
    }
    forall x | x in svcs
      ensures RegionOf(x) in o.nodeList && x == Listed(view, RegionOf(x))[0]
    {
      OfRegionKeeps(svcs, x);
      var q :| q in order && Lower(q) == RegionOf(x);
      assert q in o.nodeList && Lower(q) == q;
    }
  }

  lemma RebuiltDistinct(nodes: NodeList, view: View, order: seq<string>)
    requires Rebuilt(nodes, view) && IsWalk(order, nodes.Keys)
    ensures DistinctLower(order)
  {
    forall i, j | 0 <= i < j < |order|
      ensures Lower(order[i]) != Lower(order[j])
    {
      assert order[i] in nodes && order[j] in nodes;
    }
  }

  /** The path of an error-free live pass whose add succeeds. */
  lemma PassAdds(s: System, input: Input, o: V2rayUser, svcs: seq<Service>, member: Member)
    requires ErrorFree(input) && Elects(s, input, o, svcs) && svcs != [] && !o.deleting
    requires MemberFor(o.tag, o.id, o.level) == Some(member)
    requires AddUser(s.users, s.view, TicketOf(o, member), svcs, input.ok).Added?
    ensures var r := AddUser(s.users, s.view, TicketOf(o, member), svcs, input.ok);
            Pass(s, input) == System(s.view, r.users, Some(o.(nodeList := r.nodes, finalizer := true,
                                                              conditions := o.conditions[Available := IsTrue])))
  {
  }

  /** Over a rebuilt list whose first services are usable and already serve the user, an error-free live pass
      succeeds, keeps the tables, and records the first service of each region. */
  lemma RebuiltPass(s: System, input: Input)
    requires ErrorFree(input)
    requires s.stored.Some? && !s.stored.value.deleting && s.stored.value.finalizer && IsAvailable(s.stored.value)
    requires s.stored.value.id != "" && s.stored.value.nodeList != map[]
    requires var o := s.stored.value;
             && Rebuilt(o.nodeList, s.view)
             && MemberFor(o.tag, o.id, o.level).Some?
             && forall r | r in o.nodeList ::
                  var x := Listed(s.view, r)[0];
                  && Dial(s.view, x).Some? && InfoOf(s.view, x).Some?
                  && Slot(Dial(s.view, x).value, o.tag, o.email) in s.users
    ensures var end := Pass(s, input);
            && end.stored.Some?
            && FirstOfEach(end.stored.value.nodeList, s.view, s.stored.value.nodeList.Keys)
            && end == s.(stored := Some(s.stored.value.(nodeList := end.stored.value.nodeList)))
  {
    var o := s.stored.value;
    var svcs := RebuiltElects(s, o, input);
    var t := TicketOf(o, MemberFor(o.tag, o.id, o.level).value);
    RebuiltAdd(s.users, s.view, t, svcs, o, input.ok);
    PassAdds(s, input, o, svcs, t.member);
    assert o.conditions[Available := IsTrue] == o.conditions;
  }

  lemma RebuiltElects(s: System, o: V2rayUser, input: Input) returns (svcs: seq<Service>)
    requires ErrorFree(input) && s.stored == Some(o) && IsAvailable(o) && o.id != "" && o.nodeList != map[]
    requires Rebuilt(o.nodeList, s.view)
    ensures Elects(s, input, o, svcs) && svcs != [] && ElectsFirsts(s.view, svcs, o.nodeList.Keys)
  {
    PrepareIdle(o, input);
    RebuiltElectsFirsts(s.view, o, input);
    svcs := Elected(s.view, o, input).value;
    var q :| q in o.nodeList;
    FirstElected(s.view, svcs, o.nodeList.Keys, q);
  }

  lemma PrepareIdle(o: V2rayUser, input: Input)
    requires input.ok(UpdateId) == input.ok(GetAfterId) == Fine && IsAvailable(o) && o.id != ""
    ensures Prepare(o, input) == (o, true)
  {
  }

  lemma RebuiltAdd(users: Users, view: View, t: Ticket, svcs: seq<Service>, o: V2rayUser, ok: Oracle)
    requires forall c :: ok(c) == Fine
    requires t.tag == o.tag && t.email == o.email
    requires ElectsFirsts(view, svcs, o.nodeList.Keys)
    requires forall r | r in o.nodeList ::
               && Listed(view, r) != []
               && (var x := Listed(view, r)[0];
                   && Dial(view, x).Some? && InfoOf(view, x).Some?
                   && Slot(Dial(view, x).value, o.tag, o.email) in users)
    ensures var added := AddUser(users, view, t, svcs, ok);
            added.Added? && added.users == users && FirstOfEach(added.nodes, view, o.nodeList.Keys)
  {
    AddWithoutFaults(users, view, t, svcs, ok);
    AddSucceedsExact(users, view, t, svcs, ok);
    AddRecordsAll(users, view, t, svcs, ok);
    assert Slots(view, t, svcs) <= users.Keys;
    EnrolPresent(users, Slots(view, t, svcs), t.member);
    FirstsAreFiled(AddUser(users, view, t, svcs, ok).nodes, view, svcs, o.nodeList.Keys);
  }

  lemma EnrolPresent(users: Users, slots: set<Slot>, member: Member)
    requires slots <= users.Keys
    ensures Enrol(users, slots, member) == users
  {
  }

  lemma FirstsAreFiled(nodes: NodeList, view: View, svcs: seq<Service>, regions: set<string>)
    requires forall s | s in svcs :: InfoOf(view, s).Some?
    requires FilesAll(nodes, view, svcs)
    requires ElectsFirsts(view, svcs, regions)
    ensures FirstOfEach(nodes, view, regions)
  {
    forall r
      ensures r in nodes <==> r in regions
    {
      if r in nodes {
        var x :| x in svcs && RegionOf(x) == r;
      }
      if r in regions {
        FirstElected(view, svcs, regions, r);
      }
    }
    assert nodes.Keys == regions;
    forall r | r in regions
      ensures nodes[r] == RegionNodes(0, [InfoOf(view, Listed(view, r)[0]).value])
      ensures InfoOf(view, Listed(view, r)[0]).Some?
    {
      FirstElected(view, svcs, regions, r);
      assert OfRegion(svcs, r) == [Listed(view, r)[0]];
    }
  }

  /** The state after two error-free passes, the first of them successful: a fixed point of every later one. */
  ghost predicate Settled(s: System) {
    && s.stored.Some?
    && (var o := s.stored.value;
        && !o.deleting && o.finalizer && IsAvailable(o) && o.id != "" && o.nodeList != map[]
        && FirstOfEach(o.nodeList, s.view, o.nodeList.Keys)
        && Rebuilt(o.nodeList, s.view)
        && MemberFor(o.tag, o.id, o.level).Some?
        && forall r | r in o.nodeList ::
             var x := Listed(s.view, r)[0];
             Dial(s.view, x).Some? && Slot(Dial(s.view, x).value, o.tag, o.email) in s.users)
  }

  /** On an unchanged cluster the node list settles after two passes: whatever sizes were asked for, and however the
      maps are walked, every recorded region is left with its first listed service. */
  lemma {:induction false} NodeListSettles(s: System, one: Input, two: Input)
    requires ErrorFree(one) && ErrorFree(two) && Succeeds(s, one)
    ensures var s1 := Pass(s, one);
            var s2 := Pass(s1, two);
            && s1.stored.Some? && Settled(s2)
            && s2.stored.value.nodeList.Keys == s1.stored.value.nodeList.Keys
            && s2.users == s1.users
  {
    SuccessServesFirsts(s, one);
    var s1 := Pass(s, one);
    RebuiltPass(s1, two);
    assert Pass(s1, two).users == s1.users;
  }

  /** After a successful pass the first service of every recorded region is usable and serves the user. */
  lemma SuccessServesFirsts(s: System, input: Input)
    requires ErrorFree(input) && Succeeds(s, input)
    ensures var end := Pass(s, input);
            && end.view == s.view && end.stored.Some?
            && (var o := end.stored.value;
                && !o.deleting && o.finalizer && IsAvailable(o) && o.id != "" && o.nodeList != map[]
                && Rebuilt(o.nodeList, s.view)
                && MemberFor(o.tag, o.id, o.level).Some?
                && forall r | r in o.nodeList ::
                     var x := Listed(s.view, r)[0];
                     && Dial(s.view, x).Some? && InfoOf(s.view, x).Some?
                     && Slot(Dial(s.view, x).value, o.tag, o.email) in end.users)
  {
    SuccessExact(s, input);
    SuccessRebuilds(s, input);
    PrepareKeeps(s.stored.value, input);
    var end := Pass(s, input);
    var o := Prepare(s.stored.value, input).0;
    var svcs := Elected(s.view, o, input).value;
    assert svcs[0] in svcs && RegionOf(svcs[0]) in end.stored.value.nodeList;
    var t := TicketOf(o, MemberFor(o.tag, o.id, o.level).value);
    forall r | r in end.stored.value.nodeList
      ensures var x := Listed(s.view, r)[0];
              && Dial(s.view, x).Some? && InfoOf(s.view, x).Some?
              && Slot(Dial(s.view, x).value, o.tag, o.email) in end.users
    {
      var x := Listed(s.view, r)[0];
      assert SlotAt(t, Dial(s.view, x).value) in Slots(s.view, t, svcs);
    }
  }

  function Passes(inputs: seq<Input>): seq<Step> {
    seq(|inputs|, i requires 0 <= i < |inputs| => Reconcile(inputs[i]))
  }

  lemma LastPass(s: System, inputs: seq<Input>)
    requires inputs != [] && forall i | 0 <= i < |inputs| :: GoodInput(inputs[i])
    ensures var n := |inputs| - 1;
            Run(s, Passes(inputs)) == Pass(Run(s, Passes(inputs[..n])), inputs[n])
  {
    var n := |inputs| - 1;
    assert Passes(inputs)[..n] == Passes(inputs[..n]);
  }

  lemma {:induction false} ElectNothing(view: View, nodeList: NodeList, order: seq<string>, lists: string -> Answer)
    requires view.services == [] && forall r | r in order :: r in nodeList
    ensures Elect(view, nodeList, order, lists).Some? ==> Elect(view, nodeList, order, lists).value == []
  {
    if order != [] {
      ElectNothing(view, nodeList, order[1..], lists);
      assert Listed(view, Lower(order[0])) == [];
    }
  }

  lemma PassElectsNothing(s: System, input: Input)
    requires GoodInput(input) && s.view.services == [] && s.stored.Some?
    ensures var end := Pass(s, input);
            && end.users == s.users && end.view == s.view
            && end.stored.Some? && end.stored.value.deleting == s.stored.value.deleting
  {
    var (o, goOn) := Prepare(s.stored.value, input);
    PrepareKeeps(s.stored.value, input);
    var order := input.electOrder(o.nodeList.Keys);
    assert IsWalk(order, o.nodeList.Keys);
    ElectNothing(s.view, o.nodeList, order, r => input.ok(ListServices(r)));
  }

  /** Once no service is left a marked object is never deleted, and its user stays wherever it is, however many passes
      are made and whatever they are answered. */
  lemma {:induction false} NoServiceNoDeletion(marked: System, inputs: seq<Input>)
    requires marked.view.services == [] && marked.stored.Some? && marked.stored.value.deleting
    requires forall i | 0 <= i < |inputs| :: GoodInput(inputs[i])
    ensures var end := Run(marked, Passes(inputs));
            end.users == marked.users && end.view == marked.view && end.stored.Some? && end.stored.value.deleting
  {
    if inputs != [] {
      var n := |inputs| - 1;
      NoServiceNoDeletion(marked, inputs[..n]);
      LastPass(marked, inputs);
      PassElectsNothing(Run(marked, Passes(inputs[..n])), inputs[n]);
    }
  }

  /** A settled system is left exactly as it is by any number of error-free passes. */
  lemma {:induction false} SettledStays(s: System, inputs: seq<Input>)
    requires Settled(s)
    requires forall i | 0 <= i < |inputs| :: ErrorFree(inputs[i])
    ensures forall i | 0 <= i < |inputs| :: GoodStep(Passes(inputs)[i])
    ensures Run(s, Passes(inputs)) == s
  {
    if inputs != [] {
      var n := |inputs| - 1;
      SettledStays(s, inputs[..n]);
      LastPass(s, inputs);
      SettledPass(s, inputs[n]);
    }
  }

  lemma SettledPass(s: System, input: Input)
    requires Settled(s) && ErrorFree(input)
    ensures Pass(s, input) == s
  {
    RebuiltPass(s, input);
    assert Pass(s, input).stored.value.nodeList == s.stored.value.nodeList;
  }

  /** Deleting a settled object removes the user from the first service of each recorded region and from nowhere
      else. */
  lemma {:induction false} SettledDeletion(s: System, last: Input, slot: Slot)
    requires Settled(s) && UniqueNames(s.view)
    requires GoodInput(last) && forall r :: last.ok(ListServices(r)) == Fine
    requires Pass(Take(s, MarkDeleted), last).stored.None?
    requires Own(Key(s.stored.value.tag, s.stored.value.email), slot)
    ensures slot in Pass(Take(s, MarkDeleted), last).users <==>
              slot in s.users && forall r | r in s.stored.value.nodeList ::
                Listed(s.view, r) != [] && Dial(s.view, Listed(s.view, r)[0]) != Some(slot.addr)
  {
    var marked := Take(s, MarkDeleted);
    var o := marked.stored.value;
    SettledPrepares(o, last);
    ReleaseExact(marked, last);
    RebuiltElectsFirsts(s.view, o, last);
    var svcs := Elected(s.view, o, last).value;
    FirstSlots(s.view, TicketOf(o, MemberFor(o.tag, o.id, o.level).value), svcs, o.nodeList.Keys, slot);
  }

  lemma {:induction false} AllOfRegion(svcs: seq<Service>, r: string)
    requires forall x | x in svcs :: RegionOf(x) == r
    ensures OfRegion(svcs, r) == svcs
  {
    if svcs != [] {
      assert svcs[0] in svcs;
      AllOfRegion(svcs[1..], r);
    }
  }

  /** A settled object with one region is deleted by one error-free pass. */
  lemma OneRegionDeletes(s: System, last: Input, r: string)
    requires ErrorFree(last) && Settled(s) && UniqueNames(s.view) && s.stored.value.nodeList.Keys == {r}
    ensures Pass(Take(s, MarkDeleted), last).stored.None?
  {
    var marked := Take(s, MarkDeleted);
    var o := marked.stored.value;
    PrepareIdle(o, last);
    RebuiltElectsFirsts(s.view, o, last);
    var svcs := Elected(s.view, o, last).value;
    assert r in o.nodeList;
    AllOfRegion(svcs, r);
    DeletionCompletesIff(marked, last, o, svcs);
  }

  /** The services dropped while settling are never told: every service the first pass elected still holds the user
      when the system has settled, and after a deletion that completes it does so unless it shares its server with the
      first service of a recorded region. */
  lemma {:induction false} DroppedServicesKeepTheUser(s: System, one: Input, two: Input, last: Input,
                                   settled: System, end: System, svc: Service)
    requires ErrorFree(one) && ErrorFree(two) && Succeeds(s, one)
    requires GoodInput(last) && forall r :: last.ok(ListServices(r)) == Fine
    requires UniqueNames(s.view)
    requires settled == Pass(Pass(s, one), two) && end == Pass(Take(settled, MarkDeleted), last) && end.stored.None?
    requires var first := Elected(s.view, Prepare(s.stored.value, one).0, one);
             first.Some? && svc in first.value
    ensures var o := s.stored.value;
            && Dial(s.view, svc).Some?
            && settled.stored.Some?
            && (Slot(Dial(s.view, svc).value, o.tag, o.email) in end.users <==>
                  forall r | r in settled.stored.value.nodeList ::
                    Listed(s.view, r) != [] && Dial(s.view, Listed(s.view, r)[0]) != Dial(s.view, svc))
  {
    NodeListSettles(s, one, two);
    SuccessKeeps(s, one, svc);
    SuccessExact(Pass(s, one), two);
    PrepareKeeps(Pass(s, one).stored.value, two);
    var o := s.stored.value;
    SettledDeletion(settled, last, Slot(Dial(s.view, svc).value, o.tag, o.email));
  }

  /** Of two services elected in one region, the second keeps the user. */
  lemma SecondIsDropped(s: System, one: Input, two: Input, last: Input, settled: System,
                        r: string, first: Service, second: Service)
    requires ErrorFree(one) && ErrorFree(two) && Succeeds(s, one)
    requires GoodInput(last) && forall q :: last.ok(ListServices(q)) == Fine
    requires UniqueNames(s.view) && Listed(s.view, r) == [first, second] && Dial(s.view, first) != Dial(s.view, second)
    requires settled == Pass(Pass(s, one), two) && Settled(settled) && settled.stored.value.nodeList.Keys == {r}
    requires Elected(s.view, Prepare(s.stored.value, one).0, one) == Some([first, second])
    requires Pass(Take(settled, MarkDeleted), last).stored.None?
    ensures Dial(s.view, second).Some?
    ensures Slot(Dial(s.view, second).value, s.stored.value.tag, s.stored.value.email)
              in Pass(Take(settled, MarkDeleted), last).users
  {
    assert second in [first, second];
    DroppedServicesKeepTheUser(s, one, two, last, settled, Pass(Take(settled, MarkDeleted), last), second);
  }

  lemma FirstPassRecords(s: System, input: Input, r: string, first: Service, second: Service)
    requires ErrorFree(input) && Succeeds(s, input) && RegionOf(first) == RegionOf(second) == r
    requires Elected(s.view, Prepare(s.stored.value, input).0, input) == Some([first, second])
    ensures Pass(s, input).stored.Some? && Pass(s, input).stored.value.nodeList.Keys == {r}
  {
    SuccessExact(s, input);
    OneRegionFiled(Pass(s, input).stored.value.nodeList, s.view, r, first, second);
  }

  lemma OneRegionFiled(nodes: NodeList, view: View, r: string, first: Service, second: Service)
    requires forall x | x in [first, second] :: InfoOf(view, x).Some?
    requires FilesAll(nodes, view, [first, second]) && RegionOf(first) == RegionOf(second) == r
    ensures nodes.Keys == {r}
  {
    assert first in [first, second];
  }

  lemma PassKeepsView(s: System, input: Input)
    requires GoodInput(input)
    ensures Pass(s, input).view == s.view
  {
    if s.stored.Some? && input.ok(GetObject) == Fine {
      var (o, goOn) := Prepare(s.stored.value, input);
      var svcs := Elected(s.view, o, input);
      if goOn && svcs.Some? {
        ServeShape(s, o, svcs.value, input);
      }
    }
  }

  /** Two services elected in one region, settled and deleted without a fault: the second keeps the user. */
  lemma SecondOfTwoRemains(s: System, one: Input, two: Input, last: Input, r: string, first: Service, second: Service)
    requires ErrorFree(one) && ErrorFree(two) && ErrorFree(last) && Succeeds(s, one) && UniqueNames(s.view)
    requires Listed(s.view, r) == [first, second] && Dial(s.view, first) != Dial(s.view, second)
    requires Elected(s.view, Prepare(s.stored.value, one).0, one) == Some([first, second])
    ensures var settled := Pass(Pass(s, one), two);
            var end := Pass(Take(settled, MarkDeleted), last);
            && end.stored.None? && Dial(s.view, second).Some?
            && Slot(Dial(s.view, second).value, s.stored.value.tag, s.stored.value.email) in end.users
  {
    var settled := Pass(Pass(s, one), two);
    ListedMembers(s.view, r);
    assert first in Listed(s.view, r) && second in Listed(s.view, r);
    NodeListSettles(s, one, two);
    FirstPassRecords(s, one, r, first, second);
    PassKeepsView(s, one);
    PassKeepsView(Pass(s, one), two);
    OneRegionDeletes(settled, last, r);
    SecondIsDropped(s, one, two, last, settled, r, first, second);
  }

  /** What a successful pass elected holds the user after it. */
  lemma SuccessKeeps(s: System, input: Input, svc: Service)
    requires ErrorFree(input) && Succeeds(s, input)
    requires var elected := Elected(s.view, Prepare(s.stored.value, input).0, input);
             elected.Some? && svc in elected.value
    ensures var end := Pass(s, input);
            && Dial(s.view, svc).Some?
            && end.view == s.view
            && end.stored.value.tag == s.stored.value.tag && end.stored.value.email == s.stored.value.email
            && !end.stored.value.deleting
            && Slot(Dial(s.view, svc).value, s.stored.value.tag, s.stored.value.email) in end.users
  {
    SuccessExact(s, input);
    PrepareKeeps(s.stored.value, input);
    var o := Prepare(s.stored.value, input).0;
    var t := TicketOf(o, MemberFor(o.tag, o.id, o.level).value);
    var svcs := Elected(s.view, o, input).value;
    assert SlotAt(t, Dial(s.view, svc).value) in Slots(s.view, t, svcs);
  }

  lemma SettledPrepares(o: V2rayUser, input: Input)
    requires o.id != "" && IsAvailable(o)
    ensures Prepare(o, input).0 == o
  {
  }

  lemma FirstSlots(view: View, t: Ticket, svcs: seq<Service>, regions: set<string>, slot: Slot)
    requires ElectsFirsts(view, svcs, regions)
    requires slot.tag == t.tag && slot.email == t.email
    ensures slot in Slots(view, t, svcs)
       <==> exists r :: r in regions && Dial(view, Listed(view, r)[0]) == Some(slot.addr)
  {
    if r :| r in regions && Dial(view, Listed(view, r)[0]) == Some(slot.addr) {
      FirstElected(view, svcs, regions, r);
    }
  }
}
