/** The V2rayUser controller itself: its loops over the servers' tables and the stored object, proved to do what the
    functions of UserSaga and UserRuns say. */
module UserController {
  import opened Kube
  import opened Election
  import opened UserSaga
  import opened UserRuns

  class Reconciler {
    var view: View
    var users: Users
    var stored: Option<V2rayUser>

    /** The abstract state a pass works on. */
    function State(): System
      reads this
    {
      System(view, users, stored)
    }

    constructor (view: View, users: Users, stored: Option<V2rayUser>)
      ensures State() == System(view, users, stored)
    {
      this.view, this.users, this.stored := view, users, stored;
    }

    // --- the API server and the v2ray servers ---

    /** A write of spec and metadata; the status in the store is kept. */
    method Update(o: V2rayUser, answer: Answer) returns (failed: bool)
      requires stored.Some?
      modifies this`stored
      ensures failed <==> answer != Fine
      ensures stored ==
              if failed then old(stored)
              else if o.deleting && !o.finalizer then None
              else Some(o.(conditions := old(stored).value.conditions))
    {
      failed := answer != Fine;
      if !failed {
        stored := if o.deleting && !o.finalizer then None else Some(o.(conditions := stored.value.conditions));
      }
    }

    /** A write of the status subresource; spec and metadata in the store are kept. */
    method UpdateStatus(o: V2rayUser, answer: Answer) returns (failed: bool)
      requires stored.Some?
      modifies this`stored
      ensures failed <==> answer != Fine
      ensures stored == if failed then old(stored) else Some(old(stored).value.(conditions := o.conditions))
    {
      failed := answer != Fine;
      if !failed {
        stored := Some(stored.value.(conditions := o.conditions));
      }
    }

    method AddUserRpc(slot: Slot, member: Member, answer: Answer) returns (failed: bool)
      modifies this`users
      ensures var r := AlterAdd(old(users), slot, member, answer);
              failed == r.None? && users == if r.Some? then r.value else old(users)
    {
      if answer != Fine {
        return true;
      }
      if slot !in users {
        users := users[slot := member];
      }
      return false;
    }

    method RemoveUserRpc(slot: Slot, answer: Answer) returns (failed: bool)
      modifies this`users
      ensures var r := AlterRemove(old(users), slot, answer);
              failed == r.None? && users == if r.Some? then r.value else old(users)
    {
      if answer != Fine || slot !in users {
        return true;
      }
      users := users - {slot};
      return false;
    }

    // --- the two sagas ---

    method UndoAdd(t: Ticket, done: seq<Service>, ok: Oracle)
      modifies this`users
      ensures users == UndoAddFrom(old(users), view, t, done, ok, 0)
    {
      for j := 0 to |done|
        invariant UndoAddFrom(users, view, t, done, ok, j) == UndoAddFrom(old(users), view, t, done, ok, 0)
      {
        var addr := Dial(view, done[j]);
        if addr.None? {
          continue;
        }
        var _ := RemoveUserRpc(SlotAt(t, addr.value), ok(UndoAddRpc(j)));
      }
    }

    /** Adds the user to every service of the list, rebuilding the node list; undone if anything fails. */
    method AddUserToSvcList(o: V2rayUser, svcs: seq<Service>, ok: Oracle) returns (failed: bool, updated: V2rayUser)
      requires stored.Some? && stored.value == o && (o.deleting ==> o.finalizer)
      modifies this`users, this`stored
      ensures match MemberFor(o.tag, o.id, o.level)
              case None => failed && users == old(users) && stored == old(stored)
              case Some(member) =>
                match AddUser(old(users), view, TicketOf(o, member), svcs, ok)
                case AddFailed(u) => failed && users == u && stored == old(stored)
                case Added(u, nodes) =>
                  !failed && users == u && updated == o.(nodeList := nodes) && stored == Some(updated)
      ensures failed ==> updated.conditions == o.conditions
    {
      updated := o;
      var member := MemberFor(o.tag, o.id, o.level);
      if member.None? {
        return true, updated;
      }
      var t := TicketOf(o, member.value);
      var done, nodes;
      failed, done, nodes := AddToEach(t, svcs, ok);
      if !failed {
        updated := o.(nodeList := nodes);
        failed := Update(updated, ok(UpdateNodeList));
      }
      if failed {
        UndoAdd(t, done, ok);
      }
    }

    /** The add loop. */
    method AddToEach(t: Ticket, svcs: seq<Service>, ok: Oracle) returns (failed: bool, done: seq<Service>,
                     nodes: NodeList)
      modifies this`users
      ensures AddState(users, done, nodes, failed) == AddLoop(old(users), view, t, svcs, ok)
    {
      done, nodes, failed := [], map[], false;
      var i := 0;
      while i < |svcs| && !failed
        invariant i <= |svcs|
        invariant AddFrom(AddState(users, done, nodes, failed), view, t, svcs, ok, i) ==
                  AddLoop(old(users), view, t, svcs, ok)
      {
        var svc := svcs[i];
        ghost var st := AddState(users, done, nodes, failed);
        var info;
        failed, info := AddToOne(t, svc, ok, i, st);
        if !failed {
          var region := RegionOf(svc);
          var soFar := if region in nodes then nodes[region].info else [];
          nodes := nodes[region := RegionNodes(0, soFar + [info])];
          done := done + [svc];
        }
        i := i + 1;
      }
    }

    /** One service of the add: dial it, add the user, look up what to record. */
    method AddToOne(t: Ticket, svc: Service, ok: Oracle, i: nat, ghost st: AddState)
      returns (failed: bool, info: NodeInfo)
      requires st.users == users && !st.failed
      modifies this`users
      ensures AddOne(st, view, t, svc, ok, i) ==
              if failed then st.(users := users, failed := true)
              else AddState(users, st.done + [svc], File(st.nodes, RegionOf(svc), info), false)
    {
      info := NodeInfo("", "", 443, svc.name);
      var addr := Dial(view, svc);
      if addr.None? {
        return true, info;
      }
      failed := AddUserRpc(SlotAt(t, addr.value), t.member, ok(AddRpc(i)));
      if failed {
        return;
      }
      if ok(ListDeployments(i)) != Fine {
        return true, info;
      }
      var deployments := MatchingDeployments(view.deployments, svc.selector);
      if |deployments| == 0 || ok(ListPods(i)) != Fine {
        return true, info;
      }
      var pods := MatchingPods(view.pods, deployments[0].matchLabels);
      if |pods| == 0 || ok(GetNode(i)) != Fine || pods[0].nodeName !in view.nodes {
        return true, info;
      }
      info := NodeInfo(pods[0].nodeName, view.nodes[pods[0].nodeName], 443, svc.name);
    }

    method UndoRemove(t: Ticket, done: seq<Service>, ok: Oracle)
      modifies this`users
      ensures users == UndoRemoveFrom(old(users), view, t, done, ok, 0)
    {
      for j := 0 to |done|
        invariant UndoRemoveFrom(users, view, t, done, ok, j) == UndoRemoveFrom(old(users), view, t, done, ok, 0)
      {
        var addr := Dial(view, done[j]);
        if addr.None? {
          continue;
        }
        var _ := AddUserRpc(SlotAt(t, addr.value), t.member, ok(UndoRemoveRpc(j)));
      }
    }

    /** Removes the user from every recorded service, region by region; undone if anything fails. */
    method DoFinalizerOperations(o: V2rayUser, order: seq<string>, ok: Oracle) returns (failed: bool)
      requires forall r | r in order :: r in o.nodeList
      modifies this`users
      ensures match MemberFor(o.tag, o.id, o.level)
              case None => failed && users == old(users)
              case Some(member) =>
                var st := RemoveUser(old(users), view, TicketOf(o, member), Recorded(o.nodeList, order), ok);
                failed == st.failed && users == st.users
    {
      var member := MemberFor(o.tag, o.id, o.level);
      if member.None? {
        return true;
      }
      var t := TicketOf(o, member.value);
      var done: seq<Service> := [];
      ghost var infos := Recorded(o.nodeList, order);
      ghost var end := RemoveLoop(users, view, t, infos, ok);
      ghost var n: nat := 0;
      var i := 0;
      failed := false;
      assert infos[0..] == infos && order[0..] == order;
      while i < |order| && !failed
        invariant i <= |order| && n <= |infos|
        invariant RemoveFrom(RemoveState(users, done, failed), view, t, infos, ok, n) == end
        invariant !failed ==> |done| == n && infos[n..] == Recorded(o.nodeList, order[i..])
      {
        var list := o.nodeList[order[i]].info;
        ghost var rest := Recorded(o.nodeList, order[i + 1..]);
        assert order[i..][1..] == order[i + 1..];
        assert infos[n..] == list + rest;
        failed, done, n := RemoveRegion(t, list, done, ok, infos, rest);
        i := i + 1;
      }
      if failed {
        UndoRemove(t, done, ok);
      } else {
        assert infos[n..] == [];
      }
    }

    /** The inner loop: the records of one region. */
    method RemoveRegion(t: Ticket, list: seq<NodeInfo>, before: seq<Service>, ok: Oracle,
                        ghost infos: seq<NodeInfo>, ghost rest: seq<NodeInfo>)
      returns (failed: bool, done: seq<Service>, ghost n: nat)
      requires |before| <= |infos| && infos[|before|..] == list + rest
      modifies this`users
      ensures n <= |infos|
      ensures RemoveFrom(RemoveState(users, done, failed), view, t, infos, ok, n) ==
              RemoveFrom(RemoveState(old(users), before, false), view, t, infos, ok, |before|)
      ensures !failed ==> |done| == n && infos[n..] == rest
    {
      failed, done, n := false, before, |before|;
      assert list[0..] == list;
      for j := 0 to |list|
        invariant !failed && n <= |infos| && |done| == n && infos[n..] == list[j..] + rest
        invariant RemoveFrom(RemoveState(users, done, failed), view, t, infos, ok, n) ==
                  RemoveFrom(RemoveState(old(users), before, false), view, t, infos, ok, |before|)
      {
        assert infos[n] == infos[n..][0] == list[j];
        assert infos[n + 1..] == infos[n..][1..] == list[j + 1..] + rest;
        ghost var st := RemoveState(users, done, failed);
        failed := RemoveRecorded(t, list[j], ok, |done|);
        n := n + 1;
        if failed {
          return;
        }
        done := done + [ServiceNamed(view.services, list[j].svcName).value];
      }
      assert list[|list|..] + rest == rest;
    }

    /** One entry of the removal: find the service, dial it, remove the user. */
    method RemoveRecorded(t: Ticket, info: NodeInfo, ok: Oracle, n: nat) returns (failed: bool)
      modifies this`users
      ensures forall done: seq<Service> ::
                var st := RemoveOne(RemoveState(old(users), done, false), view, t, info, ok, n);
                && failed == st.failed && users == st.users
                && (!failed ==> ServiceNamed(view.services, info.svcName).Some?
                                && st.done == done + [ServiceNamed(view.services, info.svcName).value])
                && (failed ==> st.done == done)
    {
      var svc := ServiceNamed(view.services, info.svcName);
      if ok(GetService(n)) != Fine || svc.None? {
        return true;
      }
      var addr := Dial(view, svc.value);
      if addr.None? {
        return true;
      }
      failed := RemoveUserRpc(SlotAt(t, addr.value), ok(RemoveRpc(n)));
    }

    // --- the pass ---

    /** One reconcile pass. */
    method Reconcile(input: Input) returns (failed: bool)
      requires GoodInput(input)
      requires stored.Some? && stored.value.deleting ==> stored.value.finalizer
      modifies this`users, this`stored
      ensures State() == Pass(old(State()), input)
      ensures failed == PassFails(old(State()), input)
    {
      var ok := input.ok;
      if stored.None? {
        return false;
      }
      if ok(GetObject) != Fine {
        return ok(GetObject) != NotFound;
      }
      var o;
      failed, o := PrepareObject(stored.value, input);
      if failed {
        return true;
      }

      var order := input.electOrder(o.nodeList.Keys);
      assert IsWalk(order, o.nodeList.Keys);
      var elected := ElectServicesForUser(view, o.nodeList, order, r => ok(ListServices(r)));
      assert elected == Elected(view, o, input);
      if elected.None? {
        return true;
      }
      var svcs := elected.value;
      if |svcs| == 0 {
        o := o.(conditions := o.conditions[Available := IsFalse]);
        failed := UpdateStatus(o, ok(StatusNoNode));
        return;
      }
      failed := ServeElected(o, svcs, input);
    }

    /** Status initialisation and uuid generation, each followed by a fresh read. */
    method PrepareObject(fetched: V2rayUser, input: Input) returns (failed: bool, o: V2rayUser)
      requires stored == Some(fetched) && (fetched.deleting ==> fetched.finalizer)
      modifies this`stored
      ensures var (kept, goOn) := Prepare(fetched, input);
              stored == Some(kept) && failed == !goOn && (goOn ==> o == kept)
    {
      var ok := input.ok;
      o := fetched;
      if o.conditions == map[] {
        o := o.(conditions := o.conditions[Available := Unknown]);
        failed := UpdateStatus(o, ok(InitStatus));
        if failed || ok(GetAfterInit) != Fine {
          return true, o;
        }
        o := stored.value;
      }
      if o.id == "" {
        o := o.(id := input.freshId);
      }
      failed := Update(o, ok(UpdateId));
      if failed || ok(GetAfterId) != Fine {
        return true, o;
      }
      o := stored.value;
    }

    /** The pass from the add on. */
    method ServeElected(fetched: V2rayUser, svcs: seq<Service>, input: Input) returns (failed: bool)
      requires GoodInput(input)
      requires stored == Some(fetched) && (fetched.deleting ==> fetched.finalizer)
      modifies this`users, this`stored
      ensures State() == Serve(old(State()), fetched, svcs, input)
      ensures failed == ServeFails(old(State()), fetched, svcs, input)
    {
      var ok := input.ok;
      var o;
      failed, o := AddUserToSvcList(fetched, svcs, ok);
      if failed {
        o := o.(conditions := o.conditions[Available := IsFalse]);
        failed := UpdateStatus(o, ok(StatusAddFailed));
        return;
      }
      if !o.finalizer {
        o := o.(finalizer := true);
        failed := Update(o, ok(UpdateFinalizer));
        if failed {
          return true;
        }
      }
      if o.deleting {
        failed := Finalize(o, input);
        return;
      }
      o := o.(conditions := o.conditions[Available := IsTrue]);
      failed := UpdateStatus(o, ok(StatusAvailable));
    }

    /** The finalizer block of a pass. */
    method Finalize(fetched: V2rayUser, input: Input) returns (failed: bool)
      requires GoodInput(input)
      requires stored == Some(fetched) && fetched.deleting && fetched.finalizer
      requires MemberFor(fetched.tag, fetched.id, fetched.level).Some?
      modifies this`users, this`stored
      ensures State() == Release(old(State()), fetched,
                                 TicketOf(fetched, MemberFor(fetched.tag, fetched.id, fetched.level).value), input)
      ensures failed == ReleaseFails(old(State()), fetched,
                                     TicketOf(fetched, MemberFor(fetched.tag, fetched.id, fetched.level).value), input)
    {
      var ok := input.ok;
      var o := fetched.(conditions := fetched.conditions[Degraded := Unknown]);
      failed := UpdateStatus(o, ok(StatusFinalizing));
      if failed {
        return true;
      }
      var order := input.removeOrder(o.nodeList.Keys);
      assert IsWalk(order, o.nodeList.Keys);
      failed := DoFinalizerOperations(o, order, ok);
      if failed || ok(GetAfterRemove) != Fine {
        return true;
      }
      o := stored.value;
      o := o.(conditions := o.conditions[Degraded := IsTrue]);
      failed := UpdateStatus(o, ok(StatusFinalized));
      if failed {
        return true;
      }
      o := o.(finalizer := false);
      failed := Update(o, ok(UpdateRelease));
    }
  }
}
