/** The two sagas of the V2rayUser controller as functions of the user tables: adding a user to a list of services
    and removing it from the recorded ones, each with its rollback. The methods that run them are in UserController. */
module UserSaga {
  import opened Kube

  // --- the v2ray servers ---

  datatype Account = Vless(id: string) | Vmess(id: string, alterId: int)

  datatype Member = Member(level: int, account: Account)

  /** One place a user can be held: a server, an inbound on it, an email. */
  datatype Slot = Slot(addr: Addr, tag: string, email: string)

  type Users = map<Slot, Member>

  datatype Reply = Accepted(users: Users) | AlreadyExists | NoSuchUser

  function ServerAdd(users: Users, slot: Slot, member: Member): Reply {
    if slot in users then AlreadyExists else Accepted(users[slot := member])
  }

  function ServerRemove(users: Users, slot: Slot): Reply {
    if slot in users then Accepted(users - {slot}) else NoSuchUser
  }

  /** AlterInbound with an add operation: a user that is already there counts as added. */
  function AlterAdd(users: Users, slot: Slot, member: Member, rpc: Answer): Option<Users> {
    if rpc != Fine then None
    else
      match ServerAdd(users, slot, member)
      case Accepted(u) => Some(u)
      case AlreadyExists => Some(users)
      case NoSuchUser => None
  }

  /** AlterInbound with a remove operation: a user that is not there is an error. */
  function AlterRemove(users: Users, slot: Slot, rpc: Answer): Option<Users> {
    if rpc != Fine then None
    else
      match ServerRemove(users, slot)
      case Accepted(u) => Some(u)
      case _ => None
  }

  // --- what one pass sends ---

  predicate Contains(s: string, sub: string) {
    sub <= s || (s != [] && Contains(s[1..], sub))
  }

  /** The word stands in the tag at position `i`. */
  predicate Stands(tag: string, word: string, i: nat) {
    i + |word| <= |tag| && tag[i..i + |word|] == word
  }

  ghost predicate Mentions(tag: string, word: string) {
    exists i: nat :: Stands(tag, word, i)
  }

  lemma StandsLater(s: string, sub: string, i: nat)
    requires s != []
    ensures Stands(s[1..], sub, i) <==> Stands(s, sub, i + 1)
  {
    if i + |sub| <= |s| - 1 {
      assert s[1..][i..i + |sub|] == s[i + 1..i + 1 + |sub|];
    }
  }

  lemma {:induction false} ContainsIff(s: string, sub: string)
    ensures Contains(s, sub) <==> Mentions(s, sub)
  {
    if sub <= s {
      assert Stands(s, sub, 0);
    } else if s != [] {
      ContainsIff(s[1..], sub);
      if Mentions(s[1..], sub) {
        var i: nat :| Stands(s[1..], sub, i);
        StandsLater(s, sub, i);
      }
      if i: nat :| Stands(s, sub, i) {
        assert i != 0;
        StandsLater(s, sub, i - 1);
      }
    }
  }

  /** The account for an inbound tag: `vless` is looked for before `vmess`. */
  function AccountFor(tag: string, id: string): Option<Account> {
    if Contains(tag, "vless") then Some(Vless(id))
    else if Contains(tag, "vmess") then Some(Vmess(id, 0))
    else None
  }

  /** The level is sent as an unsigned 32-bit number. */
  function MemberFor(tag: string, id: string, level: int): Option<Member> {
    match AccountFor(tag, id)
    case None => None
    case Some(account) => Some(Member(level % 0x1_0000_0000, account))
  }

  /** Which account goes with a tag, and the level as an unsigned 32-bit number. */
  lemma MemberExact(tag: string, id: string, level: int)
    ensures MemberFor(tag, id, level).None? <==> !Mentions(tag, "vless") && !Mentions(tag, "vmess")
    ensures MemberFor(tag, id, level).Some? ==>
              var m := MemberFor(tag, id, level).value;
              && m.account == (if Mentions(tag, "vless") then Vless(id) else Vmess(id, 0))
              && 0 <= m.level < 0x1_0000_0000 && (level - m.level) % 0x1_0000_0000 == 0
  {
    ContainsIff(tag, "vless");
    ContainsIff(tag, "vmess");
  }

  datatype Ticket = Ticket(tag: string, email: string, member: Member)

  function SlotAt(t: Ticket, addr: Addr): Slot {
    Slot(addr, t.tag, t.email)
  }

  /** Every call a pass of the V2rayUser controller makes. */
  datatype Call =
    | GetObject | InitStatus | GetAfterInit | UpdateId | GetAfterId
    | ListServices(region: string) | StatusNoNode
    | AddRpc(i: nat) | ListDeployments(i: nat) | ListPods(i: nat) | GetNode(i: nat) | UpdateNodeList
    | UndoAddRpc(i: nat) | StatusAddFailed
    | UpdateFinalizer | StatusFinalizing | GetService(i: nat) | RemoveRpc(i: nat) | UndoRemoveRpc(i: nat)
    | GetAfterRemove | StatusFinalized | UpdateRelease
    | StatusAvailable

  type Oracle = Call -> Answer

  // --- adding ---

  /** What is recorded for a service: the node of the first pod of the first deployment it selects. */
  function InfoOf(view: View, svc: Service): Option<NodeInfo> {
    var deployments := MatchingDeployments(view.deployments, svc.selector);
    if deployments == [] then None
    else
      var pods := MatchingPods(view.pods, deployments[0].matchLabels);
      if pods == [] || pods[0].nodeName !in view.nodes then None
      else Some(NodeInfo(pods[0].nodeName, view.nodes[pods[0].nodeName], 443, svc.name))
  }

  predicate LookupsAnswer(ok: Oracle, i: nat) {
    ok(ListDeployments(i)) == Fine && ok(ListPods(i)) == Fine && ok(GetNode(i)) == Fine
  }

  /** The record names the node of the first pod that the first deployment selected by the service selects, at the
      address read from that node, port 443, and the service; nothing is recorded if one of them is missing. */
  lemma InfoOfExact(view: View, svc: Service, i: nat, j: nat)
    requires FirstSelected(DeploymentLabels(view.deployments), svc.selector, i)
    requires FirstSelected(PodLabels(view.pods), view.deployments[i].matchLabels, j)
    ensures InfoOf(view, svc) ==
            var node := view.pods[j].nodeName;
            if node in view.nodes then Some(NodeInfo(node, view.nodes[node], 443, svc.name)) else None
  {
    FirstDeployment(view.deployments, svc.selector);
    SelectedExists(view.deployments, svc.selector, i);
    var i': nat :| FirstSelected(DeploymentLabels(view.deployments), svc.selector, i')
                   && view.deployments[i'] == MatchingDeployments(view.deployments, svc.selector)[0];
    FirstIsUnique(DeploymentLabels(view.deployments), svc.selector, i, i');
    var selector := view.deployments[i].matchLabels;
    FirstPod(view.pods, selector);
    if MatchingPods(view.pods, selector) != [] {
      var j': nat :| FirstSelected(PodLabels(view.pods), selector, j')
                     && view.pods[j'] == MatchingPods(view.pods, selector)[0];
      FirstIsUnique(PodLabels(view.pods), selector, j, j');
    }
    PodExists(view.pods, selector, j);
  }

  lemma PodExists(ps: seq<Pod>, selector: Labels, j: nat)
    requires FirstSelected(PodLabels(ps), selector, j)
    ensures MatchingPods(ps, selector) != []
  {
    FirstPod(ps, selector);
    assert PodLabels(ps)[j] == ps[j].labels;
  }

  lemma SelectedExists(ds: seq<Deployment>, selector: Labels, i: nat)
    requires FirstSelected(DeploymentLabels(ds), selector, i)
    ensures MatchingDeployments(ds, selector) != []
  {
    FirstDeployment(ds, selector);
    assert DeploymentLabels(ds)[i] == ds[i].labels;
  }

  /** Without a deployment the service selects, or a pod that deployment selects, there is no record. */
  lemma InfoOfNeedsPod(view: View, svc: Service)
    requires InfoOf(view, svc).Some?
    ensures exists i: nat, j: nat ::
              && FirstSelected(DeploymentLabels(view.deployments), svc.selector, i)
              && FirstSelected(PodLabels(view.pods), view.deployments[i].matchLabels, j)
  {
    FirstDeployment(view.deployments, svc.selector);
    var i: nat :| FirstSelected(DeploymentLabels(view.deployments), svc.selector, i)
                  && view.deployments[i] == MatchingDeployments(view.deployments, svc.selector)[0];
    FirstPod(view.pods, view.deployments[i].matchLabels);
  }

  /** Files a record under a region; a rebuilt region has size zero. */
  function File(nodes: NodeList, region: string, info: NodeInfo): NodeList {
    nodes[region := RegionNodes(0, (if region in nodes then nodes[region].info else []) + [info])]
  }

  datatype AddState = AddState(users: Users, done: seq<Service>, nodes: NodeList, failed: bool)

  /** One iteration of the add loop; `done` is the list the rollback would walk. */
  function AddOne(st: AddState, view: View, t: Ticket, svc: Service, ok: Oracle, i: nat): AddState {
    match Dial(view, svc)
    case None => st.(failed := true)
    case Some(addr) =>
      match AlterAdd(st.users, SlotAt(t, addr), t.member, ok(AddRpc(i)))
      case None => st.(failed := true)
      case Some(users) =>
        if !LookupsAnswer(ok, i) || InfoOf(view, svc).None? then st.(users := users, failed := true)
        else AddState(users, st.done + [svc], File(st.nodes, RegionOf(svc), InfoOf(view, svc).value), false)
  }

  /** The add loop from service `i` on. */
  function AddFrom(st: AddState, view: View, t: Ticket, svcs: seq<Service>, ok: Oracle, i: nat): AddState
    requires i <= |svcs|
    decreases |svcs| - i
  {
    if i == |svcs| || st.failed then st
    else AddFrom(AddOne(st, view, t, svcs[i], ok, i), view, t, svcs, ok, i + 1)
  }

  function AddLoop(users: Users, view: View, t: Ticket, svcs: seq<Service>, ok: Oracle): AddState {
    AddFrom(AddState(users, [], map[], false), view, t, svcs, ok, 0)
  }

  /** One step of the add's rollback: failures are skipped. */
  function UndoAddOne(users: Users, view: View, t: Ticket, svc: Service, rpc: Answer): Users {
    match Dial(view, svc)
    case None => users
    case Some(addr) =>
      var r := AlterRemove(users, SlotAt(t, addr), rpc);
      if r.Some? then r.value else users
  }

  function UndoAddFrom(users: Users, view: View, t: Ticket, done: seq<Service>, ok: Oracle, j: nat): Users
    requires j <= |done|
    decreases |done| - j
  {
    if j == |done| then users
    else UndoAddFrom(UndoAddOne(users, view, t, done[j], ok(UndoAddRpc(j))), view, t, done, ok, j + 1)
  }

  datatype AddResult = Added(users: Users, nodes: NodeList) | AddFailed(users: Users)

  /** addUserToV2raySvcList: the loop, the write of the rebuilt node list, and the rollback if either fails. */
  function AddUser(users: Users, view: View, t: Ticket, svcs: seq<Service>, ok: Oracle): AddResult {
    var st := AddLoop(users, view, t, svcs, ok);
    if st.failed || ok(UpdateNodeList) != Fine then AddFailed(UndoAddFrom(st.users, view, t, st.done, ok, 0))
    else Added(st.users, st.nodes)
  }

  // --- removing ---

  /** The recorded services in the order the removal visits them. */
  function Recorded(nodes: NodeList, order: seq<string>): seq<NodeInfo> {
    if order == [] then []
    else (if order[0] in nodes then nodes[order[0]].info else []) + Recorded(nodes, order[1..])
  }

  datatype RemoveState = RemoveState(users: Users, done: seq<Service>, failed: bool)

  /** One iteration of the removal. */
  function RemoveOne(st: RemoveState, view: View, t: Ticket, info: NodeInfo, ok: Oracle, i: nat): RemoveState {
    var svc := ServiceNamed(view.services, info.svcName);
    if ok(GetService(i)) != Fine || svc.None? then st.(failed := true)
    else
      match Dial(view, svc.value)
      case None => st.(failed := true)
      case Some(addr) =>
        match AlterRemove(st.users, SlotAt(t, addr), ok(RemoveRpc(i)))
        case None => st.(failed := true)
        case Some(users) => RemoveState(users, st.done + [svc.value], false)
  }

  function RemoveFrom(st: RemoveState, view: View, t: Ticket, infos: seq<NodeInfo>, ok: Oracle, i: nat): RemoveState
    requires i <= |infos|
    decreases |infos| - i
  {
    if i == |infos| || st.failed then st
    else RemoveFrom(RemoveOne(st, view, t, infos[i], ok, i), view, t, infos, ok, i + 1)
  }

  function RemoveLoop(users: Users, view: View, t: Ticket, infos: seq<NodeInfo>, ok: Oracle): RemoveState {
    RemoveFrom(RemoveState(users, [], false), view, t, infos, ok, 0)
  }

  function UndoRemoveOne(users: Users, view: View, t: Ticket, svc: Service, rpc: Answer): Users {
    match Dial(view, svc)
    case None => users
    case Some(addr) =>
      var r := AlterAdd(users, SlotAt(t, addr), t.member, rpc);
      if r.Some? then r.value else users
  }

  function UndoRemoveFrom(users: Users, view: View, t: Ticket, done: seq<Service>, ok: Oracle, j: nat): Users
    requires j <= |done|
    decreases |done| - j
  {
    if j == |done| then users
    else UndoRemoveFrom(UndoRemoveOne(users, view, t, done[j], ok(UndoRemoveRpc(j))), view, t, done, ok, j + 1)
  }

  /** doFinalizerOperationsForV2rayUser: the removal, undone if any entry fails. */
  function RemoveUser(users: Users, view: View, t: Ticket, infos: seq<NodeInfo>, ok: Oracle): RemoveState {
    var st := RemoveLoop(users, view, t, infos, ok);
    if st.failed then st.(users := UndoRemoveFrom(st.users, view, t, st.done, ok, 0)) else st
  }

  // --- exact effect of the add ---

  /** The slots the user would occupy on the services of a list. */
  function Slots(view: View, t: Ticket, svcs: seq<Service>): set<Slot> {
    set s | s in svcs && Dial(view, s).Some? :: SlotAt(t, Dial(view, s).value)
  }

  /** The tables with the user added wherever it is missing. */
  function Enrol(users: Users, slots: set<Slot>, member: Member): Users {
    map s | s in users.Keys + slots :: if s in users then users[s] else member
  }

  lemma SlotsExtend(view: View, t: Ticket, svcs: seq<Service>, i: nat)
    requires i < |svcs|
    ensures Slots(view, t, svcs[..i + 1]) == Slots(view, t, svcs[..i]) + Slots(view, t, [svcs[i]])
  {
    assert svcs[..i + 1] == svcs[..i] + [svcs[i]];
  }

  lemma SlotsOne(view: View, t: Ticket, svc: Service)
    ensures Slots(view, t, [svc]) == if Dial(view, svc).Some? then {SlotAt(t, Dial(view, svc).value)} else {}
  {
    assert svc in [svc];
  }

  /** Did the RPC of service `k` go through? */
  predicate RpcDone(view: View, svcs: seq<Service>, ok: Oracle, k: nat) {
    k < |svcs| && Dial(view, svcs[k]).Some? && ok(AddRpc(k)) == Fine
  }

  /** The services whose RPC went through before the loop stopped, given that the first `k` were completed. */
  function Reached(view: View, svcs: seq<Service>, ok: Oracle, k: nat): seq<Service>
    requires k <= |svcs|
  {
    if RpcDone(view, svcs, ok, k) then svcs[..k + 1] else svcs[..k]
  }

  lemma EnrolOneMore(users: Users, slots: set<Slot>, slot: Slot, member: Member)
    ensures AlterAdd(Enrol(users, slots, member), slot, member, Fine) == Some(Enrol(users, slots + {slot}, member))
  {
    var one := AlterAdd(Enrol(users, slots, member), slot, member, Fine).value;
    assert one == Enrol(users, slots + {slot}, member);
  }

  predicate Ready(view: View, svcs: seq<Service>, n: nat) {
    n <= |svcs| && forall j | 0 <= j < n :: Dial(view, svcs[j]).Some? && InfoOf(view, svcs[j]).Some?
  }

  /** Where the add loop can stop: after completing a prefix of the services, with the user added wherever an RPC
      went through. */
  ghost predicate AddStopped(end: AddState, users: Users, view: View, t: Ticket, svcs: seq<Service>, ok: Oracle) {
    && |end.done| <= |svcs|
    && end.done == svcs[..|end.done|]
    && end.users == Enrol(users, Slots(view, t, Reached(view, svcs, ok, |end.done|)), t.member)
    && (end.failed <==> |end.done| < |svcs|)
    && Ready(view, svcs, |end.done|)
  }

  ghost predicate AddRunning(st: AddState, users: Users, view: View, t: Ticket, svcs: seq<Service>, i: nat) {
    && Ready(view, svcs, i)
    && !st.failed
    && st.done == svcs[..i]
    && st.users == Enrol(users, Slots(view, t, svcs[..i]), t.member)
  }

  lemma AddOneExact(st: AddState, users: Users, view: View, t: Ticket, svcs: seq<Service>, ok: Oracle, i: nat)
    requires i < |svcs| && AddRunning(st, users, view, t, svcs, i)
    ensures var next := AddOne(st, view, t, svcs[i], ok, i);
            if next.failed then AddStopped(next, users, view, t, svcs, ok)
            else AddRunning(next, users, view, t, svcs, i + 1)
  {
    if RpcDone(view, svcs, ok, i) {
      var slots, slot := Slots(view, t, svcs[..i]), SlotAt(t, Dial(view, svcs[i]).value);
      SlotsExtend(view, t, svcs, i);
      SlotsOne(view, t, svcs[i]);
      EnrolOneMore(users, slots, slot, t.member);
      AddOneLooksUp(st, Enrol(users, slots + {slot}, t.member), view, t, svcs, ok, i);
    } else {
      assert AddOne(st, view, t, svcs[i], ok, i) == st.(failed := true);
    }
  }

  /** An iteration whose RPC went through: the lookups decide whether the service counts as completed. */
  lemma AddOneLooksUp(st: AddState, next: Users, view: View, t: Ticket, svcs: seq<Service>, ok: Oracle, i: nat)
    requires i < |svcs| && st.done == svcs[..i] && !st.failed
    requires RpcDone(view, svcs, ok, i)
    requires AlterAdd(st.users, SlotAt(t, Dial(view, svcs[i]).value), t.member, Fine) == Some(next)
    ensures var end := AddOne(st, view, t, svcs[i], ok, i);
            && end.users == next
            && (end.failed <==> !LookupsAnswer(ok, i) || InfoOf(view, svcs[i]).None?)
            && end.done == if end.failed then svcs[..i] else svcs[..i + 1]
  {
    assert svcs[..i] + [svcs[i]] == svcs[..i + 1];
  }

  lemma {:induction false} AddFromExact(st: AddState, users: Users, view: View, t: Ticket, svcs: seq<Service>,
                                        ok: Oracle, i: nat)
    requires i <= |svcs|
    requires if st.failed then AddStopped(st, users, view, t, svcs, ok) else AddRunning(st, users, view, t, svcs, i)
    ensures AddStopped(AddFrom(st, view, t, svcs, ok, i), users, view, t, svcs, ok)
    decreases |svcs| - i
  {
    if i < |svcs| && !st.failed {
      AddOneExact(st, users, view, t, svcs, ok, i);
      AddFromExact(AddOne(st, view, t, svcs[i], ok, i), users, view, t, svcs, ok, i + 1);
    }
  }

  /** How many services the loop completed before it stopped. */
  function Completed(users: Users, view: View, t: Ticket, svcs: seq<Service>, ok: Oracle): nat {
    |AddLoop(users, view, t, svcs, ok).done|
  }

  lemma AddLoopExact(users: Users, view: View, t: Ticket, svcs: seq<Service>, ok: Oracle)
    ensures AddStopped(AddLoop(users, view, t, svcs, ok), users, view, t, svcs, ok)
  {
    assert Slots(view, t, svcs[..0]) == {};
    assert Enrol(users, {}, t.member) == users;
    AddFromExact(AddState(users, [], map[], false), users, view, t, svcs, ok, 0);
  }

  predicate UndoAddWorks(ok: Oracle, n: nat) {
    forall j: nat | j < n :: ok(UndoAddRpc(j)) == Fine
  }

  lemma UndoAddOneExact(users: Users, view: View, t: Ticket, svc: Service, rpc: Answer)
    ensures UndoAddOne(users, view, t, svc, rpc) == users - if rpc == Fine then Slots(view, t, [svc]) else {}
  {
    SlotsOne(view, t, svc);
  }

  /** The slots the rollback takes away from entry `j` on: those whose RPC works. */
  function Undone(view: View, t: Ticket, done: seq<Service>, ok: Oracle, j: nat): set<Slot> {
    set i | j <= i < |done| && ok(UndoAddRpc(i)) == Fine && Dial(view, done[i]).Some?
      :: SlotAt(t, Dial(view, done[i]).value)
  }

  lemma UndoneFirst(view: View, t: Ticket, done: seq<Service>, ok: Oracle, j: nat)
    requires j < |done|
    ensures Undone(view, t, done, ok, j) ==
            (if ok(UndoAddRpc(j)) == Fine then Slots(view, t, [done[j]]) else {}) + Undone(view, t, done, ok, j + 1)
  {
    SlotsOne(view, t, done[j]);
  }

  lemma UndoneSlots(view: View, t: Ticket, done: seq<Service>, ok: Oracle)
    ensures Undone(view, t, done, ok, 0) <= Slots(view, t, done)
    ensures UndoAddWorks(ok, |done|) ==> Undone(view, t, done, ok, 0) == Slots(view, t, done)
  {
    if UndoAddWorks(ok, |done|) {
      forall s | s in Slots(view, t, done)
        ensures s in Undone(view, t, done, ok, 0)
      {
        var x :| x in done && Dial(view, x).Some? && s == SlotAt(t, Dial(view, x).value);
        var i :| 0 <= i < |done| && done[i] == x;
        assert ok(UndoAddRpc(i)) == Fine;
      }
    }
  }

  /** Whatever its RPCs answer, the rollback takes away exactly the slots of its list whose RPC works. */
  lemma {:induction false} UndoAddExact(users: Users, view: View, t: Ticket, done: seq<Service>, ok: Oracle, j: nat)
    requires j <= |done|
    ensures UndoAddFrom(users, view, t, done, ok, j) == users - Undone(view, t, done, ok, j)
    decreases |done| - j
  {
    if j < |done| {
      var next := UndoAddOne(users, view, t, done[j], ok(UndoAddRpc(j)));
      UndoAddOneExact(users, view, t, done[j], ok(UndoAddRpc(j)));
      UndoneFirst(view, t, done, ok, j);
      UndoAddExact(next, view, t, done, ok, j + 1);
      DropTwice(users, if ok(UndoAddRpc(j)) == Fine then Slots(view, t, [done[j]]) else {},
                Undone(view, t, done, ok, j + 1));
    } else {
      assert Undone(view, t, done, ok, j) == {};
    }
  }

  lemma DropTwice(users: Users, a: set<Slot>, b: set<Slot>)
    ensures (users - a) - b == users - (a + b)
  {
  }

  /** Add rollback, exact: if the add fails after completing `k` services, the tables are those with the user added
      wherever an RPC went through, less every slot of a completed service whose rollback RPC works - whether or not the
      user was there before the call. */
  lemma AddRollbackExact(users: Users, view: View, t: Ticket, svcs: seq<Service>, ok: Oracle)
    requires AddUser(users, view, t, svcs, ok).AddFailed?
    ensures var k := Completed(users, view, t, svcs, ok);
            && k <= |svcs|
            && AddUser(users, view, t, svcs, ok).users ==
               Enrol(users, Slots(view, t, Reached(view, svcs, ok, k)), t.member) - Undone(view, t, svcs[..k], ok, 0)
            && (UndoAddWorks(ok, k) ==> Undone(view, t, svcs[..k], ok, 0) == Slots(view, t, svcs[..k]))
  {
    AddLoopExact(users, view, t, svcs, ok);
    var st := AddLoop(users, view, t, svcs, ok);
    UndoAddExact(st.users, view, t, st.done, ok, 0);
    UndoneSlots(view, t, st.done, ok);
  }

  lemma EnrolThenDropIff(users: Users, slots: set<Slot>, gone: set<Slot>, member: Member)
    ensures Enrol(users, slots, member) - gone == users <==> gone !! users.Keys && slots <= users.Keys + gone
  {
    var end := Enrol(users, slots, member) - gone;
    assert end.Keys == users.Keys + slots - gone;
    if gone !! users.Keys && slots <= users.Keys + gone {
      assert end.Keys == users.Keys;
    }
  }

  /** Add rollback, when it restores: exactly when what it takes away did not hold the user before, and whatever the add
      reached did, or is taken away. A user that was already served by a completed service is evicted: the add counted
      it as added. */
  lemma AddRollbackRestoresIff(users: Users, view: View, t: Ticket, svcs: seq<Service>, ok: Oracle)
    requires AddUser(users, view, t, svcs, ok).AddFailed?
    ensures var k := Completed(users, view, t, svcs, ok);
            && k <= |svcs|
            && var gone := Undone(view, t, svcs[..k], ok, 0);
               AddUser(users, view, t, svcs, ok).users == users <==>
                 gone !! users.Keys && Slots(view, t, Reached(view, svcs, ok, k)) <= users.Keys + gone
  {
    AddRollbackExact(users, view, t, svcs, ok);
    var k := Completed(users, view, t, svcs, ok);
    EnrolThenDropIff(users, Slots(view, t, Reached(view, svcs, ok, k)), Undone(view, t, svcs[..k], ok, 0), t.member);
  }

  /** The same when every rollback RPC works: no completed service held the user before, and the service the loop
      stopped at, if its RPC went through, held the user or shares a server with a completed one. */
  lemma WorkingRollbackRestoresIff(users: Users, view: View, t: Ticket, svcs: seq<Service>, ok: Oracle)
    requires AddUser(users, view, t, svcs, ok).AddFailed?
    requires UndoAddWorks(ok, |svcs|)
    ensures var k := Completed(users, view, t, svcs, ok);
            && k <= |svcs|
            && (AddUser(users, view, t, svcs, ok).users == users <==>
                 && Slots(view, t, svcs[..k]) !! users.Keys
                 && (RpcDone(view, svcs, ok, k) ==>
                       Slots(view, t, [svcs[k]]) <= users.Keys + Slots(view, t, svcs[..k])))
  {
    AddRollbackExact(users, view, t, svcs, ok);
    AddRollbackRestoresIff(users, view, t, svcs, ok);
    var k := Completed(users, view, t, svcs, ok);
    if RpcDone(view, svcs, ok, k) {
      SlotsExtend(view, t, svcs, k);
    }
  }

  /** No two services of the list are reached at the same address. */
  ghost predicate DistinctServers(view: View, svcs: seq<Service>) {
    forall i, j | 0 <= i < j < |svcs| :: Dial(view, svcs[i]).None? || Dial(view, svcs[i]) != Dial(view, svcs[j])
  }

  /** The case the rollback was written for: nobody holds the user and no two services share a server. Then every
      table but that of the failing service is as before, and that one holds the user exactly when its RPC went
      through. A failure before that RPC, or at the final write, restores everything. */
  lemma AddRollbackFresh(users: Users, view: View, t: Ticket, svcs: seq<Service>, ok: Oracle)
    requires AddUser(users, view, t, svcs, ok).AddFailed?
    requires UndoAddWorks(ok, |svcs|)
    requires Slots(view, t, svcs) !! users.Keys
    requires DistinctServers(view, svcs)
    ensures var k := Completed(users, view, t, svcs, ok);
            && k <= |svcs|
            && AddUser(users, view, t, svcs, ok).users ==
               if RpcDone(view, svcs, ok, k) then users[SlotAt(t, Dial(view, svcs[k]).value) := t.member] else users
  {
    AddRollbackExact(users, view, t, svcs, ok);
    FreshLeft(users, view, t, svcs, ok, Completed(users, view, t, svcs, ok));
  }

  lemma FreshLeft(users: Users, view: View, t: Ticket, svcs: seq<Service>, ok: Oracle, k: nat)
    requires k <= |svcs| && DistinctServers(view, svcs) && Slots(view, t, svcs) !! users.Keys
    ensures Enrol(users, Slots(view, t, Reached(view, svcs, ok, k)), t.member) - Slots(view, t, svcs[..k]) ==
            if RpcDone(view, svcs, ok, k) then users[SlotAt(t, Dial(view, svcs[k]).value) := t.member] else users
  {
    var gone := Slots(view, t, svcs[..k]);
    SlotsOfPrefix(view, t, svcs, k);
    if RpcDone(view, svcs, ok, k) {
      SlotsExtend(view, t, svcs, k);
      SlotsOne(view, t, svcs[k]);
      SlotNotInPrefix(view, t, svcs, k);
      var slot := SlotAt(t, Dial(view, svcs[k]).value);
      EnrolThenDrop(users, gone, {slot}, t.member);
      EnrolOne(users, slot, t.member);
    } else {
      EnrolThenDrop(users, gone, {}, t.member);
      assert gone + {} == gone && Enrol(users, {}, t.member) == users;
    }
  }

  lemma EnrolOne(users: Users, slot: Slot, member: Member)
    requires slot !in users
    ensures Enrol(users, {slot}, member) == users[slot := member]
  {
  }

  lemma EnrolThenDrop(users: Users, gone: set<Slot>, extra: set<Slot>, member: Member)
    requires gone !! users.Keys && gone !! extra
    ensures Enrol(users, gone + extra, member) - gone == Enrol(users, extra, member)
  {
    assert (Enrol(users, gone + extra, member) - gone).Keys == Enrol(users, extra, member).Keys;
  }

  lemma SlotsOfPrefix(view: View, t: Ticket, svcs: seq<Service>, k: nat)
    requires k <= |svcs|
    ensures Slots(view, t, svcs[..k]) <= Slots(view, t, svcs)
  {
    assert forall s | s in svcs[..k] :: s in svcs;
  }

  lemma SlotNotInPrefix(view: View, t: Ticket, svcs: seq<Service>, k: nat)
    requires k < |svcs| && Dial(view, svcs[k]).Some?
    requires DistinctServers(view, svcs)
    ensures SlotAt(t, Dial(view, svcs[k]).value) in Slots(view, t, svcs)
    ensures SlotAt(t, Dial(view, svcs[k]).value) !in Slots(view, t, svcs[..k])
  {
    assert svcs[k] in svcs;
  }

  /** A successful add: every service is reachable and holds the user, nothing else changed. */
  lemma AddSucceedsExact(users: Users, view: View, t: Ticket, svcs: seq<Service>, ok: Oracle)
    requires AddUser(users, view, t, svcs, ok).Added?
    ensures AddUser(users, view, t, svcs, ok).users == Enrol(users, Slots(view, t, svcs), t.member)
    ensures forall s | s in svcs :: Dial(view, s).Some? && InfoOf(view, s).Some?
  {
    AddLoopExact(users, view, t, svcs, ok);
    assert svcs[..|svcs|] == svcs;
  }

  /** Service `i` can be added and recorded. */
  predicate Works(view: View, svc: Service, ok: Oracle, i: nat) {
    && Dial(view, svc).Some? && ok(AddRpc(i)) == Fine
    && ok(ListDeployments(i)) == Fine && ok(ListPods(i)) == Fine && ok(GetNode(i)) == Fine
    && InfoOf(view, svc).Some?
  }

  lemma {:induction false} AddFromStops(st: AddState, view: View, t: Ticket, svcs: seq<Service>, ok: Oracle, i: nat)
    requires i == |st.done| <= |svcs| && !st.failed
    requires forall j | 0 <= j < i :: Works(view, svcs[j], ok, j)
    ensures var end := AddFrom(st, view, t, svcs, ok, i);
            var k := |end.done|;
            && k <= |svcs| && (end.failed <==> k < |svcs|)
            && (forall j | 0 <= j < k :: Works(view, svcs[j], ok, j))
            && (k < |svcs| ==> !Works(view, svcs[k], ok, k))
    decreases |svcs| - i
  {
    if i < |svcs| {
      AddOneStops(st, view, t, svcs[i], ok, i);
      var next := AddOne(st, view, t, svcs[i], ok, i);
      if next.failed {
        assert AddFrom(st, view, t, svcs, ok, i) == next;
      } else {
        AddFromStops(next, view, t, svcs, ok, i + 1);
      }
    }
  }

  lemma AddOneStops(st: AddState, view: View, t: Ticket, svc: Service, ok: Oracle, i: nat)
    requires !st.failed
    ensures var next := AddOne(st, view, t, svc, ok, i);
            && (next.failed <==> !Works(view, svc, ok, i))
            && next.done == if next.failed then st.done else st.done + [svc]
  {
  }

  /** The loop completes the services before the first one that cannot be added and recorded, and fails if there is
      one - whoever holds the user already. */
  lemma CompletedIsFirstObstacle(users: Users, view: View, t: Ticket, svcs: seq<Service>, ok: Oracle)
    ensures var k := Completed(users, view, t, svcs, ok);
            && k <= |svcs|
            && (AddLoop(users, view, t, svcs, ok).failed <==> k < |svcs|)
            && (forall j | 0 <= j < k :: Works(view, svcs[j], ok, j))
            && (k < |svcs| ==> !Works(view, svcs[k], ok, k))
  {
    AddFromStops(AddState(users, [], map[], false), view, t, svcs, ok, 0);
  }

  /** The add succeeds exactly when every service can be added and recorded and the node list is written. */
  lemma AddSucceedsIff(users: Users, view: View, t: Ticket, svcs: seq<Service>, ok: Oracle)
    ensures AddUser(users, view, t, svcs, ok).Added?
       <==> ok(UpdateNodeList) == Fine && forall j | 0 <= j < |svcs| :: Works(view, svcs[j], ok, j)
  {
    CompletedIsFirstObstacle(users, view, t, svcs, ok);
  }

  lemma AddWithoutFaults(users: Users, view: View, t: Ticket, svcs: seq<Service>, ok: Oracle)
    requires forall c :: ok(c) == Fine
    ensures AddUser(users, view, t, svcs, ok).Added?
       <==> forall s | s in svcs :: Dial(view, s).Some? && InfoOf(view, s).Some?
  {
    AddSucceedsIff(users, view, t, svcs, ok);
    if forall j | 0 <= j < |svcs| :: Works(view, svcs[j], ok, j) {
      assert AddUser(users, view, t, svcs, ok).Added?;
      forall s | s in svcs
        ensures Dial(view, s).Some? && InfoOf(view, s).Some?
      {
        var j :| 0 <= j < |svcs| && svcs[j] == s;
        assert Works(view, svcs[j], ok, j);
      }
    }
  }

  // --- what the add records ---

  /** The records of a list of services, one each, in order. */
  function Infos(view: View, svcs: seq<Service>): seq<NodeInfo>
    requires forall s | s in svcs :: InfoOf(view, s).Some?
  {
    seq(|svcs|, i requires 0 <= i < |svcs| => InfoOf(view, svcs[i]).value)
  }

  /** The node list the add should build: one entry per service, filed under the service's region, in list order. */
  ghost predicate FilesAll(nodes: NodeList, view: View, svcs: seq<Service>)
    requires forall s | s in svcs :: InfoOf(view, s).Some?
  {
    && (forall r :: r in nodes <==> exists s :: s in svcs && RegionOf(s) == r)
    && (forall r | r in nodes :: nodes[r] == RegionNodes(0, Infos(view, OfRegion(svcs, r))))
  }

  /** Like InRegion, with a missing label read as the empty string. */
  function OfRegion(svcs: seq<Service>, r: string): (part: seq<Service>)
    ensures forall s | s in part :: s in svcs
  {
    if svcs == [] then []
    else (if RegionOf(svcs[0]) == r then [svcs[0]] else []) + OfRegion(svcs[1..], r)
  }

  lemma {:induction false} OfRegionIsInRegion(svcs: seq<Service>, r: string)
    requires forall s | s in svcs :: HasRegion(s, RegionOf(s))
    ensures OfRegion(svcs, r) == InRegion(svcs, r)
  {
    if svcs != [] {
      assert svcs[0] in svcs;
      OfRegionIsInRegion(svcs[1..], r);
    }
  }

  lemma {:induction false} OfRegionSnoc(svcs: seq<Service>, s: Service, r: string)
    ensures OfRegion(svcs + [s], r) == OfRegion(svcs, r) + if RegionOf(s) == r then [s] else []
  {
    if svcs == [] {
      assert svcs + [s] == [s] && [s][1..] == [];
    } else {
      var head := if RegionOf(svcs[0]) == r then [svcs[0]] else [];
      var last := if RegionOf(s) == r then [s] else [];
      assert (svcs + [s])[1..] == svcs[1..] + [s];
      OfRegionSnoc(svcs[1..], s, r);
      assert head + (OfRegion(svcs[1..], r) + last) == (head + OfRegion(svcs[1..], r)) + last;
    }
  }

  lemma FileFilesOneMore(nodes: NodeList, view: View, svcs: seq<Service>, s: Service)
    requires forall x | x in svcs + [s] :: InfoOf(view, x).Some?
    requires forall x | x in svcs :: InfoOf(view, x).Some?
    requires FilesAll(nodes, view, svcs)
    ensures FilesAll(File(nodes, RegionOf(s), InfoOf(view, s).value), view, svcs + [s])
  {
    var next := File(nodes, RegionOf(s), InfoOf(view, s).value);
    forall r
      ensures r in next <==> exists x :: x in svcs + [s] && RegionOf(x) == r
    {
      if r in nodes {
        var x :| x in svcs && RegionOf(x) == r;
        assert x in svcs + [s];
      }
      if r == RegionOf(s) {
        assert s in svcs + [s];
      }
    }
    forall r | r in next
      ensures next[r] == RegionNodes(0, Infos(view, OfRegion(svcs + [s], r)))
    {
      if r !in nodes {
        NoneOfRegion(svcs, r);
      }
      InfosOneMore(view, svcs, s, r);
    }
  }

  lemma InfosOneMore(view: View, svcs: seq<Service>, s: Service, r: string)
    requires forall x | x in svcs + [s] :: InfoOf(view, x).Some?
    requires forall x | x in svcs :: InfoOf(view, x).Some?
    ensures Infos(view, OfRegion(svcs + [s], r)) ==
            Infos(view, OfRegion(svcs, r)) + if RegionOf(s) == r then [InfoOf(view, s).value] else []
  {
    assert s in svcs + [s];
    OfRegionSnoc(svcs, s, r);
  }

  lemma {:induction false} NoneOfRegion(svcs: seq<Service>, r: string)
    requires forall s | s in svcs :: RegionOf(s) != r
    ensures OfRegion(svcs, r) == []
  {
    if svcs != [] {
      assert svcs[0] in svcs;
      NoneOfRegion(svcs[1..], r);
    }
  }

  lemma AddOneFiles(st: AddState, view: View, t: Ticket, svcs: seq<Service>, ok: Oracle, i: nat)
    requires i < |svcs|
    requires forall s | s in svcs :: InfoOf(view, s).Some?
    requires FiledSoFar(st.nodes, view, svcs, i)
    requires !AddOne(st, view, t, svcs[i], ok, i).failed
    ensures FiledSoFar(AddOne(st, view, t, svcs[i], ok, i).nodes, view, svcs, i + 1)
  {
    AddOneNext(st, view, t, svcs[i], ok, i);
    FiledOneMore(st.nodes, view, svcs, i);
  }

  lemma FiledOneMore(nodes: NodeList, view: View, svcs: seq<Service>, i: nat)
    requires i < |svcs|
    requires forall s | s in svcs :: InfoOf(view, s).Some?
    requires FiledSoFar(nodes, view, svcs, i)
    ensures FiledSoFar(File(nodes, RegionOf(svcs[i]), InfoOf(view, svcs[i]).value), view, svcs, i + 1)
  {
    assert svcs[..i + 1] == svcs[..i] + [svcs[i]];
    FileFilesOneMore(nodes, view, svcs[..i], svcs[i]);
  }

  lemma AddOneNext(st: AddState, view: View, t: Ticket, svc: Service, ok: Oracle, i: nat)
    requires !AddOne(st, view, t, svc, ok, i).failed
    ensures InfoOf(view, svc).Some?
    ensures AddOne(st, view, t, svc, ok, i).nodes == File(st.nodes, RegionOf(svc), InfoOf(view, svc).value)
  {
  }

  ghost predicate FiledSoFar(nodes: NodeList, view: View, svcs: seq<Service>, i: nat)
    requires i <= |svcs|
    requires forall s | s in svcs :: InfoOf(view, s).Some?
  {
    assert forall s | s in svcs[..i] :: s in svcs;
    FilesAll(nodes, view, svcs[..i])
  }

  lemma {:induction false} AddFromFiles(st: AddState, view: View, t: Ticket, svcs: seq<Service>, ok: Oracle, i: nat)
    requires i <= |svcs|
    requires forall s | s in svcs :: InfoOf(view, s).Some?
    requires !st.failed && FiledSoFar(st.nodes, view, svcs, i)
    requires !AddFrom(st, view, t, svcs, ok, i).failed
    ensures FilesAll(AddFrom(st, view, t, svcs, ok, i).nodes, view, svcs)
    decreases |svcs| - i
  {
    if i == |svcs| {
      assert svcs[..i] == svcs;
    } else {
      AddOneFiles(st, view, t, svcs, ok, i);
      AddFromFiles(AddOne(st, view, t, svcs[i], ok, i), view, t, svcs, ok, i + 1);
    }
  }

  /** After a successful add over any list of services the node list has one record per service and no others, each
      under its service's own region. */
  lemma AddRecordsAll(users: Users, view: View, t: Ticket, svcs: seq<Service>, ok: Oracle)
    requires AddUser(users, view, t, svcs, ok).Added?
    ensures forall s | s in svcs :: InfoOf(view, s).Some?
    ensures FilesAll(AddUser(users, view, t, svcs, ok).nodes, view, svcs)
  {
    AddSucceedsExact(users, view, t, svcs, ok);
    AddFromFiles(AddState(users, [], map[], false), view, t, svcs, ok, 0);
  }

  /** A node list is determined by the services it files. */
  lemma FilesAllUnique(a: NodeList, b: NodeList, view: View, svcs: seq<Service>)
    requires forall s | s in svcs :: InfoOf(view, s).Some?
    requires FilesAll(a, view, svcs) && FilesAll(b, view, svcs)
    ensures a == b
  {
    assert a.Keys == b.Keys;
  }

  /** What is recorded depends on the services alone: two successful adds of one list record the same, whoever held the
      user before and whatever account is sent. */
  lemma RecordsAgree(users: Users, users': Users, view: View, t: Ticket, t': Ticket, svcs: seq<Service>,
                     ok: Oracle, ok': Oracle)
    requires AddUser(users, view, t, svcs, ok).Added? && AddUser(users', view, t', svcs, ok').Added?
    ensures AddUser(users, view, t, svcs, ok).nodes == AddUser(users', view, t', svcs, ok').nodes
  {
    AddRecordsAll(users, view, t, svcs, ok);
    AddRecordsAll(users', view, t', svcs, ok');
    FilesAllUnique(AddUser(users, view, t, svcs, ok).nodes, AddUser(users', view, t', svcs, ok').nodes, view, svcs);
  }

  /** A service without the region label is recorded under the empty name. */
  lemma UnlabelledRecord(users: Users, view: View, t: Ticket, svcs: seq<Service>, ok: Oracle, svc: Service)
    requires AddUser(users, view, t, svcs, ok).Added? && svc in svcs && "v2ray.hdcjh.xyz/region" !in svc.labels
    ensures "" in AddUser(users, view, t, svcs, ok).nodes
  {
    AddRecordsAll(users, view, t, svcs, ok);
    assert RegionOf(svc) == "";
  }

  // --- exact effect of the removal ---

  predicate UndoRemoveWorks(ok: Oracle, n: nat) {
    forall j: nat | j < n :: ok(UndoRemoveRpc(j)) == Fine
  }

  /** Where the removal can be after `n` entries: it has taken `n` distinct slots, all of which held the user. */
  ghost predicate Removed(st: RemoveState, users: Users, view: View, t: Ticket, infos: seq<NodeInfo>) {
    && |st.done| <= |infos|
    && NamedAs(view, infos[..|st.done|], st.done)
    && Slots(view, t, st.done) <= users.Keys
    && |Slots(view, t, st.done)| == |st.done|
    && st.users == users - Slots(view, t, st.done)
  }

  /** `svcs` are the services the records name, each of them reachable. */
  ghost predicate NamedAs(view: View, infos: seq<NodeInfo>, svcs: seq<Service>) {
    && |infos| == |svcs|
    && forall j | 0 <= j < |svcs| ::
         ServiceNamed(view.services, infos[j].svcName) == Some(svcs[j]) && Dial(view, svcs[j]).Some?
  }

  lemma NamedAsSnoc(view: View, infos: seq<NodeInfo>, svcs: seq<Service>, svc: Service)
    requires |svcs| < |infos| && NamedAs(view, infos[..|svcs|], svcs)
    requires ServiceNamed(view.services, infos[|svcs|].svcName) == Some(svc) && Dial(view, svc).Some?
    ensures NamedAs(view, infos[..|svcs| + 1], svcs + [svc])
  {
  }

  lemma RemoveOneExact(st: RemoveState, users: Users, view: View, t: Ticket, infos: seq<NodeInfo>, ok: Oracle)
    requires !st.failed && |st.done| < |infos| && Removed(st, users, view, t, infos)
    ensures var next := RemoveOne(st, view, t, infos[|st.done|], ok, |st.done|);
            && Removed(next, users, view, t, infos)
            && |next.done| == |st.done| + (if next.failed then 0 else 1)
  {
    var i := |st.done|;
    var next := RemoveOne(st, view, t, infos[i], ok, i);
    if !next.failed {
      var svc := ServiceNamed(view.services, infos[i].svcName).value;
      var slot := SlotAt(t, Dial(view, svc).value);
      assert next.done == st.done + [svc] && next.users == st.users - {slot} && slot in st.users;
      NamedAsSnoc(view, infos, st.done, svc);
      SlotsSnoc(view, t, st.done, svc);
      SlotsOne(view, t, svc);
      DropOneMore(users, Slots(view, t, st.done), slot);
    }
  }

  lemma SlotsSnoc(view: View, t: Ticket, svcs: seq<Service>, svc: Service)
    ensures Slots(view, t, svcs + [svc]) == Slots(view, t, svcs) + Slots(view, t, [svc])
  {
  }

  lemma DropOneMore(users: Users, slots: set<Slot>, slot: Slot)
    requires slot in users - slots
    ensures (users - slots) - {slot} == users - (slots + {slot})
    ensures |slots + {slot}| == |slots| + 1
  {
  }

  lemma {:induction false} RemoveFromExact(st: RemoveState, users: Users, view: View, t: Ticket, infos: seq<NodeInfo>,
                                           ok: Oracle, i: nat)
    requires i <= |infos|
    requires Removed(st, users, view, t, infos)
    requires if st.failed then |st.done| < |infos| else |st.done| == i
    ensures var end := RemoveFrom(st, view, t, infos, ok, i);
            Removed(end, users, view, t, infos) && (end.failed <==> |end.done| < |infos|)
    decreases |infos| - i
  {
    if i < |infos| && !st.failed {
      RemoveOneExact(st, users, view, t, infos, ok);
      RemoveFromExact(RemoveOne(st, view, t, infos[i], ok, i), users, view, t, infos, ok, i + 1);
    }
  }

  lemma RemoveLoopExact(users: Users, view: View, t: Ticket, infos: seq<NodeInfo>, ok: Oracle)
    ensures var end := RemoveLoop(users, view, t, infos, ok);
            Removed(end, users, view, t, infos) && (end.failed <==> |end.done| < |infos|)
  {
    assert Slots(view, t, []) == {};
    assert users - {} == users;
    RemoveFromExact(RemoveState(users, [], false), users, view, t, infos, ok, 0);
  }

  /** The slots the rollback gives back from entry `j` on: those whose RPC works. */
  function Redone(view: View, t: Ticket, done: seq<Service>, ok: Oracle, j: nat): set<Slot> {
    set i | j <= i < |done| && ok(UndoRemoveRpc(i)) == Fine && Dial(view, done[i]).Some?
      :: SlotAt(t, Dial(view, done[i]).value)
  }

  lemma RedoneFirst(view: View, t: Ticket, done: seq<Service>, ok: Oracle, j: nat)
    requires j < |done|
    ensures Redone(view, t, done, ok, j) ==
            (if ok(UndoRemoveRpc(j)) == Fine then Slots(view, t, [done[j]]) else {}) + Redone(view, t, done, ok, j + 1)
  {
    SlotsOne(view, t, done[j]);
  }

  lemma RedoneSlots(view: View, t: Ticket, done: seq<Service>, ok: Oracle)
    ensures Redone(view, t, done, ok, 0) <= Slots(view, t, done)
    ensures UndoRemoveWorks(ok, |done|) ==> Redone(view, t, done, ok, 0) == Slots(view, t, done)
  {
    if UndoRemoveWorks(ok, |done|) {
      forall s | s in Slots(view, t, done)
        ensures s in Redone(view, t, done, ok, 0)
      {
        var x :| x in done && Dial(view, x).Some? && s == SlotAt(t, Dial(view, x).value);
        var i :| 0 <= i < |done| && done[i] == x;
        assert ok(UndoRemoveRpc(i)) == Fine;
      }
    }
  }

  lemma UndoRemoveOneExact(users: Users, view: View, t: Ticket, svc: Service, rpc: Answer)
    ensures UndoRemoveOne(users, view, t, svc, rpc) ==
            Enrol(users, if rpc == Fine then Slots(view, t, [svc]) else {}, t.member)
  {
    SlotsOne(view, t, svc);
    assert Enrol(users, {}, t.member) == users;
    if rpc == Fine && Dial(view, svc).Some? {
      EnrolOneMore(users, {}, SlotAt(t, Dial(view, svc).value), t.member);
    }
  }

  /** Whatever its RPCs answer, the rollback gives the object's own member to exactly the slots of its list whose RPC
      works and that lack one. */
  lemma {:induction false} UndoRemoveExact(users: Users, view: View, t: Ticket, done: seq<Service>, ok: Oracle, j: nat)
    requires j <= |done|
    ensures UndoRemoveFrom(users, view, t, done, ok, j) == Enrol(users, Redone(view, t, done, ok, j), t.member)
    decreases |done| - j
  {
    if j < |done| {
      var next := UndoRemoveOne(users, view, t, done[j], ok(UndoRemoveRpc(j)));
      UndoRemoveOneExact(users, view, t, done[j], ok(UndoRemoveRpc(j)));
      RedoneFirst(view, t, done, ok, j);
      UndoRemoveExact(next, view, t, done, ok, j + 1);
      EnrolTwice(users, if ok(UndoRemoveRpc(j)) == Fine then Slots(view, t, [done[j]]) else {},
                 Redone(view, t, done, ok, j + 1), t.member);
    } else {
      assert Redone(view, t, done, ok, j) == {};
      assert Enrol(users, {}, t.member) == users;
    }
  }

  lemma EnrolTwice(users: Users, a: set<Slot>, b: set<Slot>, member: Member)
    ensures Enrol(Enrol(users, a, member), b, member) == Enrol(users, a + b, member)
  {
    var twice := Enrol(Enrol(users, a, member), b, member);
    assert twice.Keys == Enrol(users, a + b, member).Keys;
  }

  /** The slots of the recorded services, as far as their names lead to a server. */
  function RecordedSlots(view: View, t: Ticket, infos: seq<NodeInfo>): set<Slot> {
    set x | x in infos && ServiceNamed(view.services, x.svcName).Some?
            && Dial(view, ServiceNamed(view.services, x.svcName).value).Some?
      :: SlotAt(t, Dial(view, ServiceNamed(view.services, x.svcName).value).value)
  }

  /** A successful removal takes the user from every recorded service and changes nothing else; every record led to
      a server of its own that held the user. */
  lemma RemoveSucceedsExact(users: Users, view: View, t: Ticket, infos: seq<NodeInfo>, ok: Oracle)
    requires !RemoveUser(users, view, t, infos, ok).failed
    ensures RemoveUser(users, view, t, infos, ok).users == users - RecordedSlots(view, t, infos)
    ensures RecordedSlots(view, t, infos) <= users.Keys
    ensures |RecordedSlots(view, t, infos)| == |infos|
    ensures forall x | x in infos :: ServiceNamed(view.services, x.svcName).Some?
                                     && Dial(view, ServiceNamed(view.services, x.svcName).value).Some?
  {
    RemoveLoopExact(users, view, t, infos, ok);
    assert infos[..|infos|] == infos;
    SlotsOfNamed(view, t, infos, RemoveLoop(users, view, t, infos, ok).done);
  }

  lemma SlotsOfNamed(view: View, t: Ticket, infos: seq<NodeInfo>, svcs: seq<Service>)
    requires NamedAs(view, infos, svcs)
    ensures RecordedSlots(view, t, infos) == Slots(view, t, svcs)
  {
    forall s | s in Slots(view, t, svcs)
      ensures s in RecordedSlots(view, t, infos)
    {
      var j :| 0 <= j < |svcs| && Dial(view, svcs[j]).Some? && s == SlotAt(t, Dial(view, svcs[j]).value);
      assert infos[j] in infos;
    }
    forall s | s in RecordedSlots(view, t, infos)
      ensures s in Slots(view, t, svcs)
    {
      var x :| x in infos && ServiceNamed(view.services, x.svcName).Some?
               && Dial(view, ServiceNamed(view.services, x.svcName).value).Some?
               && s == SlotAt(t, Dial(view, ServiceNamed(view.services, x.svcName).value).value);
      var j :| 0 <= j < |infos| && infos[j] == x;
      assert svcs[j] in svcs;
    }
  }

  /** A failed removal leaves the tables as they were exactly when its rollback gave back every slot it had taken, and
      each of them had carried the object's own member - for every order of the records, repeated names included. When
      the rollback RPCs work it gives all of them back. */
  lemma RemoveRollbackRestoresIff(users: Users, view: View, t: Ticket, infos: seq<NodeInfo>, ok: Oracle)
    requires RemoveUser(users, view, t, infos, ok).failed
    ensures var end := RemoveUser(users, view, t, infos, ok);
            var taken, back := Slots(view, t, end.done), Redone(view, t, end.done, ok, 0);
            && taken <= users.Keys && |end.done| <= |infos|
            && end.users == Enrol(users - taken, back, t.member)
            && (end.users == users <==> taken <= back && forall s | s in taken :: users[s] == t.member)
            && (UndoRemoveWorks(ok, |infos|) ==> taken == back && end.users.Keys == users.Keys)
  {
    RemoveLoopExact(users, view, t, infos, ok);
    var st := RemoveLoop(users, view, t, infos, ok);
    UndoRemoveExact(st.users, view, t, st.done, ok, 0);
    RedoneSlots(view, t, st.done, ok);
    DropThenEnrol(users, Slots(view, t, st.done), Redone(view, t, st.done, ok, 0), t.member);
  }

  lemma DropThenEnrol(users: Users, taken: set<Slot>, back: set<Slot>, member: Member)
    requires back <= taken <= users.Keys
    ensures var end := Enrol(users - taken, back, member);
            && (taken == back ==> end.Keys == users.Keys)
            && (end == users <==> taken <= back && forall s | s in taken :: users[s] == member)
  {
    var end := Enrol(users - taken, back, member);
    assert end.Keys == users.Keys - taken + back;
    forall s | s in end
      ensures end[s] == if s in back then member else users[s]
    {
    }
    if taken <= back && forall s | s in taken :: users[s] == member {
      assert end.Keys == users.Keys;
      assert end == users;
    }
    if end == users {
      assert taken <= end.Keys;
    }
  }

  /** Remove is all-or-nothing: with working rollback RPCs and recorded services carrying the object's own member. */
  lemma RemoveAllOrNothing(users: Users, view: View, t: Ticket, infos: seq<NodeInfo>, ok: Oracle)
    requires UndoRemoveWorks(ok, |infos|)
    requires forall s | s in RecordedSlots(view, t, infos) && s in users :: users[s] == t.member
    ensures var end := RemoveUser(users, view, t, infos, ok);
            end.users == if end.failed then users else users - RecordedSlots(view, t, infos)
  {
    var end := RemoveUser(users, view, t, infos, ok);
    if end.failed {
      RemoveRollbackRestoresIff(users, view, t, infos, ok);
      RemoveLoopExact(users, view, t, infos, ok);
      var n := |end.done|;
      SlotsOfNamed(view, t, infos[..n], end.done);
      assert forall x | x in infos[..n] :: x in infos;
      assert RecordedSlots(view, t, infos[..n]) <= RecordedSlots(view, t, infos);
    } else {
      RemoveSucceedsExact(users, view, t, infos, ok);
    }
  }

  predicate RemoveAnswers(ok: Oracle, i: nat) {
    ok(GetService(i)) == Fine && ok(RemoveRpc(i)) == Fine
  }

  lemma {:induction false} RemoveFromAnswers(st: RemoveState, view: View, t: Ticket, infos: seq<NodeInfo>, ok: Oracle,
                                             i: nat)
    requires i <= |infos| && !RemoveFrom(st, view, t, infos, ok, i).failed
    ensures forall j | i <= j < |infos| :: RemoveAnswers(ok, j)
    decreases |infos| - i
  {
    if i < |infos| {
      RemoveFromAnswers(RemoveOne(st, view, t, infos[i], ok, i), view, t, infos, ok, i + 1);
    }
  }

  /** Record `i` can be removed: its calls are answered, its name leads to a server, and that holds the user and is not
      the server of an earlier record. */
  predicate Removable(users: Users, view: View, t: Ticket, infos: seq<NodeInfo>, ok: Oracle, i: nat)
    requires i < |infos|
  {
    var svc := ServiceNamed(view.services, infos[i].svcName);
    && RemoveAnswers(ok, i)
    && svc.Some? && Dial(view, svc.value).Some?
    && SlotAt(t, Dial(view, svc.value).value) in users
    && SlotAt(t, Dial(view, svc.value).value) !in RecordedSlots(view, t, infos[..i])
  }

  lemma RemoveOneStops(st: RemoveState, users: Users, view: View, t: Ticket, infos: seq<NodeInfo>, ok: Oracle, i: nat)
    requires i < |infos| && !st.failed && st.users == users - RecordedSlots(view, t, infos[..i])
    ensures var next := RemoveOne(st, view, t, infos[i], ok, i);
            && (next.failed <==> !Removable(users, view, t, infos, ok, i))
            && |next.done| == |st.done| + (if next.failed then 0 else 1)
            && (!next.failed ==> next.users == users - RecordedSlots(view, t, infos[..i + 1]))
  {
    var next := RemoveOne(st, view, t, infos[i], ok, i);
    if !next.failed {
      var slot := SlotAt(t, Dial(view, ServiceNamed(view.services, infos[i].svcName).value).value);
      assert infos[..i + 1] == infos[..i] + [infos[i]];
      RecordedConcat(view, t, infos[..i], [infos[i]]);
      assert RecordedSlots(view, t, [infos[i]]) == {slot};
      DropTwice(users, RecordedSlots(view, t, infos[..i]), {slot});
    }
  }

  lemma {:induction false} RemoveFromStops(st: RemoveState, users: Users, view: View, t: Ticket, infos: seq<NodeInfo>,
                                           ok: Oracle, i: nat)
    requires i == |st.done| <= |infos| && !st.failed
    requires st.users == users - RecordedSlots(view, t, infos[..i])
    requires forall j | 0 <= j < i :: Removable(users, view, t, infos, ok, j)
    ensures var end := RemoveFrom(st, view, t, infos, ok, i);
            var n := |end.done|;
            && n <= |infos| && (end.failed <==> n < |infos|)
            && (forall j | 0 <= j < n :: Removable(users, view, t, infos, ok, j))
            && (n < |infos| ==> !Removable(users, view, t, infos, ok, n))
    decreases |infos| - i
  {
    if i < |infos| {
      RemoveOneStops(st, users, view, t, infos, ok, i);
      var next := RemoveOne(st, view, t, infos[i], ok, i);
      if next.failed {
        assert RemoveFrom(st, view, t, infos, ok, i) == next;
      } else {
        RemoveFromStops(next, users, view, t, infos, ok, i + 1);
      }
    }
  }

  /** The removal passes exactly the records before the first one that cannot be removed, and fails if there is one. */
  lemma RemoveStopsAtFirstObstacle(users: Users, view: View, t: Ticket, infos: seq<NodeInfo>, ok: Oracle)
    ensures var end := RemoveUser(users, view, t, infos, ok);
            var n := |end.done|;
            && n <= |infos| && (end.failed <==> n < |infos|)
            && (forall j | 0 <= j < n :: Removable(users, view, t, infos, ok, j))
            && (n < |infos| ==> !Removable(users, view, t, infos, ok, n))
            && Slots(view, t, end.done) == RecordedSlots(view, t, infos[..n])
  {
    assert RecordedSlots(view, t, infos[..0]) == {};
    assert users - {} == users;
    RemoveFromStops(RemoveState(users, [], false), users, view, t, infos, ok, 0);
    RemoveLoopExact(users, view, t, infos, ok);
    var done := RemoveLoop(users, view, t, infos, ok).done;
    SlotsOfNamed(view, t, infos[..|done|], done);
  }

  /** The removal succeeds exactly when its calls do, every record leads to a server, no two to the same one, and each
      of them holds the user. */
  lemma RemoveSucceedsIff(users: Users, view: View, t: Ticket, infos: seq<NodeInfo>, ok: Oracle)
    ensures !RemoveUser(users, view, t, infos, ok).failed
       <==> (&& (forall j | 0 <= j < |infos| :: RemoveAnswers(ok, j))
             && (forall x | x in infos :: ServiceNamed(view.services, x.svcName).Some?
                                          && Dial(view, ServiceNamed(view.services, x.svcName).value).Some?)
             && |RecordedSlots(view, t, infos)| == |infos|
             && RecordedSlots(view, t, infos) <= users.Keys)
  {
    RemoveLoopExact(users, view, t, infos, ok);
    var st := RemoveLoop(users, view, t, infos, ok);
    if !st.failed {
      RemoveSucceedsExact(users, view, t, infos, ok);
      RemoveFromAnswers(RemoveState(users, [], false), view, t, infos, ok, 0);
    } else if && (forall j | 0 <= j < |infos| :: RemoveAnswers(ok, j))
              && (forall x | x in infos :: ServiceNamed(view.services, x.svcName).Some?
                                           && Dial(view, ServiceNamed(view.services, x.svcName).value).Some?)
              && RecordedSlots(view, t, infos) <= users.Keys {
      RemoveStopsAtRepeat(RemoveState(users, [], false), users, view, t, infos, ok, 0);
    }
  }

  lemma {:induction false} RemoveStopsAtRepeat(st: RemoveState, users: Users, view: View, t: Ticket,
                                               infos: seq<NodeInfo>, ok: Oracle, i: nat)
    requires forall j | 0 <= j < |infos| :: RemoveAnswers(ok, j)
    requires forall x | x in infos :: ServiceNamed(view.services, x.svcName).Some?
                                      && Dial(view, ServiceNamed(view.services, x.svcName).value).Some?
    requires RecordedSlots(view, t, infos) <= users.Keys
    requires i <= |infos| && !st.failed
    requires st.users == users - RecordedSlots(view, t, infos[..i])
    requires RemoveFrom(st, view, t, infos, ok, i).failed
    ensures |RecordedSlots(view, t, infos)| < |infos|
    decreases |infos| - i
  {
    var svc := ServiceNamed(view.services, infos[i].svcName).value;
    var slot := SlotAt(t, Dial(view, svc).value);
    var soFar := RecordedSlots(view, t, infos[..i]);
    assert infos[i] in infos && slot in RecordedSlots(view, t, infos);
    assert infos[..i + 1] == infos[..i] + [infos[i]];
    assert RecordedSlots(view, t, infos[..i + 1]) == soFar + {slot};
    if slot in st.users {
      assert RemoveAnswers(ok, i);
      assert RemoveOne(st, view, t, infos[i], ok, i) == RemoveState(st.users - {slot}, st.done + [svc], false);
      assert st.users - {slot} == users - (soFar + {slot});
      RemoveStopsAtRepeat(RemoveState(st.users - {slot}, st.done + [svc], false), users, view, t, infos, ok, i + 1);
    } else {
      RepeatedSlot(view, t, infos, i);
    }
  }

  lemma RepeatedSlot(view: View, t: Ticket, infos: seq<NodeInfo>, i: nat)
    requires i < |infos|
    requires RecordedSlots(view, t, [infos[i]]) <= RecordedSlots(view, t, infos[..i])
    ensures |RecordedSlots(view, t, infos)| < |infos|
  {
    var before, after := infos[..i], infos[i + 1..];
    assert infos == before + [infos[i]] + after;
    RecordedAtMost(view, t, before + after);
    assert RecordedSlots(view, t, infos) <= RecordedSlots(view, t, before + after) by {
      RecordedConcat(view, t, before, after);
      RecordedConcat(view, t, before, [infos[i]]);
      RecordedConcat(view, t, before + [infos[i]], after);
    }
    SubsetSize(RecordedSlots(view, t, infos), RecordedSlots(view, t, before + after));
  }

  lemma RecordedConcat(view: View, t: Ticket, a: seq<NodeInfo>, b: seq<NodeInfo>)
    ensures RecordedSlots(view, t, a + b) == RecordedSlots(view, t, a) + RecordedSlots(view, t, b)
  {
  }

  lemma {:induction false} RecordedAtMost(view: View, t: Ticket, infos: seq<NodeInfo>)
    ensures |RecordedSlots(view, t, infos)| <= |infos|
  {
    if infos != [] {
      RecordedAtMost(view, t, infos[1..]);
      RecordedOne(view, t, infos[0]);
      assert infos == [infos[0]] + infos[1..];
      RecordedConcat(view, t, [infos[0]], infos[1..]);
    }
  }

  lemma RecordedOne(view: View, t: Ticket, info: NodeInfo)
    ensures |RecordedSlots(view, t, [info])| <= 1
  {
    var svc := ServiceNamed(view.services, info.svcName);
    if svc.Some? && Dial(view, svc.value).Some? {
      SubsetSize(RecordedSlots(view, t, [info]), {SlotAt(t, Dial(view, svc.value).value)});
    }
  }

  lemma {:induction false} SubsetSize<T>(a: set<T>, b: set<T>)
    requires a <= b
    ensures |a| <= |b|
  {
    if a != {} {
      var x :| x in a;
      SubsetSize(a - {x}, b - {x});
    }
  }
}
