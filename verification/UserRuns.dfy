/** One reconcile pass of the V2rayUser controller as a step of a state machine, and what holds over whole runs of
    passes, failing at any call, interleaved with changes of the cluster around them. */
module UserRuns {
  import opened Kube
  import opened Election
  import opened UserSaga

  datatype V2rayUser = V2rayUser(
    id: string,
    level: int,
    email: string,
    tag: string,
    nodeList: NodeList,
    finalizer: bool,
    deleting: bool,
    conditions: Conditions)

  datatype System = System(view: View, users: Users, stored: Option<V2rayUser>)

  type Walk = set<string> -> seq<string>

  ghost predicate GoodWalk(walk: Walk) {
    forall keys :: IsWalk(walk(keys), keys)
  }

  /** What a pass cannot choose: the answers it gets, the orders in which the runtime walks maps, a fresh uuid. */
  datatype Input = Input(ok: Oracle, electOrder: Walk, removeOrder: Walk, freshId: string)

  ghost predicate GoodInput(input: Input) {
    GoodWalk(input.electOrder) && GoodWalk(input.removeOrder) && input.freshId != ""
  }

  ghost predicate ErrorFree(input: Input) {
    GoodInput(input) && forall c :: input.ok(c) == Fine
  }

  // --- one pass ---

  /** The object after a status write. */
  function Report(o: V2rayUser, answer: Answer, condition: Condition, status: Status): V2rayUser {
    if answer == Fine then o.(conditions := o.conditions[condition := status]) else o
  }

  /** Status initialisation and uuid generation; the flag says whether the pass goes on. */
  function Prepare(o: V2rayUser, input: Input): (V2rayUser, bool) {
    var blank := o.conditions == map[];
    var o1 := if blank then Report(o, input.ok(InitStatus), Available, Unknown) else o;
    if blank && (input.ok(InitStatus) != Fine || input.ok(GetAfterInit) != Fine) then (o1, false)
    else if input.ok(UpdateId) != Fine then (o1, false)
    else
      var o2 := if o1.id == "" then o1.(id := input.freshId) else o1;
      (o2, input.ok(GetAfterId) == Fine)
  }

  function TicketOf(o: V2rayUser, member: Member): Ticket {
    Ticket(o.tag, o.email, member)
  }

  /** The deletion half of a pass, once the user has been added to every elected service again. */
  function Release(s: System, o: V2rayUser, t: Ticket, input: Input): System
    requires GoodInput(input)
  {
    if input.ok(StatusFinalizing) != Fine then s.(stored := Some(o))
    else
      var o1 := Report(o, Fine, Degraded, Unknown);
      var infos := Recorded(o1.nodeList, input.removeOrder(o1.nodeList.Keys));
      var removed := RemoveUser(s.users, s.view, t, infos, input.ok);
      var s1 := s.(users := removed.users);
      if removed.failed || input.ok(GetAfterRemove) != Fine || input.ok(StatusFinalized) != Fine
      then s1.(stored := Some(o1))
      else
        var o2 := Report(o1, Fine, Degraded, IsTrue);
        // An object marked for deletion is gone once its last finalizer is.
        if input.ok(UpdateRelease) != Fine then s1.(stored := Some(o2)) else s1.(stored := None)
  }

  /** The pass once services have been elected. */
  function Serve(s: System, o: V2rayUser, svcs: seq<Service>, input: Input): System
    requires GoodInput(input)
  {
    match MemberFor(o.tag, o.id, o.level)
    case None => s.(stored := Some(Report(o, input.ok(StatusAddFailed), Available, IsFalse)))
    case Some(member) =>
      match AddUser(s.users, s.view, TicketOf(o, member), svcs, input.ok)
      case AddFailed(users) =>
        System(s.view, users, Some(Report(o, input.ok(StatusAddFailed), Available, IsFalse)))
      case Added(users, nodes) =>
        var s1 := s.(users := users);
        var o1 := o.(nodeList := nodes);
        if !o1.finalizer && input.ok(UpdateFinalizer) != Fine then s1.(stored := Some(o1))
        else
          var o2 := o1.(finalizer := true);
          if o2.deleting then Release(s1, o2, TicketOf(o, member), input)
          else s1.(stored := Some(Report(o2, input.ok(StatusAvailable), Available, IsTrue)))
  }

  /** The services a pass over this object elects. */
  function Elected(view: View, o: V2rayUser, input: Input): Option<seq<Service>>
    requires GoodInput(input)
  {
    var order := input.electOrder(o.nodeList.Keys);
    assert IsWalk(order, o.nodeList.Keys);
    Elect(view, o.nodeList, order, r => input.ok(ListServices(r)))
  }

  function Pass(s: System, input: Input): System
    requires GoodInput(input)
  {
    if s.stored.None? || input.ok(GetObject) != Fine then s
    else
      var (o, goOn) := Prepare(s.stored.value, input);
      if !goOn then s.(stored := Some(o))
      else
        match Elected(s.view, o, input)
        case None => s.(stored := Some(o))
        case Some(svcs) =>
          if svcs == [] then s.(stored := Some(Report(o, input.ok(StatusNoNode), Available, IsFalse)))
          else Serve(s, o, svcs, input)
  }

  // --- the error a pass returns ---

  function ReleaseFails(s: System, o: V2rayUser, t: Ticket, input: Input): bool
    requires GoodInput(input)
  {
    || input.ok(StatusFinalizing) != Fine
    || RemoveUser(s.users, s.view, t, Recorded(o.nodeList, input.removeOrder(o.nodeList.Keys)), input.ok).failed
    || input.ok(GetAfterRemove) != Fine || input.ok(StatusFinalized) != Fine || input.ok(UpdateRelease) != Fine
  }

  /** A failed add is no error of the pass, as long as it can be written down. */
  function ServeFails(s: System, o: V2rayUser, svcs: seq<Service>, input: Input): bool
    requires GoodInput(input)
  {
    match MemberFor(o.tag, o.id, o.level)
    case None => input.ok(StatusAddFailed) != Fine
    case Some(member) =>
      match AddUser(s.users, s.view, TicketOf(o, member), svcs, input.ok)
      case AddFailed(_) => input.ok(StatusAddFailed) != Fine
      case Added(users, nodes) =>
        if !o.finalizer && input.ok(UpdateFinalizer) != Fine then true
        else if o.deleting then ReleaseFails(s.(users := users), o.(nodeList := nodes), TicketOf(o, member), input)
        else input.ok(StatusAvailable) != Fine
  }

  /** Whether the pass returns an error, which asks for another try. */
  function PassFails(s: System, input: Input): bool
    requires GoodInput(input)
  {
    if s.stored.None? then false
    else if input.ok(GetObject) != Fine then input.ok(GetObject) != NotFound
    else
      var (o, goOn) := Prepare(s.stored.value, input);
      if !goOn then true
      else
        match Elected(s.view, o, input)
        case None => true
        case Some(svcs) => if svcs == [] then input.ok(StatusNoNode) != Fine else ServeFails(s, o, svcs, input)
  }

  // --- runs ---

  datatype Step =
    | Reconcile(input: Input)
    | MarkDeleted
    | ChangeView(view: View)
    | ChangeOthers(users: Users)
    | Create(user: V2rayUser)
    | EditAccount(id: string, level: int)

  /** An object as it is created: no finalizer, no conditions. */
  predicate IsNew(o: V2rayUser) {
    !o.finalizer && !o.deleting && o.conditions == map[]
  }

  ghost predicate GoodStep(step: Step) {
    && (step.Reconcile? ==> GoodInput(step.input))
    && (step.Create? ==> IsNew(step.user))
  }

  /** A marked object stays while it has the finalizer, and is gone at once otherwise. */
  function Mark(stored: Option<V2rayUser>): Option<V2rayUser> {
    match stored
    case None => None
    case Some(o) => if o.finalizer then Some(o.(deleting := true)) else None
  }

  function Take(s: System, step: Step): System
    requires GoodStep(step)
  {
    match step
    case Reconcile(input) => Pass(s, input)
    case MarkDeleted => s.(stored := Mark(s.stored))
    case ChangeView(view) => s.(view := view)
    case ChangeOthers(users) => s.(users := users)
    case Create(user) => if s.stored.None? then s.(stored := Some(user)) else s
    case EditAccount(id, level) =>
      if s.stored.None? then s else s.(stored := Some(s.stored.value.(id := id, level := level)))
  }

  function Run(s: System, steps: seq<Step>): System
    requires forall i | 0 <= i < |steps| :: GoodStep(steps[i])
    decreases |steps|
  {
    if steps == [] then s
    else
      var n := |steps| - 1;
      Take(Run(s, steps[..n]), steps[n])
  }

  /** Whose entries the run is about: one inbound tag and one email. */
  datatype Key = Key(tag: string, email: string)

  predicate Own(key: Key, slot: Slot) {
    slot.tag == key.tag && slot.email == key.email
  }

  /** Addresses of services do not change during a run: `net` maps a service name to where it is reached. */
  type Net = string -> Option<Addr>

  ghost predicate Agrees(view: View, net: Net) {
    forall s | s in view.services :: Dial(view, s) == net(s.name)
  }

  ghost predicate SameOwn(a: Users, b: Users, key: Key) {
    forall slot | Own(key, slot) :: (slot in a <==> slot in b) && (slot in a ==> a[slot] == b[slot])
  }

  ghost predicate SameOthers(a: Users, b: Users, key: Key) {
    forall slot | !Own(key, slot) :: (slot in a <==> slot in b) && (slot in a ==> a[slot] == b[slot])
  }

  /** The surroundings move services, labels, pods and other users' entries, create the object again once it is gone,
      and edit its id and level; only the controller touches its node list and its own entries. The one call a pass
      needs is the status write that admits a failed add. */
  ghost predicate Legal(s: System, step: Step, net: Net, key: Key) {
    match step
    case Reconcile(input) => GoodInput(input) && input.ok(StatusAddFailed) == Fine
    case MarkDeleted => true
    case ChangeView(view) => Agrees(view, net)
    case ChangeOthers(users) => SameOwn(s.users, users, key)
    case Create(user) => Key(user.tag, user.email) == key
    case EditAccount(_, _) => true
  }

  ghost predicate LegalRun(s: System, steps: seq<Step>, net: Net, key: Key)
    requires forall i | 0 <= i < |steps| :: GoodStep(steps[i])
    decreases |steps|
  {
    steps != [] ==>
      var n := |steps| - 1;
      LegalRun(s, steps[..n], net, key) && Legal(Run(s, steps[..n]), steps[n], net, key)
  }

  /** Every service the node list names is reachable and holds the user. */
  ghost predicate AllServed(users: Users, o: V2rayUser, net: Net) {
    forall r, info | r in o.nodeList && info in o.nodeList[r].info ::
      net(info.svcName).Some? && Slot(net(info.svcName).value, o.tag, o.email) in users
  }

  ghost predicate IsAvailable(o: V2rayUser) {
    Available in o.conditions && o.conditions[Available] == IsTrue
  }

  /** The run invariant: a live object that reports Available is served - whoever's account the entries carry. */
  ghost predicate Inv(s: System, net: Net, key: Key) {
    && Agrees(s.view, net)
    && (s.stored.Some? ==>
          var o := s.stored.value;
          && Key(o.tag, o.email) == key
          && (!o.deleting && IsAvailable(o) ==> AllServed(s.users, o, net)))
  }

  // --- what a pass can do to the tables ---

  /** Only entries under the ticket's tag and email change, and what appears there is the ticket's member. */
  ghost predicate Confined(before: Users, after: Users, t: Ticket) {
    && SameOthers(before, after, Key(t.tag, t.email))
    && (forall s | s in after && Own(Key(t.tag, t.email), s) ::
            (s in before && after[s] == before[s]) || after[s] == t.member)
  }

  lemma ConfinedTwice(a: Users, b: Users, c: Users, t: Ticket)
    requires Confined(a, b, t) && Confined(b, c, t)
    ensures Confined(a, c, t)
  {
  }

  lemma SlotsAreOwn(view: View, t: Ticket, svcs: seq<Service>)
    ensures forall s | s in Slots(view, t, svcs) :: Own(Key(t.tag, t.email), s)
  {
  }

  lemma EnrolConfined(users: Users, slots: set<Slot>, t: Ticket)
    requires forall s | s in slots :: Own(Key(t.tag, t.email), s)
    ensures Confined(users, Enrol(users, slots, t.member), t)
  {
  }

  lemma AddConfined(users: Users, view: View, t: Ticket, svcs: seq<Service>, ok: Oracle)
    ensures Confined(users, AddUser(users, view, t, svcs, ok).users, t)
  {
    var st := AddLoop(users, view, t, svcs, ok);
    AddLoopExact(users, view, t, svcs, ok);
    var slots := Slots(view, t, Reached(view, svcs, ok, |st.done|));
    SlotsAreOwn(view, t, Reached(view, svcs, ok, |st.done|));
    EnrolConfined(users, slots, t);
    if AddUser(users, view, t, svcs, ok).AddFailed? {
      UndoAddExact(st.users, view, t, st.done, ok, 0);
      UndoneSlots(view, t, st.done, ok);
      SlotsAreOwn(view, t, st.done);
      var end := AddUser(users, view, t, svcs, ok).users;
      assert Confined(st.users, end, t);
      ConfinedTwice(users, st.users, end, t);
    }
  }

  lemma RemoveConfined(users: Users, view: View, t: Ticket, infos: seq<NodeInfo>, ok: Oracle)
    ensures Confined(users, RemoveUser(users, view, t, infos, ok).users, t)
  {
    var st := RemoveLoop(users, view, t, infos, ok);
    RemoveLoopExact(users, view, t, infos, ok);
    SlotsAreOwn(view, t, st.done);
    assert Confined(users, st.users, t);
    if st.failed {
      UndoRemoveExact(st.users, view, t, st.done, ok, 0);
      RedoneSlots(view, t, st.done, ok);
      var end := RemoveUser(users, view, t, infos, ok).users;
      assert Confined(st.users, end, t);
      ConfinedTwice(users, st.users, end, t);
    }
  }

  lemma ServeConfined(s: System, o: V2rayUser, svcs: seq<Service>, input: Input)
    requires GoodInput(input)
    ensures SameOthers(s.users, Serve(s, o, svcs, input).users, Key(o.tag, o.email))
    ensures match MemberFor(o.tag, o.id, o.level)
            case None => Serve(s, o, svcs, input).users == s.users
            case Some(member) => Confined(s.users, Serve(s, o, svcs, input).users, TicketOf(o, member))
  {
    match MemberFor(o.tag, o.id, o.level) {
      case None =>
      case Some(member) =>
        var t := TicketOf(o, member);
        AddConfined(s.users, s.view, t, svcs, input.ok);
        var r := AddUser(s.users, s.view, t, svcs, input.ok);
        if r.Added? && o.deleting {
          var infos := Recorded(r.nodes, input.removeOrder(r.nodes.Keys));
          RemoveConfined(r.users, s.view, t, infos, input.ok);
          ConfinedTwice(s.users, r.users, RemoveUser(r.users, s.view, t, infos, input.ok).users, t);
        }
    }
  }

  /** The object with nothing but its node list, finalizer and conditions changed, the finalizer never taken off. */
  predicate Later(o: V2rayUser, o': V2rayUser) {
    && o'.id == o.id && o'.level == o.level && o'.email == o.email && o'.tag == o.tag && o'.deleting == o.deleting
    && (o.finalizer ==> o'.finalizer)
  }

  lemma ReleaseShape(s: System, o: V2rayUser, t: Ticket, input: Input)
    requires GoodInput(input)
    ensures Release(s, o, t, input).view == s.view
    ensures Release(s, o, t, input).stored.Some? ==> Later(o, Release(s, o, t, input).stored.value)
  {
  }

  /** What `Serve` can store: a later form of the object, or nothing. */
  lemma ServeShape(s: System, o: V2rayUser, svcs: seq<Service>, input: Input)
    requires GoodInput(input)
    ensures Serve(s, o, svcs, input).view == s.view
    ensures Serve(s, o, svcs, input).stored.Some? ==> Later(o, Serve(s, o, svcs, input).stored.value)
  {
    match MemberFor(o.tag, o.id, o.level) {
      case None =>
      case Some(member) =>
        match AddUser(s.users, s.view, TicketOf(o, member), svcs, input.ok) {
          case AddFailed(users) =>
          case Added(users, nodes) =>
            ReleaseShape(s.(users := users), o.(nodeList := nodes, finalizer := true), TicketOf(o, member), input);
        }
    }
  }

  lemma PrepareKeeps(o: V2rayUser, input: Input)
    requires input.freshId != ""
    ensures var (o1, goOn) := Prepare(o, input);
            && o1.(id := o.id, conditions := o.conditions) == o
            && (o.id != "" ==> o1.id == o.id)
            && (goOn ==> o1.id != "")
            && (IsAvailable(o1) <==> IsAvailable(o))
  {
  }

  /** Isolation of one pass, whatever fails in it: entries under another email or another tag stay as they are. */
  lemma {:induction false} PassIsolated(s: System, input: Input, key: Key)
    requires GoodInput(input)
    requires s.stored.Some? ==> Key(s.stored.value.tag, s.stored.value.email) == key
    ensures SameOthers(s.users, Pass(s, input).users, key)
    ensures Pass(s, input).stored.Some?
      ==> Key(Pass(s, input).stored.value.tag, Pass(s, input).stored.value.email) == key
  {
    if s.stored.Some? && input.ok(GetObject) == Fine {
      var (o, goOn) := Prepare(s.stored.value, input);
      PrepareKeeps(s.stored.value, input);
      var svcs := Elected(s.view, o, input);
      if goOn && svcs.Some? && svcs.value != [] {
        ServeConfined(s, o, svcs.value, input);
        ServeShape(s, o, svcs.value, input);
      }
    }
  }

  /** Isolation over whole runs: as long as nobody else edits other users, no sequence of passes - failed adds, failed
      removals and both rollbacks included - changes an entry under another email or another tag. */
  lemma {:induction false} RunIsolated(s: System, steps: seq<Step>, key: Key)
    requires forall i | 0 <= i < |steps| :: GoodStep(steps[i]) && !steps[i].ChangeOthers?
    requires forall i | 0 <= i < |steps| && steps[i].Create? :: Key(steps[i].user.tag, steps[i].user.email) == key
    requires s.stored.Some? ==> Key(s.stored.value.tag, s.stored.value.email) == key
    ensures SameOthers(s.users, Run(s, steps).users, key)
    ensures Run(s, steps).stored.Some?
      ==> Key(Run(s, steps).stored.value.tag, Run(s, steps).stored.value.email) == key
    decreases |steps|
  {
    if steps != [] {
      var n := |steps| - 1;
      RunIsolated(s, steps[..n], key);
      if steps[n].Reconcile? {
        PassIsolated(Run(s, steps[..n]), steps[n].input, key);
      }
    }
  }

  // --- the run invariant ---

  /** A list of services that was added successfully is served, and the list recorded for it says so. */
  lemma RecordedAreServed(users: Users, view: View, t: Ticket, svcs: seq<Service>, ok: Oracle, o: V2rayUser, net: Net)
    requires AddUser(users, view, t, svcs, ok).Added?
    requires forall s | s in svcs :: s in view.services
    requires Agrees(view, net)
    requires o.nodeList == AddUser(users, view, t, svcs, ok).nodes && o.tag == t.tag && o.email == t.email
    ensures AllServed(AddUser(users, view, t, svcs, ok).users, o, net)
  {
    AddSucceedsExact(users, view, t, svcs, ok);
    AddRecordsAll(users, view, t, svcs, ok);
    var added := AddUser(users, view, t, svcs, ok).users;
    forall r, info | r in o.nodeList && info in o.nodeList[r].info
      ensures net(info.svcName).Some? && Slot(net(info.svcName).value, o.tag, o.email) in added
    {
      var svc := FiledFor(o.nodeList, view, svcs, r, info);
      assert info.svcName == svc.name && Dial(view, svc) == net(svc.name);
      assert SlotAt(t, Dial(view, svc).value) in Slots(view, t, svcs);
    }
  }

  /** Every record was filed for one of the services. */
  lemma FiledFor(nodes: NodeList, view: View, svcs: seq<Service>, r: string, x: NodeInfo) returns (svc: Service)
    requires forall s | s in svcs :: InfoOf(view, s).Some?
    requires FilesAll(nodes, view, svcs)
    requires r in nodes && x in nodes[r].info
    ensures svc in svcs && InfoOf(view, svc) == Some(x)
  {
    var part := OfRegion(svcs, r);
    var j :| 0 <= j < |part| && Infos(view, part)[j] == x;
    svc := part[j];
  }

  /** When `Serve` leaves a live object available, its node list is the one the add recorded. */
  lemma ServeAvailable(s: System, o: V2rayUser, svcs: seq<Service>, input: Input)
    requires GoodInput(input) && input.ok(StatusAddFailed) == Fine && !o.deleting
    requires var end := Serve(s, o, svcs, input).stored; end.Some? && IsAvailable(end.value)
    ensures var member := MemberFor(o.tag, o.id, o.level);
            && member.Some?
            && (var r := AddUser(s.users, s.view, TicketOf(o, member.value), svcs, input.ok);
                && r.Added?
                && Serve(s, o, svcs, input).users == r.users
                && Serve(s, o, svcs, input).stored.value.nodeList == r.nodes)
  {
  }

  lemma ServeKeepsInv(s: System, o: V2rayUser, svcs: seq<Service>, input: Input, net: Net, key: Key)
    requires GoodInput(input) && input.ok(StatusAddFailed) == Fine
    requires Inv(s.(stored := Some(o)), net, key)
    requires forall x | x in svcs :: x in s.view.services
    ensures Inv(Serve(s, o, svcs, input), net, key)
  {
    ServeShape(s, o, svcs, input);
    var end := Serve(s, o, svcs, input);
    if end.stored.Some? && !o.deleting && IsAvailable(end.stored.value) {
      ServeAvailable(s, o, svcs, input);
      var t := TicketOf(o, MemberFor(o.tag, o.id, o.level).value);
      RecordedAreServed(s.users, s.view, t, svcs, input.ok, end.stored.value, net);
    }
  }

  lemma {:induction false} PassKeepsInv(s: System, input: Input, net: Net, key: Key)
    requires GoodInput(input) && input.ok(StatusAddFailed) == Fine
    requires Inv(s, net, key)
    ensures Inv(Pass(s, input), net, key)
  {
    if s.stored.Some? && input.ok(GetObject) == Fine {
      var (o, goOn) := Prepare(s.stored.value, input);
      PrepareKeeps(s.stored.value, input);
      assert Inv(s.(stored := Some(o)), net, key);
      var svcs := Elected(s.view, o, input);
      if goOn && svcs.Some? && svcs.value != [] {
        ElectMembers(s.view, o.nodeList, input.electOrder(o.nodeList.Keys), r => input.ok(ListServices(r)));
        ServeKeepsInv(s, o, svcs.value, input, net, key);
      }
    }
  }

  /** The invariant holds along every legal run, whatever else fails, deletions and re-creations included. */
  lemma {:induction false} RunKeepsInv(s: System, steps: seq<Step>, net: Net, key: Key)
    requires Inv(s, net, key)
    requires forall i | 0 <= i < |steps| :: GoodStep(steps[i])
    requires LegalRun(s, steps, net, key)
    ensures Inv(Run(s, steps), net, key)
    decreases |steps|
  {
    if steps != [] {
      var n := |steps| - 1;
      RunKeepsInv(s, steps[..n], net, key);
      var mid := Run(s, steps[..n]);
      match steps[n] {
        case Reconcile(input) => PassKeepsInv(mid, input, net, key);
        case MarkDeleted =>
        case ChangeView(_) =>
        case ChangeOthers(_) =>
        case Create(_) =>
        case EditAccount(_, _) =>
      }
    }
  }

  /** Along every run, over any tables, from no object, a new one, or any other that does not falsely report Available:
      while the object is not marked for deletion and reports Available, every service its stored node list names is
      reachable and holds the user. */
  lemma {:induction false} AvailableMeansServed(s: System, steps: seq<Step>, net: Net, key: Key)
    requires Agrees(s.view, net)
    requires s.stored.Some? ==> Key(s.stored.value.tag, s.stored.value.email) == key
    requires (s.stored.Some? && !s.stored.value.deleting && IsAvailable(s.stored.value))
             ==> AllServed(s.users, s.stored.value, net)
    requires forall i | 0 <= i < |steps| :: GoodStep(steps[i])
    requires LegalRun(s, steps, net, key)
    ensures var end := Run(s, steps);
            (end.stored.Some? && !end.stored.value.deleting && IsAvailable(end.stored.value))
            ==> AllServed(end.users, end.stored.value, net)
  {
    RunKeepsInv(s, steps, net, key);
  }

  // --- whose account the entries carry ---

  /** The steps of one life of an object: nobody edits it, creates it again, or touches its entries. Passes may fail at
      any call. */
  ghost predicate Undisturbed(s: System, steps: seq<Step>, key: Key)
    requires forall i | 0 <= i < |steps| :: GoodStep(steps[i])
    decreases |steps|
  {
    steps != [] ==>
      var n := |steps| - 1;
      && Undisturbed(s, steps[..n], key)
      && !steps[n].Create? && !steps[n].EditAccount?
      && (steps[n].ChangeOthers? ==> SameOwn(Run(s, steps[..n]).users, steps[n].users, key))
  }

  /** Every entry under the key is one the tables `start` had, unchanged, or carries the object's own level and
      account. */
  ghost predicate OwnOrOld(start: Users, s: System, key: Key) {
    s.stored.Some? ==>
      var o := s.stored.value;
      && Key(o.tag, o.email) == key
      && forall slot | slot in s.users && Own(key, slot) ::
           || (slot in start && s.users[slot] == start[slot])
           || (o.id != "" && MemberFor(o.tag, o.id, o.level) == Some(s.users[slot]))
  }

  lemma ServeKeepsOwnOrOld(start: Users, s: System, o: V2rayUser, svcs: seq<Service>, input: Input, key: Key)
    requires GoodInput(input) && o.id != "" && OwnOrOld(start, s.(stored := Some(o)), key)
    ensures OwnOrOld(start, Serve(s, o, svcs, input), key)
  {
    ServeConfined(s, o, svcs, input);
    ServeShape(s, o, svcs, input);
  }

  lemma PassKeepsOwnOrOld(start: Users, s: System, input: Input, key: Key)
    requires GoodInput(input) && OwnOrOld(start, s, key)
    ensures OwnOrOld(start, Pass(s, input), key)
  {
    if s.stored.Some? && input.ok(GetObject) == Fine {
      var (o, goOn) := Prepare(s.stored.value, input);
      PrepareKeeps(s.stored.value, input);
      assert OwnOrOld(start, s.(stored := Some(o)), key);
      var svcs := Elected(s.view, o, input);
      if goOn && svcs.Some? && svcs.value != [] {
        ServeKeepsOwnOrOld(start, s, o, svcs.value, input, key);
      }
    }
  }

  /** Over one life of an object, from any tables: every entry of the user is one that was there at the beginning,
      unchanged, or carries the object's own level and account. */
  lemma {:induction false} EntriesAreOwnOrOld(s: System, steps: seq<Step>, key: Key)
    requires s.stored.Some? ==> Key(s.stored.value.tag, s.stored.value.email) == key
    requires forall i | 0 <= i < |steps| :: GoodStep(steps[i])
    requires Undisturbed(s, steps, key)
    ensures OwnOrOld(s.users, Run(s, steps), key)
    decreases |steps|
  {
    if steps != [] {
      var n := |steps| - 1;
      EntriesAreOwnOrOld(s, steps[..n], key);
      if steps[n].Reconcile? {
        PassKeepsOwnOrOld(s.users, Run(s, steps[..n]), steps[n].input, key);
      }
    }
  }

  /** The case without old entries: a new object, nothing under its key on any server, and one life. While it is not
      marked for deletion and reports Available, every recorded service holds the user with the object's own level and
      account. */
  lemma {:induction false} NewUserServedAsItself(s: System, steps: seq<Step>, net: Net, key: Key)
    requires Agrees(s.view, net)
    requires s.stored.Some? && IsNew(s.stored.value) && Key(s.stored.value.tag, s.stored.value.email) == key
    requires forall slot | slot in s.users :: !Own(key, slot)
    requires forall i | 0 <= i < |steps| :: GoodStep(steps[i])
    requires LegalRun(s, steps, net, key) && Undisturbed(s, steps, key)
    ensures var end := Run(s, steps);
            end.stored.Some? && !end.stored.value.deleting && IsAvailable(end.stored.value) ==>
              var o := end.stored.value;
              && AllServed(end.users, o, net)
              && forall slot | slot in end.users && Own(key, slot) ::
                   Some(end.users[slot]) == MemberFor(o.tag, o.id, o.level)
  {
    AvailableMeansServed(s, steps, net, key);
    EntriesAreOwnOrOld(s, steps, key);
  }

  /** A marked object that is still stored has the finalizer, along every run. */
  lemma {:induction false} MarkedHasFinalizer(s: System, steps: seq<Step>)
    requires s.stored.Some? && s.stored.value.deleting ==> s.stored.value.finalizer
    requires forall i | 0 <= i < |steps| :: GoodStep(steps[i])
    ensures var end := Run(s, steps).stored; end.Some? && end.value.deleting ==> end.value.finalizer
    decreases |steps|
  {
    if steps != [] {
      var n := |steps| - 1;
      MarkedHasFinalizer(s, steps[..n]);
      if steps[n].Reconcile? {
        PassKeepsFinalizer(Run(s, steps[..n]), steps[n].input);
      }
    }
  }

  lemma PassKeepsFinalizer(s: System, input: Input)
    requires GoodInput(input) && (s.stored.Some? && s.stored.value.deleting ==> s.stored.value.finalizer)
    ensures var end := Pass(s, input).stored; end.Some? && end.value.deleting ==> end.value.finalizer
  {
    if s.stored.Some? && input.ok(GetObject) == Fine {
      var (o, goOn) := Prepare(s.stored.value, input);
      PrepareKeeps(s.stored.value, input);
      var svcs := Elected(s.view, o, input);
      if goOn && svcs.Some? {
        ServeShape(s, o, svcs.value, input);
      }
    }
  }

  /** Why the status write matters: if it fails after a failed add, the object goes on reporting Available, and that is
      still true exactly when no recorded service shares a server with one the rollback took the user from - with
      working rollback RPCs, one the add had completed. */
  lemma UnreportedFailure(s: System, input: Input, net: Net, key: Key, svcs: seq<Service>, member: Member)
    requires GoodInput(input) && Inv(s, net, key)
    requires s.stored.Some? && IsAvailable(s.stored.value) && !s.stored.value.deleting
    requires input.ok(GetObject) == Fine && Prepare(s.stored.value, input).1
    requires Elected(s.view, Prepare(s.stored.value, input).0, input) == Some(svcs) && svcs != []
    requires var o := Prepare(s.stored.value, input).0;
             && MemberFor(o.tag, o.id, o.level) == Some(member)
             && AddUser(s.users, s.view, TicketOf(o, member), svcs, input.ok).AddFailed?
    requires input.ok(StatusAddFailed) != Fine
    ensures var o := Prepare(s.stored.value, input).0;
            var t := TicketOf(o, member);
            var k := Completed(s.users, s.view, t, svcs, input.ok);
            var end := Pass(s, input);
            && k <= |svcs|
            && end.stored == Some(o) && IsAvailable(o)
            && (AllServed(end.users, o, net) <==>
                 forall r, info | r in o.nodeList && info in o.nodeList[r].info ::
                   net(info.svcName).Some?
                   && Slot(net(info.svcName).value, o.tag, o.email) !in Undone(s.view, t, svcs[..k], input.ok, 0))
            && (UndoAddWorks(input.ok, k) ==> Undone(s.view, t, svcs[..k], input.ok, 0) == Slots(s.view, t, svcs[..k]))
  {
    var o := Prepare(s.stored.value, input).0;
    PrepareKeeps(s.stored.value, input);
    var t := TicketOf(o, member);
    AddRollbackExact(s.users, s.view, t, svcs, input.ok);
    var k := Completed(s.users, s.view, t, svcs, input.ok);
    var end := Pass(s, input);
    assert end.users == AddUser(s.users, s.view, t, svcs, input.ok).users;
    assert AllServed(s.users, o, net);
    forall r, info | r in o.nodeList && info in o.nodeList[r].info
      ensures net(info.svcName).Some?
      ensures var slot := Slot(net(info.svcName).value, o.tag, o.email);
              slot in end.users <==> slot !in Undone(s.view, t, svcs[..k], input.ok, 0)
    {
    }
  }
}
