/** Concrete inputs on which the code does not do what one would expect of it. */
module Examples {
  import opened Kube
  import opened Election
  import opened UserSaga
  import opened UserRuns
  import opened UserLifecycle
  import Base64
  import Utf8
  import Json
  import Subscription
  import Handlers

  const REGION := "us"
  const EMAIL := "me@a.org"
  const TAG := "ws+vless"
  const APP: Labels := map["app" := "v2ray"]

  function Server(name: string, host: string, ports: seq<Port>): Service {
    Service(name, map["v2ray.hdcjh.xyz/enable" := "true", "v2ray.hdcjh.xyz/region" := REGION], host, ports, APP)
  }

  function Cluster(testEnv: bool, services: seq<Service>): View {
    View(testEnv, services, [Deployment(APP, APP)], [Pod(APP, "node")], map["node" := "192.0.2.1"])
  }

  const FIRST := Server("first", "10.0.0.1", [Port("grpc", 10085)])
  const SECOND := Server("second", "10.0.0.2", [Port("grpc", 10085)])
  const PORTLESS := Server("portless", "10.0.0.3", [Port("http", 80)])

  const FIRST_ADDR := Addr("10.0.0.1", 10085)
  const SECOND_ADDR := Addr("10.0.0.2", 10085)

  const FIRST_RECORD := NodeInfo("node", "192.0.2.1", 443, "first")

  lemma ServersWork(view: View)
    requires view == Cluster(view.testEnv, view.services)
    ensures InfoOf(view, FIRST) == Some(FIRST_RECORD) && InfoOf(view, SECOND).Some?
    ensures !view.testEnv ==> Dial(view, FIRST) == Some(FIRST_ADDR) && Dial(view, SECOND) == Some(SECOND_ADDR)
    ensures view.testEnv ==> Dial(view, FIRST).Some? && Dial(view, FIRST) == Dial(view, SECOND)
    ensures Dial(view, PORTLESS).None?
  {
    assert MatchingDeployments(view.deployments, APP) == [Deployment(APP, APP)];
    assert MatchingPods(view.pods, APP) == [Pod(APP, "node")];
  }

  lemma TagIsVless(id: string, level: int)
    ensures MemberFor(TAG, id, level) == Some(Member(level % 0x1_0000_0000, Vless(id)))
  {
    assert TAG[1..] == "s+vless" && TAG[1..][1..] == "+vless" && TAG[1..][1..][1..] == "vless";
    assert Contains(TAG[1..][1..], "vless");
  }

  // --- two services of one region are elected ---

  lemma BothListed(view: View, a: Service, b: Service)
    requires view.services == [a, b]
    requires IsEnabled(a) && IsEnabled(b) && HasRegion(a, REGION) && HasRegion(b, REGION)
    ensures Listed(view, REGION) == [a, b]
  {
    var one, two := [b], [a, b];
    assert one[1..] == [] && two[1..] == one;
    assert Enabled(one) == one && InRegion(one, REGION) == one;
    assert Enabled(two) == two && InRegion(two, REGION) == two;
  }

  lemma RegionIsLower()
    ensures Lower(REGION) == REGION
  {
    assert Lower("s") == "s" && REGION[1..] == "s";
  }

  lemma FirstTwoEqual(s: seq<string>, x: string)
    requires |s| > 1 && forall i | 0 <= i < |s| :: s[i] == x
    ensures s[0] == s[1]
  {
  }

  lemma WalkOfOne(order: seq<string>)
    requires IsWalk(order, {REGION})
    ensures order == [REGION]
  {
    assert REGION in order;
    forall i | 0 <= i < |order|
      ensures order[i] == REGION
    {
      assert order[i] in order;
      assert order[i] in {REGION};
    }
    if |order| > 1 {
      FirstTwoEqual(order, REGION);
      assert false;
    }
  }

  lemma BothElected(view: View, a: Service, b: Service, o: V2rayUser, input: Input)
    requires GoodInput(input) && forall r :: input.ok(ListServices(r)) == Fine
    requires o.nodeList.Keys == {REGION} && o.nodeList[REGION].size == 2
    requires view.services == [a, b]
    requires IsEnabled(a) && IsEnabled(b) && HasRegion(a, REGION) && HasRegion(b, REGION)
    ensures Elected(view, o, input) == Some([a, b])
  {
    BothListed(view, a, b);
    RegionIsLower();
    var order := input.electOrder(o.nodeList.Keys);
    assert IsWalk(order, o.nodeList.Keys);
    WalkOfOne(order);
    var lists := r => input.ok(ListServices(r));
    assert order[1..] == [];
    var rest := Elect(view, o.nodeList, order[1..], lists);
    assert rest == Some([]);
    assert Prefix([a, b], 2) == [a, b];
    assert [a, b] + rest.value == [a, b];
  }

  // --- a failed add takes a served user off its server ---

  /** A user served by the first server, after its owner raised the count to two. */
  function Served(id: string): V2rayUser {
    V2rayUser(id, 0, EMAIL, TAG, map[REGION := RegionNodes(2, [FIRST_RECORD])], true, false, map[Available := IsTrue])
  }

  const HELD := Slot(FIRST_ADDR, TAG, EMAIL)

  function Account(id: string): Member {
    Member(0, Vless(id))
  }

  /** The second server of the region has no grpc port. */
  function HalfBroken(id: string): System {
    System(Cluster(false, [FIRST, PORTLESS]), map[HELD := Account(id)], Some(Served(id)))
  }

  /** A list of two services, the second of which cannot be dialled, offered a user the first one has. */
  lemma SecondAddFails(view: View, t: Ticket, a: Service, b: Service, slot: Slot, ok: Oracle)
    requires Dial(view, a).Some? && SlotAt(t, Dial(view, a).value) == slot && InfoOf(view, a).Some?
    requires Dial(view, b).None?
    requires ok(AddRpc(0)) == Fine && LookupsAnswer(ok, 0) && ok(UndoAddRpc(0)) == ok(UndoAddRpc(1)) == Fine
    ensures AddUser(map[slot := t.member], view, t, [a, b], ok) == AddFailed(map[])
  {
    var users := map[slot := t.member];
    var svcs := [a, b];
    CompletedIsFirstObstacle(users, view, t, svcs, ok);
    assert !Works(view, svcs[1], ok, 1) && Works(view, svcs[0], ok, 0);
    AddRollbackExact(users, view, t, svcs, ok);
    assert svcs[..1] == [a];
    SlotsOne(view, t, a);
    assert Enrol(users, {slot}, t.member) - {slot} == map[];
  }

  lemma ServedElects(id: string, view: View, users: Users, a: Service, b: Service, o: V2rayUser, input: Input)
    requires GoodInput(input) && forall r :: input.ok(ListServices(r)) == Fine
    requires input.ok(GetObject) == input.ok(UpdateId) == input.ok(GetAfterId) == Fine
    requires id != "" && o.(deleting := false) == Served(id) && view.services == [a, b]
    requires IsEnabled(a) && IsEnabled(b) && HasRegion(a, REGION) && HasRegion(b, REGION)
    ensures Elects(System(view, users, Some(o)), input, o, [a, b])
    ensures MemberFor(o.tag, o.id, o.level) == Some(Account(id))
  {
    PrepareIdle(o, input);
    BothElected(view, a, b, o, input);
    TagIsVless(id, 0);
  }

  lemma EvictingAdd(view: View, t: Ticket, users: Users, ok: Oracle)
    requires view == Cluster(false, [FIRST, PORTLESS]) && t.tag == TAG && t.email == EMAIL
    requires users == map[HELD := t.member] && forall c | c != StatusAddFailed :: ok(c) == Fine
    ensures AddUser(users, view, t, [FIRST, PORTLESS], ok) == AddFailed(map[])
  {
    ServersWork(view);
    SecondAddFails(view, t, FIRST, PORTLESS, HELD, ok);
  }

  lemma EvictingPass(id: string, s: System, o: V2rayUser, input: Input)
    requires id != "" && s.view == Cluster(false, [FIRST, PORTLESS])
    requires s.users == map[HELD := Account(id)] && s.stored == Some(o) && o == Served(id)
    requires GoodInput(input) && forall c | c != StatusAddFailed :: input.ok(c) == Fine
    ensures Pass(s, input) == System(s.view, map[], Some(Report(o, input.ok(StatusAddFailed), Available, IsFalse)))
  {
    ServedElects(id, s.view, s.users, FIRST, PORTLESS, o, input);
    EvictingAdd(s.view, TicketOf(o, Account(id)), s.users, input.ok);
    FailedPass(s, input, o, [FIRST, PORTLESS], Account(id));
  }

  /** One pass without any fault: the add fails at the second server, and the rollback takes the user off the first. */
  lemma FailedAddEvicts(id: string, input: Input)
    requires id != "" && ErrorFree(input)
    ensures HalfBroken(id).users == map[HELD := Account(id)] && Pass(HalfBroken(id), input).users == map[]
  {
    EvictingPass(id, HalfBroken(id), Served(id), input);
  }

  /** The same pass with the status write failing: the object goes on reporting Available for a record that names a
      server without the user. */
  lemma AvailableButNotServed(id: string, input: Input, net: Net)
    requires id != "" && GoodInput(input) && forall c :: input.ok(c) == if c == StatusAddFailed then Broken else Fine
    ensures var end := Pass(HalfBroken(id), input);
            && end.stored == Some(Served(id)) && IsAvailable(Served(id))
            && !AllServed(end.users, Served(id), net)
  {
    EvictingPass(id, HalfBroken(id), Served(id), input);
    assert FIRST_RECORD in Served(id).nodeList[REGION].info;
  }

  // --- what is left behind by a deletion before the finalizer is stored ---

  const NEW_USER := V2rayUser("", 0, EMAIL, TAG, map[REGION := RegionNodes(2, [])], false, false, map[])
  const CLUSTER := Cluster(false, [FIRST, SECOND])
  const START := System(CLUSTER, map[], Some(NEW_USER))

  lemma StartElects(s: System, input: Input)
    requires s.view == CLUSTER && s.stored == Some(NEW_USER)
    requires GoodInput(input) && forall r :: input.ok(ListServices(r)) == Fine
    requires input.ok(GetObject) == input.ok(InitStatus) == input.ok(GetAfterInit) == Fine
    requires input.ok(UpdateId) == input.ok(GetAfterId) == Fine
    ensures var o := Prepare(NEW_USER, input).0;
            && Elects(s, input, o, [FIRST, SECOND])
            && o.id == input.freshId && o.nodeList == NEW_USER.nodeList && !o.finalizer && !o.deleting
            && o.tag == TAG && o.email == EMAIL && o.level == 0
  {
    PrepareKeeps(NEW_USER, input);
    BothElected(CLUSTER, FIRST, SECOND, Prepare(NEW_USER, input).0, input);
  }

  /** The lookups of the first service fail after the user was added to it. */
  lemma AddStopsAfterRpc(view: View, t: Ticket, a: Service, b: Service, slot: Slot, ok: Oracle)
    requires Dial(view, a).Some? && SlotAt(t, Dial(view, a).value) == slot
    requires ok(AddRpc(0)) == Fine && !LookupsAnswer(ok, 0) && UndoAddWorks(ok, 2)
    ensures AddUser(map[], view, t, [a, b], ok) == AddFailed(map[slot := t.member])
  {
    var svcs := [a, b];
    CompletedIsFirstObstacle(map[], view, t, svcs, ok);
    assert !Works(view, svcs[0], ok, 0);
    AddRollbackExact(map[], view, t, svcs, ok);
    assert svcs[..0] == [] && svcs[..1] == [a];
    SlotsOne(view, t, a);
    assert Slots(view, t, []) == {};
  }

  lemma FailingAdd(t: Ticket, ok: Oracle)
    requires t.tag == TAG && t.email == EMAIL && forall c :: ok(c) == if c == ListPods(0) then Broken else Fine
    ensures AddUser(map[], CLUSTER, t, [FIRST, SECOND], ok) == AddFailed(map[HELD := t.member])
  {
    ServersWork(CLUSTER);
    AddStopsAfterRpc(CLUSTER, t, FIRST, SECOND, HELD, ok);
  }

  lemma FailingRun(s: System, input: Input)
    requires s.view == CLUSTER && s.users == map[] && s.stored == Some(NEW_USER)
    requires GoodInput(input) && forall c :: input.ok(c) == if c == ListPods(0) then Broken else Fine
    ensures Pass(s, input).users == map[HELD := Account(input.freshId)]
    ensures Take(Take(s, Reconcile(input)), MarkDeleted) == System(s.view, map[HELD := Account(input.freshId)], None)
  {
    StartElects(s, input);
    var o := Prepare(NEW_USER, input).0;
    TagIsVless(o.id, 0);
    FailingAdd(TicketOf(o, Account(o.id)), input.ok);
    FailedPassLeaks(s, input, o, [FIRST, SECOND], Account(o.id), HELD);
  }

  /** The pods of the first server cannot be listed after the user was added to it: the user stays there, and a
      deletion request then removes the object at once. */
  lemma FailingServiceKeepsUser(input: Input)
    requires GoodInput(input) && forall c :: input.ok(c) == if c == ListPods(0) then Broken else Fine
    ensures Pass(START, input).users.Keys == {HELD}
    ensures Leaks(Take(Take(START, Reconcile(input)), MarkDeleted), Key(TAG, EMAIL))
  {
    FailingRun(START, input);
    assert Own(Key(TAG, EMAIL), HELD);
  }

  lemma BothWork(view: View, t: Ticket, ok: Oracle)
    requires view == CLUSTER && forall c | c != UpdateFinalizer :: ok(c) == Fine
    ensures AddUser(map[], view, t, [FIRST, SECOND], ok).Added?
    ensures {SlotAt(t, FIRST_ADDR), SlotAt(t, SECOND_ADDR)} <= Slots(view, t, [FIRST, SECOND])
  {
    ServersWork(view);
    AllWork(view, t, [FIRST, SECOND], ok);
    TwoSlots(view, t, FIRST, SECOND);
  }

  lemma AllWork(view: View, t: Ticket, svcs: seq<Service>, ok: Oracle)
    requires forall x | x in svcs :: Dial(view, x).Some? && InfoOf(view, x).Some?
    requires forall c | c != UpdateFinalizer :: ok(c) == Fine
    ensures AddUser(map[], view, t, svcs, ok).Added?
  {
    forall j | 0 <= j < |svcs|
      ensures Works(view, svcs[j], ok, j)
    {
      assert svcs[j] in svcs;
    }
    AddSucceedsIff(map[], view, t, svcs, ok);
  }

  lemma TwoSlots(view: View, t: Ticket, a: Service, b: Service)
    requires Dial(view, a).Some? && Dial(view, b).Some?
    ensures {SlotAt(t, Dial(view, a).value), SlotAt(t, Dial(view, b).value)} <= Slots(view, t, [a, b])
  {
    assert a in [a, b] && b in [a, b];
  }

  /** The finalizer cannot be written: the same deletion request leaves the user on both servers. */
  lemma UnwrittenFinalizerLeaks(input: Input)
    requires GoodInput(input) && forall c :: input.ok(c) == if c == UpdateFinalizer then Broken else Fine
    ensures var end := Take(Take(START, Reconcile(input)), MarkDeleted);
            end.stored.None? && {HELD, Slot(SECOND_ADDR, TAG, EMAIL)} <= end.users.Keys
  {
    StartElects(START, input);
    var o := Prepare(NEW_USER, input).0;
    TagIsVless(o.id, 0);
    var member := MemberFor(o.tag, o.id, o.level).value;
    BothWork(CLUSTER, TicketOf(o, member), input.ok);
    LeakBeforeFinalizer(START, input, o, [FIRST, SECOND], member);
  }

  // --- a deletion without faults that leaves the user on a server ---

  lemma BothServe(s: System, one: Input)
    requires ErrorFree(one) && s.view == CLUSTER && s.stored == Some(NEW_USER)
    ensures Succeeds(s, one)
    ensures Elected(CLUSTER, Prepare(NEW_USER, one).0, one) == Some([FIRST, SECOND])
  {
    ServersWork(CLUSTER);
    StartElects(s, one);
    TagIsVless(one.freshId, 0);
    LivePassReports(s, one);
  }

  /** A user asked for on two servers, added, settled, deleted without any fault: the second server keeps it. */
  lemma DeletedUserRemains(one: Input, two: Input, last: Input)
    requires ErrorFree(one) && ErrorFree(two) && ErrorFree(last)
    ensures var settled := Pass(Pass(START, one), two);
            var end := Pass(Take(settled, MarkDeleted), last);
            end.stored.None? && Slot(SECOND_ADDR, TAG, EMAIL) in end.users
  {
    BothServe(START, one);
    ServersWork(CLUSTER);
    BothListed(CLUSTER, FIRST, SECOND);
    SecondOfTwoRemains(START, one, two, last, REGION, FIRST, SECOND);
  }

  // --- a user created again ---

  /** A new object whose user the first server still holds with the account of an earlier one: a pass without any fault
      ends Available, and the server keeps the old account. */
  lemma OldAccountStays(old': string, one: Input)
    requires ErrorFree(one) && old' != one.freshId
    ensures var end := Pass(START.(users := map[HELD := Account(old')]), one);
            && end.stored.Some? && !end.stored.value.deleting && IsAvailable(end.stored.value)
            && HELD in end.users && end.users[HELD] == Account(old')
            && MemberFor(TAG, end.stored.value.id, end.stored.value.level) == Some(Account(one.freshId))
            && Account(one.freshId) != Account(old')
  {
    var s := START.(users := map[HELD := Account(old')]);
    BothServe(s, one);
    SuccessExact(s, one);
    StartElects(s, one);
    TagIsVless(one.freshId, 0);
  }

  lemma CreateAgain(gone: System, user: V2rayUser)
    requires gone.stored.None? && IsNew(user)
    ensures Take(gone, Create(user)) == gone.(stored := Some(user))
  {
  }

  /** How that comes about: the failed add of FailingServiceKeepsUser, a deletion, and the user created again. */
  lemma RecreatedUserMeetsOldEntry(input: Input, gone: System)
    requires GoodInput(input) && forall c :: input.ok(c) == if c == ListPods(0) then Broken else Fine
    requires gone == Take(Take(START, Reconcile(input)), MarkDeleted)
    ensures gone.stored.None?
    ensures Take(gone, Create(NEW_USER)) == START.(users := map[HELD := Account(input.freshId)])
  {
    FailingRun(START, input);
    CreateAgain(gone, NEW_USER);
  }

  // --- deletions that do not complete ---

  /** In the test environment two elected servers have one address, and a pass without any fault cannot delete. */
  lemma SharedAddressBlocksDeletion(id: string, users: Users, input: Input)
    requires id != "" && ErrorFree(input)
    ensures Pass(System(Cluster(true, [FIRST, SECOND]), users, Some(Served(id).(deleting := true))), input).stored.Some?
  {
    var view, o, svcs := Cluster(true, [FIRST, SECOND]), Served(id).(deleting := true), [FIRST, SECOND];
    ServersWork(view);
    ServedElects(id, view, users, FIRST, SECOND, o, input);
    SharedAddress(view, FIRST, SECOND);
    DeletionCompletesIff(System(view, users, Some(o)), input, o, svcs);
  }

  lemma SharedAddress(view: View, a: Service, b: Service)
    requires Dial(view, a).Some? && Dial(view, a) == Dial(view, b)
    ensures !DistinctServers(view, [a, b])
  {
    var svcs := [a, b];
    assert Dial(view, svcs[0]) == Dial(view, svcs[1]);
  }

  // --- other surprises ---

  /** A configuration with one inbound, applied twice to an empty server without any fault: the second time fails. */
  lemma SecondApplyFails(ok: Handlers.Answers)
    requires forall i :: ok(i) == Fine
    ensures var empty := Handlers.Table(map[], []);
            var cfg := Handlers.Config([Handlers.Handler("ws+vmess", "", true)], []);
            var once := Handlers.Apply(Handlers.Server(empty, empty), cfg, ok, ok);
            !once.failed && Handlers.Apply(once.server, cfg, ok, ok).failed
  {
    var empty := Handlers.Table(map[], []);
    var h := Handlers.Handler("ws+vmess", "", true);
    assert h in [h];
    Handlers.AddSucceedsIff(empty, [h], ok);
    Handlers.ApplyTwiceIff(Handlers.Server(empty, empty), Handlers.Config([h], []), ok, ok, ok, ok);
  }

  /** One service without a grpc port ahead of a good one, and the address of the good one is paired with it. */
  lemma SkippedServiceShiftsPairs()
    ensures Configs([PORTLESS, FIRST]) == [FIRST_ADDR]
    ensures Reachable([PORTLESS, FIRST][0]) != Some(Configs([PORTLESS, FIRST])[0])
  {
    var svcs := [PORTLESS, FIRST];
    assert svcs[1..] == [FIRST] && [FIRST][1..] == [];
    assert Port("grpc", 10085) in FIRST.ports;
    assert Configs([FIRST]) == [FIRST_ADDR];
  }

  /** A link with one ill-formed byte under a name. */
  function OneByteLink(name: Base64.Bytes, c: Base64.byte): Subscription.Link {
    Json.Obj(map[name := Json.Str([c])])
  }

  lemma OneByteText(c: Base64.byte)
    requires c >= 0xF8
    ensures !Utf8.WellFormed([c]) && Json.Quote([c]) == "\"" + Json.Unicode(0xFFFD) + "\""
  {
    assert Utf8.DecodeChar([c]) == (Utf8.REPLACEMENT, 1);
    assert [c][1..] == [] && Json.Escape([]) == [];
    assert Json.Escape([c]) == Json.Unicode(0xFFFD);
  }

  lemma OneByteLinkPrints(name: Base64.Bytes, c: Base64.byte, keys: seq<Base64.Bytes>)
    requires keys == Json.Sorted({name})
    ensures Json.Print(OneByteLink(name, c)) == "{" + Json.FieldText(name, Json.Quote([c])) + "}"
  {
    assert name in keys && |keys| > 0;
    assert forall i | 0 <= i < |keys| :: keys[i] in keys;
    assert |keys| == 1;
    Json.FieldsOne(OneByteLink(name, c), keys);
    assert OneByteLink(name, c).fields.Keys == {name};
  }

  lemma OneByteLost(name: Base64.Bytes, c: Base64.byte)
    requires c >= 0xF8
    ensures Subscription.FromLink(Subscription.ToLink(OneByteLink(name, c))) != Some(OneByteLink(name, c))
  {
    OneByteText(c);
    assert !Json.IsText(OneByteLink(name, c).fields[name]);
    Subscription.LinkRoundTrip(OneByteLink(name, c));
  }

  /** The bytes 0xFE and 0xFF under one name: different links, one printed form, and neither is read back. */
  lemma DifferentLinksPrintAlike(name: Base64.Bytes)
    ensures var a, b := OneByteLink(name, 0xFE), OneByteLink(name, 0xFF);
            && a.fields[name] != b.fields[name] && Subscription.ToLink(a) == Subscription.ToLink(b)
            && Subscription.FromLink(Subscription.ToLink(a)) != Some(a)
            && Subscription.FromLink(Subscription.ToLink(b)) != Some(b)
  {
    PrintAlike(name);
    OneByteLost(name, 0xFE);
    OneByteLost(name, 0xFF);
  }

  lemma PrintAlike(name: Base64.Bytes)
    ensures Json.Print(OneByteLink(name, 0xFE)) == Json.Print(OneByteLink(name, 0xFF))
  {
    OneByteText(0xFE);
    OneByteText(0xFF);
    OneByteLinkPrints(name, 0xFE, Json.Sorted({name}));
    OneByteLinkPrints(name, 0xFF, Json.Sorted({name}));
  }

  /** `QQ==` and `QR==` both decode to the letter A. */
  lemma TwoTextsOneByte()
    ensures Base64.Decode([81, 81, 61, 61]) == Some([65]) == Base64.Decode([81, 82, 61, 61])
  {
    OneByte(81);
    OneByte(82);
  }

  lemma OneByte(c: Base64.byte)
    requires c == 81 || c == 82
    ensures Base64.Decode([81, c, 61, 61]) == Some([65])
  {
    var text: Base64.Bytes := [81, c, 61, 61];
    Base64.StripNothing(text);
    var p: Base64.Sextet, q: Base64.Sextet := 16, c as int - 65;
    Base64.ValueLetter(81);
    Base64.ValueLetter(c);
    Base64.DecodeOne(p, q);
    assert Base64.Ungroup(p, q, 0, 0)[..1] == [65];
  }
}
