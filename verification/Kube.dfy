/** The parts of the cluster the controllers read: labelled services in the `vpn` namespace, the
    deployments, pods and nodes behind them, and the answers the API server and the v2ray servers give. */
module Kube {

  datatype Option<+T> = None | Some(value: T)

  type Labels = map<string, string>

  const ENABLE_LABEL := "v2ray.hdcjh.xyz/enable"
  const REGION_LABEL := "v2ray.hdcjh.xyz/region"
  const GRPC_PORT_NAME := "grpc"
  const LOOPBACK := "127.0.0.1"

  datatype Port = Port(name: string, port: int)

  datatype Service = Service(name: string, labels: Labels, clusterIP: string, ports: seq<Port>, selector: Labels)

  datatype Deployment = Deployment(labels: Labels, matchLabels: Labels)

  datatype Pod = Pod(labels: Labels, nodeName: string)

  /** What one pass sees. `nodes` maps a node name to the address getNodePublicIp reads from it. */
  datatype View = View(
    testEnv: bool,
    services: seq<Service>,
    deployments: seq<Deployment>,
    pods: seq<Pod>,
    nodes: map<string, string>)

  /** Where a v2ray server listens. */
  datatype Addr = Addr(host: string, port: int)

  /** One recorded service in a V2rayUser's `spec.nodeList`. */
  datatype NodeInfo = NodeInfo(name: string, ip: string, port: int, svcName: string)

  datatype RegionNodes = RegionNodes(size: nat, info: seq<NodeInfo>)

  type NodeList = map<string, RegionNodes>

  /** `order` is one way the runtime may walk the keys `keys`. */
  ghost predicate IsWalk<T(!new)>(order: seq<T>, keys: set<T>) {
    && (forall x :: x in order <==> x in keys)
    && (forall i, j | 0 <= i < j < |order| :: order[i] != order[j])
  }

  /** How one API call or RPC ends. Only a `Fine` call takes effect. */
  datatype Answer = Fine | NotFound | Broken

  /** The status conditions of the custom resources. */
  datatype Condition = Available | Degraded

  datatype Status = IsTrue | IsFalse | Unknown

  type Conditions = map<Condition, Status>

  predicate Matches(labels: Labels, selector: Labels) {
    forall k | k in selector :: k in labels && labels[k] == selector[k]
  }

  function MatchingDeployments(ds: seq<Deployment>, selector: Labels): seq<Deployment> {
    if ds == [] then []
    else (if Matches(ds[0].labels, selector) then [ds[0]] else []) + MatchingDeployments(ds[1..], selector)
  }

  function MatchingPods(ps: seq<Pod>, selector: Labels): seq<Pod> {
    if ps == [] then []
    else (if Matches(ps[0].labels, selector) then [ps[0]] else []) + MatchingPods(ps[1..], selector)
  }

  /** The first port named `grpc`, or 0. */
  function GrpcPort(ports: seq<Port>): int {
    if ports == [] then 0
    else if ports[0].name == GRPC_PORT_NAME then ports[0].port
    else GrpcPort(ports[1..])
  }

  /** The address getV2rayGrpcClientFromSvc connects to; every host is the loopback in the test environment. */
  function Dial(view: View, svc: Service): Option<Addr> {
    var port := GrpcPort(svc.ports);
    if port == 0 then None
    else Some(Addr(if view.testEnv then LOOPBACK else svc.clusterIP, port))
  }

  /** The service a Get by name returns. */
  function ServiceNamed(services: seq<Service>, name: string): Option<Service> {
    if services == [] then None
    else if services[0].name == name then Some(services[0])
    else ServiceNamed(services[1..], name)
  }

  // --- what the lookups find, by index ---

  /** The first port named `grpc` is the one used. */
  lemma {:induction false} GrpcPortExact(ports: seq<Port>)
    ensures (forall i | 0 <= i < |ports| :: ports[i].name != "grpc") ==> GrpcPort(ports) == 0
    ensures forall i | 0 <= i < |ports| && ports[i].name == "grpc"
                         && (forall j | 0 <= j < i :: ports[j].name != "grpc") ::
              GrpcPort(ports) == ports[i].port
  {
    if ports != [] {
      GrpcPortExact(ports[1..]);
      assert forall i | 0 < i < |ports| :: ports[i] == ports[1..][i - 1];
      forall i | 0 < i < |ports| && ports[i].name == "grpc" && (forall j | 0 <= j < i :: ports[j].name != "grpc")
        ensures GrpcPort(ports) == ports[i].port
      {
        assert ports[0].name != "grpc" && ports[1..][i - 1] == ports[i];
      }
    }
  }

  /** A service is dialled at its own cluster address - in the test environment at the loopback - and the first port
      named `grpc`, which must not be 0. */
  lemma DialExact(view: View, svc: Service, i: nat)
    requires i < |svc.ports| && svc.ports[i].name == "grpc" && forall j | 0 <= j < i :: svc.ports[j].name != "grpc"
    ensures Dial(view, svc) ==
            if svc.ports[i].port == 0 then None
            else Some(Addr(if view.testEnv then "127.0.0.1" else svc.clusterIP, svc.ports[i].port))
  {
    GrpcPortExact(svc.ports);
  }

  /** A service without a port named `grpc` cannot be dialled. */
  lemma DialNeedsGrpc(view: View, svc: Service)
    requires forall i | 0 <= i < |svc.ports| :: svc.ports[i].name != "grpc"
    ensures Dial(view, svc).None?
  {
    GrpcPortExact(svc.ports);
  }

  /** A Get by name finds the first service of that name, and nothing exactly when there is none. */
  lemma {:induction false} ServiceNamedExact(services: seq<Service>, name: string)
    ensures ServiceNamed(services, name).None? <==> forall i | 0 <= i < |services| :: services[i].name != name
    ensures ServiceNamed(services, name).Some? ==> exists i | 0 <= i < |services| ::
              && services[i] == ServiceNamed(services, name).value && services[i].name == name
              && forall j | 0 <= j < i :: services[j].name != name
  {
    if services != [] {
      var rest := services[1..];
      ServiceNamedExact(rest, name);
      assert forall i | 0 <= i < |rest| :: rest[i] == services[i + 1];
      if services[0].name == name {
        assert services[0] == ServiceNamed(services, name).value;
      } else if ServiceNamed(rest, name).Some? {
        var i :| 0 <= i < |rest| && rest[i] == ServiceNamed(rest, name).value && rest[i].name == name
                 && forall j | 0 <= j < i :: rest[j].name != name;
        assert services[i + 1] == ServiceNamed(services, name).value;
        forall j | 0 <= j < i + 1
          ensures services[j].name != name
        {
          if j > 0 {
            assert services[j] == rest[j - 1];
          }
        }
      }
    }
  }

  /** `i` is the first of the list that carries every label of the selector. */
  ghost predicate FirstSelected(list: seq<Labels>, selector: Labels, i: nat) {
    && i < |list|
    && (forall k | k in selector :: k in list[i] && list[i][k] == selector[k])
    && (forall j | 0 <= j < i :: exists k :: k in selector && (k !in list[j] || list[j][k] != selector[k]))
  }

  function DeploymentLabels(ds: seq<Deployment>): seq<Labels> {
    seq(|ds|, i requires 0 <= i < |ds| => ds[i].labels)
  }

  function PodLabels(ps: seq<Pod>): seq<Labels> {
    seq(|ps|, i requires 0 <= i < |ps| => ps[i].labels)
  }

  /** The list of matching deployments begins with the first one the selector selects. */
  lemma {:induction false} FirstDeployment(ds: seq<Deployment>, selector: Labels)
    ensures MatchingDeployments(ds, selector) != []
      ==> exists i: nat ::
            FirstSelected(DeploymentLabels(ds), selector, i) && ds[i] == MatchingDeployments(ds, selector)[0]
    ensures MatchingDeployments(ds, selector) == []
      ==> forall i | 0 <= i < |ds| ::
            exists k :: k in selector && (k !in ds[i].labels || ds[i].labels[k] != selector[k])
  {
    if ds != [] {
      var rest := ds[1..];
      FirstDeployment(rest, selector);
      if Matches(ds[0].labels, selector) {
        assert FirstSelected(DeploymentLabels(ds), selector, 0);
      } else if MatchingDeployments(rest, selector) != [] {
        var i: nat :| FirstSelected(DeploymentLabels(rest), selector, i)
            && rest[i] == MatchingDeployments(rest, selector)[0];
        LaterSelected(DeploymentLabels(ds), DeploymentLabels(rest), selector, i);
      }
    }
  }

  lemma {:induction false} FirstPod(ps: seq<Pod>, selector: Labels)
    ensures MatchingPods(ps, selector) != []
      ==> exists i: nat :: FirstSelected(PodLabels(ps), selector, i) && ps[i] == MatchingPods(ps, selector)[0]
    ensures MatchingPods(ps, selector) == []
      ==> forall i | 0 <= i < |ps| ::
            exists k :: k in selector && (k !in ps[i].labels || ps[i].labels[k] != selector[k])
  {
    if ps != [] {
      var rest := ps[1..];
      FirstPod(rest, selector);
      if Matches(ps[0].labels, selector) {
        assert FirstSelected(PodLabels(ps), selector, 0);
      } else if MatchingPods(rest, selector) != [] {
        var i: nat :| FirstSelected(PodLabels(rest), selector, i) && rest[i] == MatchingPods(rest, selector)[0];
        LaterSelected(PodLabels(ps), PodLabels(rest), selector, i);
      }
    }
  }

  lemma NotBoth(list: seq<Labels>, selector: Labels, i: nat, j: nat)
    requires i < j && FirstSelected(list, selector, j)
    ensures !FirstSelected(list, selector, i)
  {
    var labels := list[i];
    var k :| k in selector && (k !in labels || labels[k] != selector[k]);
  }

  lemma FirstIsUnique(list: seq<Labels>, selector: Labels, i: nat, j: nat)
    requires FirstSelected(list, selector, i) && FirstSelected(list, selector, j)
    ensures i == j
  {
    if i < j {
      NotBoth(list, selector, i, j);
    } else if j < i {
      NotBoth(list, selector, j, i);
    }
  }

  lemma LaterSelected(list: seq<Labels>, rest: seq<Labels>, selector: Labels, i: nat)
    requires list != [] && rest == list[1..] && !Matches(list[0], selector) && FirstSelected(rest, selector, i)
    ensures FirstSelected(list, selector, i + 1)
  {
    forall j | 0 <= j < i + 1
      ensures exists k :: k in selector && (k !in list[j] || list[j][k] != selector[k])
    {
      if j > 0 {
        assert list[j] == rest[j - 1];
      }
    }
  }

  ghost predicate UniqueNames(view: View) {
    forall i, j | 0 <= i < j < |view.services| :: view.services[i].name != view.services[j].name
  }

  lemma {:induction false} NamedFindsMember(services: seq<Service>, svc: Service)
    requires forall i, j | 0 <= i < j < |services| :: services[i].name != services[j].name
    requires svc in services
    ensures ServiceNamed(services, svc.name) == Some(svc)
  {
    if services[0] != svc {
      assert svc in services[1..];
      NamedFindsMember(services[1..], svc);
    }
  }

  /** Lower-casing of one character to ASCII: the capital letters, the Kelvin sign and the dotted capital I. Label
      values are ASCII, so no other letter can match one and the rest is left alone. */
  function LowerChar(c: char): char {
    if 'A' <= c <= 'Z' then ((c as int) + 32) as char
    else if c == '\U{212A}' then 'k'
    else if c == '\U{130}' then 'i'
    else c
  }

  function Lower(s: string): (r: string)
    ensures |r| == |s|
  {
    if s == [] then [] else [LowerChar(s[0])] + Lower(s[1..])
  }

  /** Lower-casing keeps every other character and replaces a capital by the small letter at the same place of the
      alphabet. */
  lemma {:induction false} LowerAt(s: string, i: nat)
    requires i < |s|
    ensures 'A' <= s[i] <= 'Z' ==>
              'a' <= Lower(s)[i] <= 'z' && Lower(s)[i] as int - 'a' as int == s[i] as int - 'A' as int
    ensures s[i] == '\U{212A}' ==> Lower(s)[i] == 'k'
    ensures s[i] == '\U{130}' ==> Lower(s)[i] == 'i'
    ensures !('A' <= s[i] <= 'Z') && s[i] != '\U{212A}' && s[i] != '\U{130}' ==> Lower(s)[i] == s[i]
  {
    if i > 0 {
      LowerAt(s[1..], i - 1);
    }
  }

  lemma {:induction false} LowerIdempotent(s: string)
    ensures Lower(Lower(s)) == Lower(s)
  {
    if s != [] {
      LowerIdempotent(s[1..]);
      assert Lower(s)[1..] == Lower(s[1..]);
    }
  }

  /** The region a service is filed under: a missing label reads as the empty string. */
  function RegionOf(svc: Service): string {
    if REGION_LABEL in svc.labels then svc.labels[REGION_LABEL] else ""
  }

  predicate HasRegion(svc: Service, region: string) {
    REGION_LABEL in svc.labels && svc.labels[REGION_LABEL] == region
  }

  predicate IsEnabled(svc: Service) {
    ENABLE_LABEL in svc.labels && svc.labels[ENABLE_LABEL] == "true"
  }

  /** The enabled services, in list order. */
  function Enabled(services: seq<Service>): seq<Service> {
    if services == [] then []
    else (if IsEnabled(services[0]) then [services[0]] else []) + Enabled(services[1..])
  }

  /** The services labelled with `region`, in list order. */
  function InRegion(services: seq<Service>, region: string): seq<Service> {
    if services == [] then []
    else (if HasRegion(services[0], region) then [services[0]] else []) + InRegion(services[1..], region)
  }

  /** The answer to a List with both the enable label and the region label. */
  function Listed(view: View, region: string): seq<Service> {
    InRegion(Enabled(view.services), region)
  }

  lemma {:induction false} EnabledMembers(services: seq<Service>)
    ensures forall s :: s in Enabled(services) <==> s in services && IsEnabled(s)
  {
    if services != [] { EnabledMembers(services[1..]); }
  }

  lemma {:induction false} InRegionMembers(services: seq<Service>, region: string)
    ensures forall s :: s in InRegion(services, region) <==> s in services && HasRegion(s, region)
  {
    if services != [] { InRegionMembers(services[1..], region); }
  }

  lemma {:induction false} InRegionConcat(a: seq<Service>, b: seq<Service>, region: string)
    ensures InRegion(a + b, region) == InRegion(a, region) + InRegion(b, region)
  {
    if a == [] {
      assert a + b == b;
    } else {
      assert (a + b)[1..] == a[1..] + b;
      InRegionConcat(a[1..], b, region);
    }
  }

  /** Filtering services that all carry one region keeps all of them or none. */
  lemma {:induction false} InRegionUniform(a: seq<Service>, region: string, other: string)
    requires forall s | s in a :: HasRegion(s, region)
    ensures InRegion(a, other) == if other == region then a else []
  {
    if a != [] {
      assert HasRegion(a[0], region);
      assert a == [a[0]] + a[1..];
      InRegionUniform(a[1..], region, other);
    }
  }

  lemma ListedMembers(view: View, region: string)
    ensures forall s | s in Listed(view, region) :: s in view.services && IsEnabled(s) && HasRegion(s, region)
  {
    EnabledMembers(view.services);
    InRegionMembers(Enabled(view.services), region);
  }

  /** What a List with both labels answers, in the labels themselves. */
  lemma ListedExact(view: View, region: string)
    ensures forall s :: s in Listed(view, region) <==>
              && s in view.services
              && "v2ray.hdcjh.xyz/enable" in s.labels && s.labels["v2ray.hdcjh.xyz/enable"] == "true"
              && "v2ray.hdcjh.xyz/region" in s.labels && s.labels["v2ray.hdcjh.xyz/region"] == region
  {
    EnabledMembers(view.services);
    InRegionMembers(Enabled(view.services), region);
  }

  /** Every element occurs as often in the whole as in the part carrying its own region. */
  lemma {:induction false} CountInOwnRegion(a: seq<Service>, s: Service)
    requires HasRegion(s, RegionOf(s))
    ensures multiset(a)[s] == multiset(InRegion(a, RegionOf(s)))[s]
  {
    if a != [] {
      CountInOwnRegion(a[1..], s);
      assert a == [a[0]] + a[1..];
    }
  }

  /** Two selections that agree region by region are the same multiset. */
  lemma SameByRegion(a: seq<Service>, b: seq<Service>)
    requires forall s | s in a + b :: HasRegion(s, RegionOf(s))
    requires forall r :: InRegion(a, r) == InRegion(b, r)
    ensures multiset(a) == multiset(b)
  {
    forall s
      ensures multiset(a)[s] == multiset(b)[s]
    {
      if s in a + b {
        CountInOwnRegion(a, s);
        CountInOwnRegion(b, s);
      } else {
        assert s !in a && s !in b;
      }
    }
  }
}
