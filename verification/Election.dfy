/** The two service electors: the V2rayUser controller takes a prefix of every region's list, the V2rayClient
    controller scans one list with decreasing quotas. Both are proved against closed forms, then against each other. */
module Election {
  import opened Kube

  // --- the V2rayUser elector ---

  /** Zero means the field was left out, and counts as one. */
  function Wanted(affinity: RegionNodes): nat {
    if affinity.size == 0 then 1 else affinity.size
  }

  function Min(a: int, b: int): int {
    if a > b then b else a
  }

  /** The first `n` services, or all of them. */
  function Prefix(svcs: seq<Service>, n: nat): seq<Service> {
    svcs[..Min(|svcs|, n)]
  }

  /** Services elected first, with those still to come. */
  function Then(ret: seq<Service>, rest: Option<seq<Service>>): Option<seq<Service>> {
    if rest.None? then None else Some(ret + rest.value)
  }

  /** The election over the regions of `order`; `lists` answers each List call. */
  function Elect(view: View, nodeList: NodeList, order: seq<string>, lists: string -> Answer): Option<seq<Service>>
    requires forall r | r in order :: r in nodeList
  {
    if order == [] then Some([])
    else
      match lists(order[0])
      case Broken => None
      case NotFound => Elect(view, nodeList, order[1..], lists)
      case Fine =>
        Then(Prefix(Listed(view, Lower(order[0])), Wanted(nodeList[order[0]])),
             Elect(view, nodeList, order[1..], lists))
  }

  lemma ElectStep(ret: seq<Service>, view: View, nodeList: NodeList, order: seq<string>, lists: string -> Answer)
    requires order != [] && forall r | r in order :: r in nodeList
    ensures var rest := Elect(view, nodeList, order[1..], lists);
            var items := Prefix(Listed(view, Lower(order[0])), Wanted(nodeList[order[0]]));
            Then(ret, Elect(view, nodeList, order, lists)) ==
            match lists(order[0])
            case Broken => None
            case NotFound => Then(ret, rest)
            case Fine => Then(ret + items, rest)
  {
    ThenConcat(ret, Prefix(Listed(view, Lower(order[0])), Wanted(nodeList[order[0]])),
               Elect(view, nodeList, order[1..], lists));
  }

  lemma ThenConcat(ret: seq<Service>, items: seq<Service>, rest: Option<seq<Service>>)
    ensures Then(ret, Then(items, rest)) == Then(ret + items, rest)
  {
    if rest.Some? {
      assert ret + (items + rest.value) == (ret + items) + rest.value;
    }
  }

  method ElectServicesForUser(view: View, nodeList: NodeList, order: seq<string>, lists: string -> Answer)
    returns (elected: Option<seq<Service>>)
    requires forall r | r in order :: r in nodeList
    ensures elected == Elect(view, nodeList, order, lists)
  {
    var ret: seq<Service> := [];
    var i := 0;
    ghost var all := Elect(view, nodeList, order, lists);
    assert order[0..] == order && (all.Some? ==> [] + all.value == all.value);
    while i < |order|
      invariant 0 <= i <= |order|
      invariant Then(ret, Elect(view, nodeList, order[i..], lists)) == all
    {
      var affinity := nodeList[order[i]];
      var size: nat := affinity.size;
      if size == 0 {
        size := 1;
      }
      var region := Lower(order[i]);
      ElectStep(ret, view, nodeList, order[i..], lists);
      assert order[i..][1..] == order[i + 1..];
      i := i + 1;
      match lists(order[i - 1]) {
        case NotFound => continue;
        case Broken => return None;
        case Fine =>
          var items := Listed(view, region);
          if |items| == 0 {
            assert ret + items == ret;
            continue;
          }
          var n := Min(|items|, size);
          ret := ret + items[..n];
      }
    }
    assert order[i..] == [];
    assert ret + [] == ret;
    return Some(ret);
  }

  lemma {:induction false} ElectMembers(view: View, nodeList: NodeList, order: seq<string>, lists: string -> Answer)
    requires forall r | r in order :: r in nodeList
    ensures Elect(view, nodeList, order, lists).Some?
      ==> forall s | s in Elect(view, nodeList, order, lists).value ::
            && s in view.services
            && HasRegion(s, RegionOf(s))
            && exists r :: r in order && Lower(r) == RegionOf(s) && s in Listed(view, RegionOf(s))
  {
    if order != [] {
      ElectMembers(view, nodeList, order[1..], lists);
      ListedMembers(view, Lower(order[0]));
      assert order[0] in order;
      assert forall r | r in order[1..] :: r in order;
    }
  }

  /** A broken List is the only way to lose the election. */
  lemma {:induction false} ElectFails(view: View, nodeList: NodeList, order: seq<string>, lists: string -> Answer)
    requires forall r | r in order :: r in nodeList
    ensures Elect(view, nodeList, order, lists).None? <==> exists r :: r in order && lists(r) == Broken
  {
    if order != [] {
      ElectFails(view, nodeList, order[1..], lists);
      assert forall r :: r in order <==> r == order[0] || r in order[1..];
    }
  }

  /** No region of `order` other than one equal to `r` after lower-casing contributes to region `r`. */
  lemma {:induction false} ElectElsewhere(view: View, nodeList: NodeList, order: seq<string>, lists: string -> Answer,
                                          r: string)
    requires forall q | q in order :: q in nodeList
    requires forall q | q in order :: Lower(q) != r
    ensures Elect(view, nodeList, order, lists).Some? ==> InRegion(Elect(view, nodeList, order, lists).value, r) == []
  {
    if order != [] {
      ElectElsewhere(view, nodeList, order[1..], lists, r);
      ElectHead(view, nodeList, order, lists, r);
    }
  }

  /** What the first region of `order` adds to region `r`. */
  lemma ElectHead(view: View, nodeList: NodeList, order: seq<string>, lists: string -> Answer, r: string)
    requires order != []
    requires forall q | q in order :: q in nodeList
    ensures var here := Elect(view, nodeList, order, lists);
            var rest := Elect(view, nodeList, order[1..], lists);
            here.Some? ==>
              && rest.Some?
              && InRegion(here.value, r) ==
                 (if lists(order[0]) == Fine && Lower(order[0]) == r
                  then Prefix(Listed(view, r), Wanted(nodeList[order[0]])) else [])
                 + InRegion(rest.value, r)
  {
    var here := Elect(view, nodeList, order, lists);
    if here.Some? && lists(order[0]) == Fine {
      var low := Lower(order[0]);
      var head := Prefix(Listed(view, low), Wanted(nodeList[order[0]]));
      ListedMembers(view, low);
      InRegionUniform(head, low, r);
      InRegionConcat(head, Elect(view, nodeList, order[1..], lists).value, r);
    }
  }

  ghost predicate DistinctLower(order: seq<string>) {
    forall i, j | 0 <= i < j < |order| :: Lower(order[i]) != Lower(order[j])
  }

  /** With regions distinct after lower-casing, each region gets the first services of its own list, in list
      order, whatever the order in which the regions are walked. */
  lemma {:induction false} ElectPerRegion(view: View, nodeList: NodeList, order: seq<string>, lists: string -> Answer,
                                          q: string)
    requires forall r | r in order :: r in nodeList && lists(r) == Fine
    requires DistinctLower(order)
    requires q in order
    ensures Elect(view, nodeList, order, lists).Some?
    ensures InRegion(Elect(view, nodeList, order, lists).value, Lower(q)) ==
            Prefix(Listed(view, Lower(q)), Wanted(nodeList[q]))
  {
    ElectFails(view, nodeList, order, lists);
    ElectHead(view, nodeList, order, lists, Lower(q));
    if q == order[0] {
      ElectElsewhere(view, nodeList, order[1..], lists, Lower(q));
    } else {
      ElectPerRegion(view, nodeList, order[1..], lists, q);
    }
  }

  /** What is elected, in the labels themselves: every service carries the enable label with the value "true", and the
      lower-cased name of a region asked for. */
  lemma ElectedAreLabelled(view: View, nodeList: NodeList, order: seq<string>, lists: string -> Answer)
    requires forall r | r in order :: r in nodeList
    ensures Elect(view, nodeList, order, lists).Some? ==>
              forall s | s in Elect(view, nodeList, order, lists).value ::
                && s in view.services
                && "v2ray.hdcjh.xyz/enable" in s.labels && s.labels["v2ray.hdcjh.xyz/enable"] == "true"
                && "v2ray.hdcjh.xyz/region" in s.labels
                && exists r :: r in order && Lower(r) == s.labels["v2ray.hdcjh.xyz/region"]
  {
    ElectMembers(view, nodeList, order, lists);
    if Elect(view, nodeList, order, lists).Some? {
      forall s | s in Elect(view, nodeList, order, lists).value
        ensures s in Listed(view, RegionOf(s))
      {
      }
      forall s | s in Elect(view, nodeList, order, lists).value
        ensures "v2ray.hdcjh.xyz/enable" in s.labels && s.labels["v2ray.hdcjh.xyz/enable"] == "true"
      {
        ListedExact(view, RegionOf(s));
      }
    }
  }

  /** No region is left short while a service for it is there: if fewer services were elected than asked for - one when
      the count is left out - then every service with both labels was elected. */
  lemma ElectIsMaximal(view: View, nodeList: NodeList, order: seq<string>, lists: string -> Answer, q: string,
                       s: Service)
    requires forall r | r in order :: r in nodeList && lists(r) == Fine
    requires DistinctLower(order) && q in order
    requires s in view.services
    requires "v2ray.hdcjh.xyz/enable" in s.labels && s.labels["v2ray.hdcjh.xyz/enable"] == "true"
    requires "v2ray.hdcjh.xyz/region" in s.labels && s.labels["v2ray.hdcjh.xyz/region"] == Lower(q)
    ensures var elected := Elect(view, nodeList, order, lists);
            && elected.Some?
            && |InRegion(elected.value, Lower(q))| <= (if nodeList[q].size == 0 then 1 else nodeList[q].size)
            && (|InRegion(elected.value, Lower(q))| < (if nodeList[q].size == 0 then 1 else nodeList[q].size)
                ==> s in elected.value)
  {
    ElectPerRegion(view, nodeList, order, lists, q);
    ListedExact(view, Lower(q));
    InRegionMembers(Elect(view, nodeList, order, lists).value, Lower(q));
  }

  // --- the V2rayClient elector ---

  datatype RegionAffinity = RegionAffinity(region: string, nums: int)

  /** Quotas by region; the last entry wins for a repeated region. */
  function Quotas(regions: seq<RegionAffinity>): map<string, int> {
    if regions == [] then map[]
    else
      var n := |regions| - 1;
      Quotas(regions[..n])[regions[n].region := regions[n].nums]
  }

  lemma {:induction false} LastEntryWins(regions: seq<RegionAffinity>, i: nat)
    requires i < |regions|
    requires forall j | i < j < |regions| :: regions[j].region != regions[i].region
    ensures regions[i].region in Quotas(regions) && Quotas(regions)[regions[i].region] == regions[i].nums
  {
    var n := |regions| - 1;
    if i < n {
      assert regions[..n][i] == regions[i];
      LastEntryWins(regions[..n], i);
    }
  }

  /** A region has a quota exactly when it is listed. */
  lemma {:induction false} QuotasExact(regions: seq<RegionAffinity>, r: string)
    ensures r in Quotas(regions) <==> exists i :: 0 <= i < |regions| && regions[i].region == r
  {
    if regions != [] {
      var n := |regions| - 1;
      QuotasExact(regions[..n], r);
      assert forall i | 0 <= i < n :: regions[..n][i] == regions[i];
      if i :| 0 <= i < |regions| && regions[i].region == r {
        if i < n {
          assert regions[..n][i].region == r;
        }
      }
    }
  }

  predicate Takes(quotas: map<string, int>, svc: Service) {
    REGION_LABEL in svc.labels && RegionOf(svc) in quotas && quotas[RegionOf(svc)] != 0
  }

  function Spend(quotas: map<string, int>, svc: Service): map<string, int>
    requires Takes(quotas, svc)
  {
    quotas[RegionOf(svc) := quotas[RegionOf(svc)] - 1]
  }

  /** The scan: elected services and the quotas left over. */
  function Scan(svcs: seq<Service>, quotas: map<string, int>): (seq<Service>, map<string, int>) {
    if svcs == [] then ([], quotas)
    else if Takes(quotas, svcs[0]) then
      var rest := Scan(svcs[1..], Spend(quotas, svcs[0]));
      ([svcs[0]] + rest.0, rest.1)
    else Scan(svcs[1..], quotas)
  }

  method ElectServicesForClient(view: View, regions: seq<RegionAffinity>, list: Answer)
    returns (elected: Option<seq<Service>>)
    ensures elected == if list == Fine then Some(Scan(Enabled(view.services), Quotas(regions)).0) else None
  {
    if list != Fine {
      return None;
    }
    var items := Enabled(view.services);
    var quotas: map<string, int> := map[];
    for i := 0 to |regions|
      invariant quotas == Quotas(regions[..i])
    {
      assert regions[..i + 1][..i] == regions[..i];
      quotas := quotas[regions[i].region := regions[i].nums];
    }
    assert regions[..|regions|] == regions;
    var ret: seq<Service> := [];
    ghost var start := quotas;
    for i := 0 to |items|
      invariant (ret, quotas) == Scan(items[..i], start)
    {
      var svc := items[i];
      assert items[..i + 1] == items[..i] + [svc];
      ScanOneMore(items[..i], svc, start);
      if REGION_LABEL !in svc.labels {
        continue;
      }
      var region := svc.labels[REGION_LABEL];
      if region !in quotas || quotas[region] == 0 {
        continue;
      }
      assert Takes(quotas, svc);
      ret := ret + [svc];
      quotas := quotas[region := quotas[region] - 1];
    }
    assert items[..|items|] == items;
    return Some(ret);
  }

  /** One more service at the end of the scan. */
  lemma {:induction false} ScanOneMore(svcs: seq<Service>, svc: Service, quotas: map<string, int>)
    ensures var (ret, left) := Scan(svcs, quotas);
            Scan(svcs + [svc], quotas) == if Takes(left, svc) then (ret + [svc], Spend(left, svc)) else (ret, left)
  {
    if svcs == [] {
      var one := svcs + [svc];
      assert one[0] == svc && one[1..] == [];
      assert [svc] + [] == [svc] == svcs + [svc];
    } else {
      assert (svcs + [svc])[1..] == svcs[1..] + [svc];
      if Takes(quotas, svcs[0]) {
        var rest := Scan(svcs[1..], Spend(quotas, svcs[0])).0;
        ScanOneMore(svcs[1..], svc, Spend(quotas, svcs[0]));
        assert [svcs[0]] + (rest + [svc]) == ([svcs[0]] + rest) + [svc];
      } else {
        ScanOneMore(svcs[1..], svc, quotas);
      }
    }
  }

  /** How many of the `available` services a quota lets through; a negative quota never runs out. */
  function Allowed(quota: int, available: nat): nat {
    if quota < 0 then available else Min(quota, available)
  }

  /** In region `r`, from these services and quotas, the elected ones are a prefix of the allowed length, and what is
      left of the quota is what was asked for less what was elected. */
  ghost predicate RegionExact(svcs: seq<Service>, quotas: map<string, int>, elected: seq<Service>,
                              left: map<string, int>, r: string) {
    && left.Keys == quotas.Keys
    && (r !in quotas ==> InRegion(elected, r) == [])
    && (r in quotas ==>
          && InRegion(elected, r) == Prefix(InRegion(svcs, r), Allowed(quotas[r], |InRegion(svcs, r)|))
          && |InRegion(elected, r)| + left[r] == quotas[r])
  }

  lemma RegionTaken(s: Service, rest: seq<Service>, quotas: map<string, int>, elected: seq<Service>,
                    left: map<string, int>, r: string)
    requires Takes(quotas, s) && RegionExact(rest, Spend(quotas, s), elected, left, r)
    ensures RegionExact([s] + rest, quotas, [s] + elected, left, r)
  {
    InRegionHead(s, rest, r);
    InRegionHead(s, elected, r);
    if HasRegion(s, r) {
      PrefixOneMore(s, InRegion(rest, r), quotas[r]);
    }
  }

  lemma RegionSkipped(s: Service, rest: seq<Service>, quotas: map<string, int>, elected: seq<Service>,
                      left: map<string, int>, r: string)
    requires !Takes(quotas, s) && RegionExact(rest, quotas, elected, left, r)
    ensures RegionExact([s] + rest, quotas, elected, left, r)
  {
    InRegionHead(s, rest, r);
  }

  /** Region by region the scan is a prefix of the list, of exactly the allowed length, and what is left of the
      quota is what was asked for less what was elected. */
  lemma {:induction false} ScanPerRegion(svcs: seq<Service>, quotas: map<string, int>, r: string)
    ensures RegionExact(svcs, quotas, Scan(svcs, quotas).0, Scan(svcs, quotas).1, r)
  {
    if svcs != [] {
      var s, rest := svcs[0], svcs[1..];
      assert svcs == [s] + rest;
      if Takes(quotas, s) {
        var (elected, left) := Scan(rest, Spend(quotas, s));
        ScanPerRegion(rest, Spend(quotas, s), r);
        RegionTaken(s, rest, quotas, elected, left, r);
      } else {
        var (elected, left) := Scan(rest, quotas);
        ScanPerRegion(rest, quotas, r);
        RegionSkipped(s, rest, quotas, elected, left, r);
      }
    }
  }

  lemma PrefixOneMore(s: Service, tail: seq<Service>, quota: int)
    requires quota != 0
    ensures Prefix([s] + tail, Allowed(quota, |[s] + tail|)) == [s] + Prefix(tail, Allowed(quota - 1, |tail|))
  {
  }

  lemma InRegionHead(s: Service, tail: seq<Service>, r: string)
    ensures InRegion([s] + tail, r) == if HasRegion(s, r) then [s] + InRegion(tail, r) else InRegion(tail, r)
  {
  }

  ghost predicate Subsequence(a: seq<Service>, b: seq<Service>)
    decreases |b|
  {
    if a == [] then true
    else if b == [] then false
    else (a[0] == b[0] && Subsequence(a[1..], b[1..])) || Subsequence(a, b[1..])
  }

  /** The scan keeps list order. */
  lemma {:induction false} ScanKeepsOrder(svcs: seq<Service>, quotas: map<string, int>)
    ensures Subsequence(Scan(svcs, quotas).0, svcs)
    ensures forall s | s in Scan(svcs, quotas).0 :: HasRegion(s, RegionOf(s)) && RegionOf(s) in quotas
  {
    if svcs != [] {
      if Takes(quotas, svcs[0]) {
        var spent := Spend(quotas, svcs[0]);
        ScanKeepsOrder(svcs[1..], spent);
        assert Scan(svcs, quotas).0[1..] == Scan(svcs[1..], spent).0;
      } else {
        ScanKeepsOrder(svcs[1..], quotas);
      }
    }
  }

  /** What the scan elects, in the labels themselves, and that it leaves no region short while a service is there. */
  lemma ScannedAreLabelled(view: View, quotas: map<string, int>, s: Service)
    ensures var elected := Scan(Enabled(view.services), quotas).0;
            && (s in elected ==>
                 && s in view.services
                 && "v2ray.hdcjh.xyz/enable" in s.labels && s.labels["v2ray.hdcjh.xyz/enable"] == "true"
                 && "v2ray.hdcjh.xyz/region" in s.labels && s.labels["v2ray.hdcjh.xyz/region"] in quotas)
            && (&& s in view.services
                && "v2ray.hdcjh.xyz/enable" in s.labels && s.labels["v2ray.hdcjh.xyz/enable"] == "true"
                && "v2ray.hdcjh.xyz/region" in s.labels && s.labels["v2ray.hdcjh.xyz/region"] in quotas
                && (var r := s.labels["v2ray.hdcjh.xyz/region"];
                    quotas[r] < 0 || |InRegion(elected, r)| < quotas[r])
                ==> s in elected)
  {
    var elected := Scan(Enabled(view.services), quotas).0;
    EnabledMembers(view.services);
    ScanKeepsOrder(Enabled(view.services), quotas);
    SubsequenceMembers(elected, Enabled(view.services));
    if "v2ray.hdcjh.xyz/region" in s.labels {
      var r := s.labels["v2ray.hdcjh.xyz/region"];
      ScanPerRegion(Enabled(view.services), quotas, r);
      InRegionMembers(Enabled(view.services), r);
      InRegionMembers(elected, r);
    }
  }

  lemma {:induction false} SubsequenceMembers(a: seq<Service>, b: seq<Service>)
    requires Subsequence(a, b)
    ensures forall s | s in a :: s in b
    decreases |b|
  {
    if a != [] {
      assert forall s | s in a :: s == a[0] || s in a[1..];
      if a[0] == b[0] && Subsequence(a[1..], b[1..]) {
        SubsequenceMembers(a[1..], b[1..]);
      } else {
        SubsequenceMembers(a, b[1..]);
      }
    }
  }

  // --- one elector refines the other ---

  /** On the same cluster, for distinct lower-case regions and equal counts of at least one, the quota scan elects
      in every region the services the per-region elector takes, in the same order, hence the same multiset. */
  lemma ElectorsAgree(view: View, nodeList: NodeList, order: seq<string>, lists: string -> Answer,
                      regions: seq<RegionAffinity>, r: string)
    requires IsWalk(order, nodeList.Keys)
    requires forall q | q in order :: Lower(q) == q && lists(q) == Fine
    requires Quotas(regions).Keys == nodeList.Keys
    requires forall q | q in nodeList :: Quotas(regions)[q] == Wanted(nodeList[q])
    ensures var user := Elect(view, nodeList, order, lists);
            var client := Scan(Enabled(view.services), Quotas(regions)).0;
            && user.Some?
            && InRegion(user.value, r) == InRegion(client, r)
            && multiset(user.value) == multiset(client)
  {
    UserRegion(view, nodeList, order, lists, r);
    ClientRegion(view, Quotas(regions), r);
    ElectorsAgreeIff(view, nodeList, order, lists, Quotas(regions));
  }

  /** How many services a V2rayUser is given in a region, each region walked without faults. */
  function UserShare(view: View, nodeList: NodeList, r: string): nat {
    if r in nodeList then Min(|Listed(view, r)|, Wanted(nodeList[r])) else 0
  }

  /** How many services a V2rayClient is given in a region. */
  function ClientShare(view: View, quotas: map<string, int>, r: string): nat {
    if r in quotas then Allowed(quotas[r], |Listed(view, r)|) else 0
  }

  lemma UserRegion(view: View, nodeList: NodeList, order: seq<string>, lists: string -> Answer, r: string)
    requires IsWalk(order, nodeList.Keys)
    requires forall q | q in order :: Lower(q) == q && lists(q) == Fine
    ensures Elect(view, nodeList, order, lists).Some?
    ensures InRegion(Elect(view, nodeList, order, lists).value, r) == Listed(view, r)[..UserShare(view, nodeList, r)]
  {
    ElectFails(view, nodeList, order, lists);
    if r in nodeList {
      ElectPerRegion(view, nodeList, order, lists, r);
    } else {
      ElectElsewhere(view, nodeList, order, lists, r);
    }
  }

  lemma ClientRegion(view: View, quotas: map<string, int>, r: string)
    ensures InRegion(Scan(Enabled(view.services), quotas).0, r) == Listed(view, r)[..ClientShare(view, quotas, r)]
  {
    ScanPerRegion(Enabled(view.services), quotas, r);
  }

  lemma {:induction false} SameCountInRegion(a: seq<Service>, b: seq<Service>, r: string)
    requires multiset(a) == multiset(b)
    ensures multiset(InRegion(a, r)) == multiset(InRegion(b, r))
  {
    forall s
      ensures multiset(InRegion(a, r))[s] == multiset(InRegion(b, r))[s]
    {
      CountOfRegion(a, r, s);
      CountOfRegion(b, r, s);
    }
  }

  lemma {:induction false} CountOfRegion(a: seq<Service>, r: string, s: Service)
    ensures multiset(InRegion(a, r))[s] == if HasRegion(s, r) then multiset(a)[s] else 0
  {
    if a != [] {
      CountOfRegion(a[1..], r, s);
      assert a == [a[0]] + a[1..];
    }
  }

  /** On the same cluster, with lower-case regions, the two electors elect the same services exactly when they give
      every region the same number of them. */
  lemma ElectorsAgreeIff(view: View, nodeList: NodeList, order: seq<string>, lists: string -> Answer,
                         quotas: map<string, int>)
    requires IsWalk(order, nodeList.Keys)
    requires forall q | q in order :: Lower(q) == q && lists(q) == Fine
    ensures var user := Elect(view, nodeList, order, lists);
            var client := Scan(Enabled(view.services), quotas).0;
            && user.Some?
            && (multiset(user.value) == multiset(client) <==>
                 forall r :: UserShare(view, nodeList, r) == ClientShare(view, quotas, r))
  {
    ElectFails(view, nodeList, order, lists);
    var user := Elect(view, nodeList, order, lists).value;
    var client := Scan(Enabled(view.services), quotas).0;
    if forall r :: UserShare(view, nodeList, r) == ClientShare(view, quotas, r) {
      forall r
        ensures InRegion(user, r) == InRegion(client, r)
      {
        UserRegion(view, nodeList, order, lists, r);
        ClientRegion(view, quotas, r);
      }
      ElectMembers(view, nodeList, order, lists);
      ScanKeepsOrder(Enabled(view.services), quotas);
      SameByRegion(user, client);
    }
    if multiset(user) == multiset(client) {
      forall r
        ensures UserShare(view, nodeList, r) == ClientShare(view, quotas, r)
      {
        UserRegion(view, nodeList, order, lists, r);
        ClientRegion(view, quotas, r);
        SameCountInRegion(user, client, r);
        assert |InRegion(user, r)| == |multiset(InRegion(user, r))| == |InRegion(client, r)|;
      }
    }
  }

  /** Asked for the same counts, the two electors agree exactly when no region with a service has a count of zero: a
      V2rayUser gets one service there, a V2rayClient none. */
  lemma SameCountsAgreeIff(view: View, nodeList: NodeList, order: seq<string>, lists: string -> Answer,
                           quotas: map<string, int>)
    requires IsWalk(order, nodeList.Keys)
    requires forall q | q in order :: Lower(q) == q && lists(q) == Fine
    requires quotas.Keys == nodeList.Keys && forall q | q in nodeList :: quotas[q] == nodeList[q].size
    ensures var user := Elect(view, nodeList, order, lists);
            var client := Scan(Enabled(view.services), quotas).0;
            && user.Some?
            && (multiset(user.value) == multiset(client) <==>
                 forall q | q in nodeList :: nodeList[q].size != 0 || Listed(view, q) == [])
  {
    ElectorsAgreeIff(view, nodeList, order, lists, quotas);
    forall q | q in nodeList
      ensures UserShare(view, nodeList, q) == ClientShare(view, quotas, q)
         <==> nodeList[q].size != 0 || Listed(view, q) == []
    {
    }
  }

  // --- the addresses of the elected services ---

  /** The configuration SvcListToV2flyConfig builds for a service, if it has an address and a grpc port. */
  function Reachable(svc: Service): Option<Addr> {
    if svc.clusterIP == "" || !(exists p | p in svc.ports :: p.name == GRPC_PORT_NAME) then None
    else Some(Addr(svc.clusterIP, GrpcPort(svc.ports)))
  }

  function Configs(svcs: seq<Service>): seq<Addr> {
    if svcs == [] then []
    else (if Reachable(svcs[0]).Some? then [Reachable(svcs[0]).value] else []) + Configs(svcs[1..])
  }

  method SvcListToV2flyConfig(svcs: seq<Service>) returns (ret: seq<Addr>)
    ensures ret == Configs(svcs)
  {
    ret := [];
    for i := 0 to |svcs|
      invariant ret + Configs(svcs[i..]) == Configs(svcs)
    {
      var svc := svcs[i];
      assert svcs[i..][1..] == svcs[i + 1..];
      if svc.clusterIP == "" {
        continue;
      }
      var port := None;
      for j := 0 to |svc.ports|
        invariant port == None
        invariant forall k | 0 <= k < j :: svc.ports[k].name != GRPC_PORT_NAME
        invariant GrpcPort(svc.ports) == GrpcPort(svc.ports[j..])
      {
        assert svc.ports[j..][1..] == svc.ports[j + 1..];
        if svc.ports[j].name == GRPC_PORT_NAME {
          port := Some(svc.ports[j].port);
          break;
        }
      }
      if port.None? {
        continue;
      }
      ghost var rest := Configs(svcs[i + 1..]);
      assert Reachable(svc) == Some(Addr(svc.clusterIP, port.value));
      assert ret + ([Addr(svc.clusterIP, port.value)] + rest) == ret + [Addr(svc.clusterIP, port.value)] + rest;
      ret := ret + [Addr(svc.clusterIP, port.value)];
    }
  }

  /** The client controller pairs configuration `i` with service `i`; that pairing is right for every index exactly
      when no service was skipped before one that was kept. */
  lemma {:induction false} PairingIsRight(svcs: seq<Service>)
    ensures |Configs(svcs)| <= |svcs|
    ensures (forall i | 0 <= i < |Configs(svcs)| :: Reachable(svcs[i]) == Some(Configs(svcs)[i]))
       <==> (forall i, j | 0 <= i < j < |svcs| :: Reachable(svcs[i]).None? ==> Reachable(svcs[j]).None?)
  {
    if svcs != [] {
      var rest := svcs[1..];
      PairingIsRight(rest);
      ConfigsEmpty(svcs);
      ConfigsEmpty(rest);
      if Reachable(svcs[0]).Some? {
        assert Configs(svcs)[1..] == Configs(rest);
        assert forall i | 0 <= i < |rest| :: rest[i] == svcs[i + 1];
        if forall i | 0 <= i < |Configs(svcs)| :: Reachable(svcs[i]) == Some(Configs(svcs)[i]) {
          forall i | 0 <= i < |Configs(rest)| ensures Reachable(rest[i]) == Some(Configs(rest)[i]) {
            assert Reachable(svcs[i + 1]) == Some(Configs(svcs)[i + 1]);
          }
        }
      }
    }
  }

  /** Which address a service has: its cluster IP, which must not be empty, and its first port named grpc. */
  lemma ReachableExact(svc: Service, i: nat)
    requires i < |svc.ports| && svc.ports[i].name == "grpc" && forall j | 0 <= j < i :: svc.ports[j].name != "grpc"
    ensures Reachable(svc) == if svc.clusterIP == "" then None else Some(Addr(svc.clusterIP, svc.ports[i].port))
  {
    GrpcPortExact(svc.ports);
    assert svc.ports[i] in svc.ports;
  }

  lemma ReachableNeedsGrpc(svc: Service)
    requires forall i | 0 <= i < |svc.ports| :: svc.ports[i].name != "grpc"
    ensures Reachable(svc).None?
  {
  }

  /** The addresses are those of the services that have one, in order. */
  lemma {:induction false} ConfigsConcat(a: seq<Service>, b: seq<Service>)
    ensures Configs(a + b) == Configs(a) + Configs(b)
  {
    if a == [] {
      assert a + b == b;
    } else {
      var head := if Reachable(a[0]).Some? then [Reachable(a[0]).value] else [];
      assert (a + b)[1..] == a[1..] + b;
      ConfigsConcat(a[1..], b);
      assert head + (Configs(a[1..]) + Configs(b)) == (head + Configs(a[1..])) + Configs(b);
    }
  }

  lemma ConfigsOne(s: Service)
    ensures Configs([s]) == if Reachable(s).Some? then [Reachable(s).value] else []
  {
    assert [s][1..] == [] && Configs([]) == [];
  }

  lemma {:induction false} ConfigsEmpty(svcs: seq<Service>)
    ensures Configs(svcs) == [] <==> forall i | 0 <= i < |svcs| :: Reachable(svcs[i]).None?
  {
    if svcs != [] {
      ConfigsEmpty(svcs[1..]);
      assert forall i | 0 < i < |svcs| :: svcs[i] == svcs[1..][i - 1];
    }
  }
}
