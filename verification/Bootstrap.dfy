/** Who may start now: the decisions of controllers/cassandra_pods_config.go and
    readiness.go that order the start of regions, DCs, seeds and nodes. */
module Bootstrap {
  import opened DataCenters
  import opened Option
  import opened Text

  /** `seed` says whether the pod carries the seed label; `statuses` are the
      readiness bits of its containers. */
  datatype Pod = Pod(name: string, dc: string, seed: bool, statuses: seq<bool>, ip: string)

  /** A managed region as the spec names it; `host` is the address of its prober. */
  datatype Region = Region(domain: string, host: string)

  datatype Spec = Spec(dcs: seq<DC>, hostPort: bool, host: string, managed: seq<Region>)

  /** The two facts a pass derives before it looks at single pods; `nextDC` is
      empty when no DC is singled out. */
  datatype Order = Order(regionPaused: bool, nextDC: string)

  predicate AllReady(statuses: seq<bool>) {
    forall i :: 0 <= i < |statuses| ==> statuses[i]
  }

  predicate PodReady(p: Pod) {
    p.statuses != [] && AllReady(p.statuses)
  }

  /** dcSeedPodsReady */
  predicate SeedPodsReady(pods: seq<Pod>, dc: string) {
    pods != [] && forall i :: 0 <= i < |pods| && pods[i].dc == dc && pods[i].seed ==> AllReady(pods[i].statuses)
  }

  predicate InNextDC(p: Pod, nextDC: string) {
    nextDC == "" || p.dc == nextDC
  }

  predicate Candidate(p: Pod, nextDC: string) {
    InNextDC(p, nextDC) && !p.seed && !PodReady(p)
  }

  function CandidateNames(pods: seq<Pod>, nextDC: string): seq<string> {
    if pods == [] then []
    else (if Candidate(pods[0], nextDC) then [pods[0].name] else []) + CandidateNames(pods[1..], nextDC)
  }

  /** The unready non-seed pod whose name comes first, or nothing. */
  function NextNonSeed(pods: seq<Pod>, nextDC: string): string {
    var names := SortStrings(CandidateNames(pods, nextDC));
    if names == [] then "" else names[0]
  }

  predicate DistinctNames(pods: seq<Pod>) {
    forall i, j :: 0 <= i < j < |pods| ==> pods[i].name != pods[j].name
  }

  lemma {:induction false} CandidateNamesMembers(pods: seq<Pod>, nextDC: string)
    ensures forall x :: x in CandidateNames(pods, nextDC) <==> exists p :: p in pods && Candidate(p, nextDC) && p.name == x
  {
    if pods != [] {
      CandidateNamesMembers(pods[1..], nextDC);
      assert pods == [pods[0]] + pods[1..];
    }
  }

  /** What NextNonSeed means: a candidate that no candidate precedes. */
  lemma NextNonSeedIsLeast(pods: seq<Pod>, nextDC: string, x: string)
    requires forall p :: p in pods ==> p.name != ""
    ensures NextNonSeed(pods, nextDC) == x && x != "" <==>
            && (exists p :: p in pods && Candidate(p, nextDC) && p.name == x)
            && (forall p :: p in pods && Candidate(p, nextDC) ==> LexLe(x, p.name))
    ensures NextNonSeed(pods, nextDC) == "" <==> forall p :: p in pods ==> !Candidate(p, nextDC)
  {
    var names := CandidateNames(pods, nextDC);
    CandidateNamesMembers(pods, nextDC);
    SortStringsMembers(names);
    SortStringsSorts(names);
    var sorted := SortStrings(names);
    if sorted != [] {
      LexLeReflexive(sorted[0]);
      assert sorted[0] in sorted;
      forall y | y in sorted ensures LexLe(sorted[0], y) {
        assert sorted == [sorted[0]] + sorted[1..];
      }
      forall p | p in pods && Candidate(p, nextDC) ensures LexLe(sorted[0], p.name) {
        assert p.name in names;
      }
      if x in sorted && LexLe(x, sorted[0]) {
        LexLeAntisymmetric(x, sorted[0]);
      }
    } else {
      forall p | p in pods ensures !Candidate(p, nextDC) {
        assert p.name !in names;
      }
    }
  }

  lemma {:induction false} SortedLe(xs: seq<string>, i: nat, j: nat)
    requires Sorted(xs) && i <= j < |xs|
    ensures LexLe(xs[i], xs[j])
  {
    if i == j {
      LexLeReflexive(xs[i]);
    } else if i == 0 {
      assert xs[j] == xs[1..][j - 1];
    } else {
      SortedLe(xs[1..], i - 1, j - 1);
    }
  }

  /** `names` and `byName` hold the pods of the DC at hand, by name. */
  ghost predicate Collected(pods: seq<Pod>, nextDC: string, names: seq<string>, byName: map<string, Pod>) {
    && (forall x :: x in names <==> x in byName)
    && (forall x :: x in byName ==> byName[x] in pods && byName[x].name == x && InNextDC(byName[x], nextDC))
    && (forall p :: p in pods && InNextDC(p, nextDC) ==> p.name in byName && byName[p.name] == p)
  }

  lemma CollectedSnoc(pods: seq<Pod>, p: Pod, nextDC: string, names: seq<string>, byName: map<string, Pod>)
    requires Collected(pods, nextDC, names, byName) && forall q :: q in pods ==> q.name != p.name
    ensures if InNextDC(p, nextDC) then Collected(pods + [p], nextDC, names + [p.name], byName[p.name := p])
            else Collected(pods + [p], nextDC, names, byName)
  {
  }

  lemma FoundIsNext(pods: seq<Pod>, nextDC: string, names: seq<string>, byName: map<string, Pod>, i: nat)
    requires Collected(pods, nextDC, names, byName) && Sorted(names) && i < |names| && names[i] != ""
    requires forall p :: p in pods ==> p.name != ""
    requires forall k :: 0 <= k < i ==> !Candidate(byName[names[k]], nextDC)
    requires Candidate(byName[names[i]], nextDC)
    ensures NextNonSeed(pods, nextDC) == names[i]
  {
    forall p | p in pods && Candidate(p, nextDC) ensures LexLe(names[i], p.name) {
      var k :| 0 <= k < |names| && names[k] == p.name;
      SortedLe(names, i, k);
    }
    assert byName[names[i]] in pods;
    NextNonSeedIsLeast(pods, nextDC, names[i]);
  }

  lemma NoneIsNext(pods: seq<Pod>, nextDC: string, names: seq<string>, byName: map<string, Pod>)
    requires Collected(pods, nextDC, names, byName)
    requires forall p :: p in pods ==> p.name != ""
    requires forall k :: 0 <= k < |names| ==> !Candidate(byName[names[k]], nextDC)
    ensures NextNonSeed(pods, nextDC) == ""
  {
    forall p | p in pods ensures !Candidate(p, nextDC) {
      if InNextDC(p, nextDC) {
        assert p.name in names;
      }
    }
    NextNonSeedIsLeast(pods, nextDC, "");
  }

  /** nextNonSeedPodToInit: pod names are unique within a namespace. */
  method NextNonSeedPodToInit(pods: seq<Pod>, nextDC: string) returns (name: string)
    requires DistinctNames(pods) && forall p :: p in pods ==> p.name != ""
    ensures name == NextNonSeed(pods, nextDC)
  {
    hide NextNonSeed, Sorted, SortStrings;
    var podNames: seq<string> := [];
    var nextDCPods: map<string, Pod> := map[];
    for i := 0 to |pods|
      invariant Collected(pods[..i], nextDC, podNames, nextDCPods)
    {
      assert pods[..i + 1] == pods[..i] + [pods[i]];
      CollectedSnoc(pods[..i], pods[i], nextDC, podNames, nextDCPods);
      if nextDC != "" && pods[i].dc != nextDC {
        continue;
      }
      podNames := podNames + [pods[i].name];
      nextDCPods := nextDCPods[pods[i].name := pods[i]];
    }
    assert pods[..|pods|] == pods;
    SortStringsMembers(podNames);
    SortStringsSorts(podNames);
    podNames := SortStrings(podNames);
    assert Collected(pods, nextDC, podNames, nextDCPods);
    for i := 0 to |podNames|
      invariant forall k :: 0 <= k < i ==> !Candidate(nextDCPods[podNames[k]], nextDC)
    {
      var pod := nextDCPods[podNames[i]];
      if !pod.seed && !PodReady(pod) {
        FoundIsNext(pods, nextDC, podNames, nextDCPods, i);
        return pod.name;
      }
    }
    NoneIsNext(pods, nextDC, podNames, nextDCPods);
    return "";
  }

  /** pausePodInit, without the wording of the reason. */
  predicate PausePodInit(p: Pod, order: Order, seedsReady: bool, nextNonSeed: string) {
    if order.regionPaused then true
    else if order.nextDC == "" then false
    else if order.nextDC != p.dc then true
    else if p.seed then false
    else if !seedsReady then true
    else nextNonSeed != "" && nextNonSeed != p.name && !PodReady(p)
  }

  predicate Paused(pods: seq<Pod>, p: Pod, order: Order) {
    PausePodInit(p, order, SeedPodsReady(pods, order.nextDC), NextNonSeed(pods, order.nextDC))
  }

  /** The pod has containers and all of them are ready. */
  predicate Initialized(p: Pod) {
    |p.statuses| > 0 && forall i :: 0 <= i < |p.statuses| ==> p.statuses[i]
  }

  /** No container of a labelled seed of the DC is unready. */
  ghost predicate GateOpen(pods: seq<Pod>, dc: string) {
    forall q :: q in pods && q.dc == dc && q.seed ==> forall i :: 0 <= i < |q.statuses| ==> q.statuses[i]
  }

  /** No unready pod of the DC that is not labelled a seed has a smaller name. */
  ghost predicate FirstInLine(pods: seq<Pod>, p: Pod) {
    forall q :: q in pods && q.dc == p.dc && !q.seed && !Initialized(q) ==> LexLe(p.name, q.name)
  }

  /** Who may start of the DC in turn: the seeds; and, once these are ready, the pods that are
      initialized already and the first of the others. */
  ghost predicate MayStart(pods: seq<Pod>, p: Pod) {
    p.seed || (GateOpen(pods, p.dc) && (Initialized(p) || FirstInLine(pods, p)))
  }

  lemma PausedMeans(pods: seq<Pod>, p: Pod, order: Order)
    requires DistinctNames(pods) && (forall q :: q in pods ==> q.name != "") && p in pods
    ensures order.regionPaused ==> Paused(pods, p, order)
    ensures !order.regionPaused && order.nextDC == "" ==> !Paused(pods, p, order)
    ensures !order.regionPaused && order.nextDC != "" ==> (!Paused(pods, p, order) <==> p.dc == order.nextDC && MayStart(pods, p))
  {
    hide NextNonSeed, LexLe;
    if !order.regionPaused && order.nextDC != "" && p.dc == order.nextDC {
      GateIsOpen(pods, p.dc);
      forall q ensures Candidate(q, p.dc) <==> q.dc == p.dc && !q.seed && !Initialized(q) {
      }
      NextNonSeedIsLeast(pods, p.dc, NextNonSeed(pods, p.dc));
      NextNonSeedIsLeast(pods, p.dc, p.name);
    }
  }

  lemma GateIsOpen(pods: seq<Pod>, dc: string)
    ensures pods != [] ==> (SeedPodsReady(pods, dc) <==> GateOpen(pods, dc))
  {
    if GateOpen(pods, dc) {
      forall i | 0 <= i < |pods| && pods[i].dc == dc && pods[i].seed ensures AllReady(pods[i].statuses) {
        assert pods[i] in pods;
      }
    }
    if SeedPodsReady(pods, dc) {
      forall q | q in pods && q.dc == dc && q.seed ensures AllReady(q.statuses) {
        var i :| 0 <= i < |pods| && pods[i] == q;
      }
    }
  }

  /** podsConfigMapData, as far as pausing goes: one entry a pod, nothing at all
      while some pod has no address yet. */
  method PodsConfig(pods: seq<Pod>, order: Order) returns (config: Option<map<string, bool>>)
    requires DistinctNames(pods) && forall p :: p in pods ==> p.name != ""
    ensures config.None? <==> exists p :: p in pods && p.ip == ""
    ensures config.Some? ==>
      && config.value.Keys == (set p | p in pods :: p.name)
      && (forall p :: p in pods ==> config.value[p.name] == Paused(pods, p, order))
      && (order.regionPaused ==> forall p :: p in pods ==> config.value[p.name])
      && (!order.regionPaused && order.nextDC == "" ==> forall p :: p in pods ==> !config.value[p.name])
      && (!order.regionPaused && order.nextDC != "" ==>
            forall p :: p in pods ==> (!config.value[p.name] <==> p.dc == order.nextDC && MayStart(pods, p)))
  {
    hide SeedPodsReady, NextNonSeed, PausePodInit, MayStart;
    var entries: map<string, bool> := map[];
    var seedsReady := SeedPodsReady(pods, order.nextDC);
    var nextNonSeed := NextNonSeedPodToInit(pods, order.nextDC);
    for i := 0 to |pods|
      invariant forall x :: x in entries <==> exists k :: 0 <= k < i && pods[k].name == x
      invariant forall k :: 0 <= k < i ==> pods[k].ip != "" && entries[pods[k].name] == Paused(pods, pods[k], order)
    {
      if pods[i].ip == "" {
        return None;
      }
      entries := entries[pods[i].name := PausePodInit(pods[i], order, seedsReady, nextNonSeed)];
    }
    forall p | p in pods
      ensures p.name in entries && entries[p.name] == Paused(pods, p, order)
      ensures order.regionPaused ==> Paused(pods, p, order)
      ensures !order.regionPaused && order.nextDC == "" ==> !Paused(pods, p, order)
      ensures !order.regionPaused && order.nextDC != "" ==> (!Paused(pods, p, order) <==> p.dc == order.nextDC && MayStart(pods, p))
    {
      PausedMeans(pods, p, order);
    }
    return Some(entries);
  }

  /******* Which DC, which region *******/

  /** A DC is unready while its statefulset is missing or has another number of ready pods. */
  predicate UnreadyDC(dc: DC, readyReplicas: Option<nat>) {
    readyReplicas.None? || readyReplicas.value != dc.replicas || (readyReplicas.value == 0 && dc.replicas != 0)
  }

  function UnreadyDCs(dcs: seq<DC>, counts: seq<Option<nat>>): seq<string>
    requires |counts| == |dcs|
  {
    if dcs == [] then []
    else (if UnreadyDC(dcs[0], counts[0]) then [dcs[0].name] else []) + UnreadyDCs(dcs[1..], counts[1..])
  }

  lemma {:induction false} UnreadyDCsMembers(dcs: seq<DC>, counts: seq<Option<nat>>, name: string)
    requires |counts| == |dcs|
    ensures name in UnreadyDCs(dcs, counts) <==> exists i :: 0 <= i < |dcs| && dcs[i].name == name && UnreadyDC(dcs[i], counts[i])
  {
    if dcs != [] {
      UnreadyDCsMembers(dcs[1..], counts[1..], name);
      if i :| 0 <= i < |dcs| && dcs[i].name == name && UnreadyDC(dcs[i], counts[i]) {
        if i > 0 {
          assert dcs[1..][i - 1] == dcs[i] && counts[1..][i - 1] == counts[i];
        }
      }
    }
  }

  /** getNextLocalDCToInit */
  function NextLocalDC(dcs: seq<DC>, unready: seq<string>): string {
    if dcs == [] then ""
    else if dcs[0].name in unready then dcs[0].name
    else NextLocalDC(dcs[1..], unready)
  }

  lemma {:induction false} NextLocalDCIsFirst(dcs: seq<DC>, unready: seq<string>)
    requires forall i :: 0 <= i < |dcs| ==> dcs[i].name != ""
    ensures var d := NextLocalDC(dcs, unready);
            if d == "" then forall i :: 0 <= i < |dcs| ==> dcs[i].name !in unready
            else exists k :: 0 <= k < |dcs| && dcs[k].name == d && d in unready && forall i :: 0 <= i < k ==> dcs[i].name !in unready
  {
    if dcs != [] && dcs[0].name !in unready {
      NextLocalDCIsFirst(dcs[1..], unready);
      var d := NextLocalDC(dcs[1..], unready);
      if d != "" {
        var k :| 0 <= k < |dcs[1..]| && dcs[1..][k].name == d && forall i :: 0 <= i < k ==> dcs[1..][i].name !in unready;
        assert dcs[k + 1].name == d;
        forall i | 0 <= i < k + 1 ensures dcs[i].name !in unready {
          if i > 0 {
            assert dcs[1..][i - 1] == dcs[i];
          }
        }
      } else {
        forall i | 0 <= i < |dcs| ensures dcs[i].name !in unready {
          if i > 0 {
            assert dcs[1..][i - 1] == dcs[i];
          }
        }
      }
    }
  }

  function ListedHosts(managed: seq<Region>): seq<string> {
    if managed == [] then []
    else (if managed[0].domain != "" then [managed[0].host] else []) + ListedHosts(managed[1..])
  }

  /** getAllRegionsHosts */
  function AllRegionsHosts(spec: Spec): seq<string> {
    SortStrings(ListedHosts(spec.managed) + [spec.host])
  }

  /** A host that gave no answer counts as unready. */
  predicate Holds(statuses: map<string, bool>, host: string) {
    host in statuses && statuses[host]
  }

  /** getNextRegionToInit */
  function FirstUnready(hosts: seq<string>, statuses: map<string, bool>): string {
    if hosts == [] then ""
    else if !Holds(statuses, hosts[0]) then hosts[0]
    else FirstUnready(hosts[1..], statuses)
  }

  lemma {:induction false} FirstUnreadyIsFirst(hosts: seq<string>, statuses: map<string, bool>)
    requires Sorted(hosts) && forall i :: 0 <= i < |hosts| ==> hosts[i] != ""
    ensures var h := FirstUnready(hosts, statuses);
            if h == "" then forall x :: x in hosts ==> Holds(statuses, x)
            else h in hosts && !Holds(statuses, h) && forall x :: x in hosts && !Holds(statuses, x) ==> LexLe(h, x)
  {
    if hosts != [] {
      assert hosts == [hosts[0]] + hosts[1..];
      LexLeReflexive(hosts[0]);
      FirstUnreadyIsFirst(hosts[1..], statuses);
    }
  }

  /** getInitOrderInfo, once the unready DCs and the answers of the managed regions are known. */
  function InitOrder(spec: Spec, unready: seq<string>, remote: map<string, bool>): Order {
    if !spec.hostPort then Order(false, NextLocalDC(spec.dcs, unready))
    else if spec.managed == [] then Order(false, "")
    else
      var statuses := remote[spec.host := unready == []];
      var next := FirstUnready(AllRegionsHosts(spec), statuses);
      if next == "" || statuses[spec.host] then Order(false, "")
      else if next != spec.host then Order(true, "")
      else Order(false, NextLocalDC(spec.dcs, unready))
  }

  function Statuses(managed: seq<Region>, answers: seq<bool>): map<string, bool>
    requires |answers| <= |managed|
  {
    if answers == [] then map[]
    else Statuses(managed, answers[..|answers| - 1])[managed[|answers| - 1].host := answers[|answers| - 1]]
  }

  /** Some DC of this name has no statefulset or not the wanted number of ready pods. */
  ghost predicate NotReady(dcs: seq<DC>, counts: seq<Option<nat>>, name: string)
    requires |counts| == |dcs|
  {
    exists i :: 0 <= i < |dcs| && dcs[i].name == name && counts[i] != Some(dcs[i].replicas)
  }

  ghost predicate EveryDCReady(dcs: seq<DC>, counts: seq<Option<nat>>)
    requires |counts| == |dcs|
  {
    forall i :: 0 <= i < |dcs| ==> counts[i] == Some(dcs[i].replicas)
  }

  /** The first DC of the spec that is not ready, or nothing. */
  ghost predicate IsNextDC(dcs: seq<DC>, counts: seq<Option<nat>>, name: string)
    requires |counts| == |dcs|
  {
    if name == "" then EveryDCReady(dcs, counts)
    else exists k :: 0 <= k < |dcs| && dcs[k].name == name && NotReady(dcs, counts, name)
                     && forall i :: 0 <= i < k ==> !NotReady(dcs, counts, dcs[i].name)
  }

  /** The last answer from this host was that its region is ready. */
  ghost predicate ToldReady(managed: seq<Region>, answers: seq<Option<bool>>, host: string)
    requires |answers| == |managed|
  {
    exists i :: 0 <= i < |managed| && managed[i].host == host && answers[i] == Some(true)
                && forall j :: i < j < |managed| ==> managed[j].host != host
  }

  /** A listed region with a smaller host is not known to be ready. */
  ghost predicate OthersComeFirst(spec: Spec, answers: seq<Option<bool>>)
    requires |answers| == |spec.managed|
  {
    exists i :: 0 <= i < |spec.managed| && spec.managed[i].domain != "" && LexLess(spec.managed[i].host, spec.host)
                && !ToldReady(spec.managed, answers, spec.managed[i].host)
  }

  /** What the order is: with host ports the regions go by host, and a region that is ready, or alone,
      holds nobody back; the DCs of a region go in the order of the spec. */
  ghost predicate IsOrder(spec: Spec, counts: seq<Option<nat>>, answers: seq<Option<bool>>, order: Order)
    requires |counts| == |spec.dcs| && |answers| == |spec.managed|
  {
    if spec.hostPort && (spec.managed == [] || EveryDCReady(spec.dcs, counts)) then order == Order(false, "")
    else if spec.hostPort && OthersComeFirst(spec, answers) then order == Order(true, "")
    else !order.regionPaused && IsNextDC(spec.dcs, counts, order.nextDC)
  }

  ghost predicate NamesGiven(spec: Spec) {
    && spec.host != "" && (forall i :: 0 <= i < |spec.dcs| ==> spec.dcs[i].name != "")
    && forall i :: 0 <= i < |spec.managed| ==> spec.managed[i].host != ""
  }

  lemma UnreadyAreNotReady(dcs: seq<DC>, counts: seq<Option<nat>>)
    requires |counts| == |dcs|
    ensures forall name :: name in UnreadyDCs(dcs, counts) <==> NotReady(dcs, counts, name)
    ensures UnreadyDCs(dcs, counts) == [] <==> EveryDCReady(dcs, counts)
  {
    var unready := UnreadyDCs(dcs, counts);
    forall name ensures name in unready <==> NotReady(dcs, counts, name) {
      UnreadyDCsMembers(dcs, counts, name);
    }
    if !EveryDCReady(dcs, counts) {
      var i :| 0 <= i < |dcs| && counts[i] != Some(dcs[i].replicas);
      assert NotReady(dcs, counts, dcs[i].name);
    }
    if unready != [] {
      assert unready[0] in unready;
    }
  }

  lemma NextDCIs(dcs: seq<DC>, counts: seq<Option<nat>>)
    requires |counts| == |dcs| && forall i :: 0 <= i < |dcs| ==> dcs[i].name != ""
    ensures IsNextDC(dcs, counts, NextLocalDC(dcs, UnreadyDCs(dcs, counts)))
  {
    hide NotReady;
    var unready := UnreadyDCs(dcs, counts);
    UnreadyAreNotReady(dcs, counts);
    NextLocalDCIsFirst(dcs, unready);
    if NextLocalDC(dcs, unready) == "" && unready != [] {
      assert unready[0] in unready;
      UnreadyDCsMembers(dcs, counts, unready[0]);
    }
  }

  lemma {:induction false} StatusesTell(managed: seq<Region>, answers: seq<Option<bool>>, given: seq<bool>, host: string)
    requires |answers| == |managed| == |given| && forall i :: 0 <= i < |given| ==> answers[i] == Some(given[i])
    ensures Holds(Statuses(managed, given), host) <==> ToldReady(managed, answers, host)
  {
    if given != [] {
      var n := |given| - 1;
      StatusesTell(managed[..n], answers[..n], given[..n], host);
      StatusesIgnoreRest(managed, given[..n]);
      if managed[n].host == host {
        assert answers[n] == Some(given[n]);
      } else if i :| 0 <= i < n && managed[i].host == host && answers[i] == Some(true)
                     && forall j :: i < j < |managed| ==> managed[j].host != host {
        assert managed[..n][i] == managed[i];
      }
    }
  }

  lemma {:induction false} StatusesIgnoreRest(managed: seq<Region>, given: seq<bool>)
    requires |given| <= |managed|
    ensures Statuses(managed, given) == Statuses(managed[..|given|], given)
    decreases |given|
  {
    if given != [] {
      var n := |given| - 1;
      StatusesIgnoreRest(managed, given[..n]);
      StatusesIgnoreRest(managed[..n + 1], given[..n]);
      assert managed[..n + 1][..n] == managed[..n];
    }
  }

  lemma {:induction false} ListedHostsMembers(managed: seq<Region>, h: string)
    ensures h in ListedHosts(managed) <==> exists i :: 0 <= i < |managed| && managed[i].domain != "" && managed[i].host == h
  {
    if managed != [] {
      ListedHostsMembers(managed[1..], h);
      if i :| 0 <= i < |managed| && managed[i].domain != "" && managed[i].host == h {
        assert i > 0 ==> managed[1..][i - 1] == managed[i];
      }
    }
  }

  lemma OthersPause(spec: Spec, counts: seq<Option<nat>>, answers: seq<Option<bool>>, given: seq<bool>)
    requires |counts| == |spec.dcs| && |answers| == |spec.managed| == |given| && NamesGiven(spec) && !EveryDCReady(spec.dcs, counts)
    requires forall i :: 0 <= i < |given| ==> answers[i] == Some(given[i])
    ensures var next := FirstUnready(AllRegionsHosts(spec), Statuses(spec.managed, given)[spec.host := false]);
            next != "" && (next != spec.host <==> OthersComeFirst(spec, answers))
  {
    hide LexLe, SortStrings, Sorted, ToldReady, Statuses, ListedHosts, EveryDCReady;
    var hosts, statuses := AllRegionsHosts(spec), Statuses(spec.managed, given)[spec.host := false];
    SortStringsSorts(ListedHosts(spec.managed) + [spec.host]);
    SortStringsMembers(ListedHosts(spec.managed) + [spec.host]);
    forall h
      ensures h in hosts
              <==> h == spec.host || exists i :: 0 <= i < |spec.managed| && spec.managed[i].domain != "" && spec.managed[i].host == h
    {
      ListedHostsMembers(spec.managed, h);
    }
    forall h ensures h != spec.host ==> (Holds(statuses, h) <==> ToldReady(spec.managed, answers, h)) {
      StatusesTell(spec.managed, answers, given, h);
    }
    forall i | 0 <= i < |hosts| ensures hosts[i] != "" {
      assert hosts[i] in hosts;
    }
    FirstUnreadyIsFirst(hosts, statuses);
    var next := FirstUnready(hosts, statuses);
    assert spec.host in hosts && !Holds(statuses, spec.host);
    if i :| 0 <= i < |spec.managed| && spec.managed[i].domain != "" && LexLess(spec.managed[i].host, spec.host)
            && !ToldReady(spec.managed, answers, spec.managed[i].host) {
      assert LexLe(next, spec.managed[i].host);
      if next == spec.host {
        LexLeAntisymmetric(next, spec.managed[i].host);
      }
    }
  }

  /** What getInitOrderInfo derives, in terms of the counts and answers themselves. */
  lemma OrderIs(spec: Spec, counts: seq<Option<nat>>, answers: seq<Option<bool>>, given: seq<bool>)
    requires |counts| == |spec.dcs| && |answers| == |spec.managed| && NamesGiven(spec)
    requires spec.hostPort ==> |given| == |answers| && forall i :: 0 <= i < |given| ==> answers[i] == Some(given[i])
    requires !spec.hostPort ==> given == []
    ensures IsOrder(spec, counts, answers, InitOrder(spec, UnreadyDCs(spec.dcs, counts), Statuses(spec.managed, given)))
  {
    hide AllRegionsHosts, FirstUnready, OthersComeFirst, EveryDCReady, IsNextDC;
    UnreadyAreNotReady(spec.dcs, counts);
    NextDCIs(spec.dcs, counts);
    if spec.hostPort && spec.managed != [] && !EveryDCReady(spec.dcs, counts) {
      OthersPause(spec, counts, answers, given);
    }
  }

  /** getInitOrderInfo with what it reads along the way: `counts` are the ready
      replicas of the statefulsets, `answers` what the probers say, if they answer. */
  method GetInitOrderInfo(spec: Spec, counts: seq<Option<nat>>, answers: seq<Option<bool>>) returns (order: Option<Order>)
    requires |counts| == |spec.dcs| && |answers| == |spec.managed|
    ensures order.None? <==> spec.hostPort && exists i :: 0 <= i < |answers| && answers[i].None?
    ensures order.Some? ==>
      var given := if spec.hostPort then seq(|answers|, i requires 0 <= i < |answers| && answers[i].Some? => answers[i].value) else [];
      order.value == InitOrder(spec, UnreadyDCs(spec.dcs, counts), Statuses(spec.managed, given))
    ensures order.Some? && NamesGiven(spec) ==> IsOrder(spec, counts, answers, order.value)
  {
    hide IsOrder;
    var unready: seq<string> := [];
    for i := 0 to |spec.dcs|
      invariant unready == UnreadyDCs(spec.dcs[..i], counts[..i])
    {
      UnreadyDCsSnoc(spec.dcs[..i], counts[..i], spec.dcs[i], counts[i]);
      assert spec.dcs[..i + 1] == spec.dcs[..i] + [spec.dcs[i]] && counts[..i + 1] == counts[..i] + [counts[i]];
      if UnreadyDC(spec.dcs[i], counts[i]) {
        unready := unready + [spec.dcs[i].name];
      }
    }
    assert spec.dcs[..|spec.dcs|] == spec.dcs && counts[..|counts|] == counts;
    if !spec.hostPort {
      if NamesGiven(spec) {
        OrderIs(spec, counts, answers, []);
      }
      return Some(InitOrder(spec, unready, map[]));
    }
    var remote: map<string, bool> := map[];
    ghost var given: seq<bool> := [];
    for i := 0 to |answers|
      invariant |given| == i && forall k :: 0 <= k < i ==> answers[k] == Some(given[k])
      invariant remote == Statuses(spec.managed, given)
    {
      if answers[i].None? {
        return None;
      }
      remote := remote[spec.managed[i].host := answers[i].value];
      assert (given + [answers[i].value])[..i] == given;
      given := given + [answers[i].value];
    }
    assert given == seq(|answers|, i requires 0 <= i < |answers| && answers[i].Some? => answers[i].value);
    if NamesGiven(spec) {
      OrderIs(spec, counts, answers, given);
    }
    return Some(InitOrder(spec, unready, remote));
  }

  lemma {:induction false} UnreadyDCsSnoc(dcs: seq<DC>, counts: seq<Option<nat>>, dc: DC, count: Option<nat>)
    requires |counts| == |dcs|
    ensures UnreadyDCs(dcs + [dc], counts + [count]) == UnreadyDCs(dcs, counts) + if UnreadyDC(dc, count) then [dc.name] else []
  {
    if dcs != [] {
      UnreadyDCsSnoc(dcs[1..], counts[1..], dc, count);
      assert (dcs + [dc])[1..] == dcs[1..] + [dc] && (counts + [count])[1..] == counts[1..] + [count];
    }
  }

  /** With host ports and no other managed region nothing is ordered: every pod may start at once. */
  lemma HostPortsAloneImposeNoOrder(spec: Spec, unready: seq<string>, remote: map<string, bool>, pods: seq<Pod>, p: Pod)
    requires spec.hostPort && spec.managed == []
    ensures !Paused(pods, p, InitOrder(spec, unready, remote))
  {
  }

  /** A seed that reports no container at all counts as ready for the gate and as unready for itself. */
  lemma SeedGateExact(pods: seq<Pod>, dc: string)
    requires SeedPodsReady(pods, dc)
    ensures (forall p :: p in pods && p.dc == dc && p.seed ==> PodReady(p))
       <==> (forall p :: p in pods && p.dc == dc && p.seed ==> p.statuses != [])
  {
    forall p | p in pods && p.dc == dc && p.seed ensures AllReady(p.statuses) {
      var i :| 0 <= i < |pods| && pods[i] == p;
    }
  }

  lemma SeedWithoutStatusesOpensTheGate(dc: string)
    requires dc != ""
    ensures var seed, other := Pod("a", dc, true, [], "1"), Pod("b", dc, false, [false], "2");
            !PodReady(seed) && !Paused([seed, other], other, Order(false, dc))
  {
    var seed, other := Pod("a", dc, true, [], "1"), Pod("b", dc, false, [false], "2");
    LexLeReflexive("b");
    NextNonSeedIsLeast([seed, other], dc, "b");
  }
}
