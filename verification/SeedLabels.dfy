/** Seed pods: the labels of controllers/cassandra_pod_labels.go and the seed list of
    cassandra_pods_config.go:323-366 must name the same pods. */
module SeedLabels {
  import opened DataCenters
  import opened Option
  import opened Text

  datatype Spec = Spec(cluster: string, namespace: string, dcs: seq<DC>, numSeeds: int, hostPort: bool)

  /** dcNumberOfSeeds */
  function NumberOfSeeds(numSeeds: int, replicas: nat): (seeds: int)
    ensures numSeeds >= 1 ==> (seeds >= 1 <==> replicas >= 1)
    ensures replicas >= 2 ==> seeds < replicas
    ensures replicas >= 2 ==> seeds == if numSeeds < replicas - 1 then numSeeds else replicas - 1
    ensures replicas < 2 ==> seeds == if numSeeds < replicas then numSeeds else replicas
  {
    if numSeeds >= replicas then if replicas <= 1 then replicas else replicas - 1
    else numSeeds
  }

  function SeedsOfDC(cluster: string, dc: string, count: int): seq<string> {
    if count <= 0 then [] else SeedsOfDC(cluster, dc, count - 1) + [PodName(DCName(cluster, dc), count - 1)]
  }

  function SeedPods(spec: Spec, dcs: seq<DC>): seq<string> {
    if dcs == [] then []
    else
      var last := dcs[|dcs| - 1];
      SeedPods(spec, dcs[..|dcs| - 1]) + SeedsOfDC(spec.cluster, last.name, NumberOfSeeds(spec.numSeeds, last.replicas))
  }

  /** The pod with this ordinal is one of the seeds of its DC. */
  ghost predicate SeedOrdinal(spec: Spec, dcs: seq<DC>, dc: string, ordinal: nat) {
    exists i :: 0 <= i < |dcs| && dcs[i].name == dc && ordinal < NumberOfSeeds(spec.numSeeds, dcs[i].replicas)
  }

  lemma {:induction false} SeedsOfDCMembers(cluster: string, dc: string, count: int, x: string)
    ensures x in SeedsOfDC(cluster, dc, count) <==> exists k: nat :: k < count && x == PodName(DCName(cluster, dc), k)
  {
    if count > 0 {
      SeedsOfDCMembers(cluster, dc, count - 1, x);
    }
  }

  /** A pod's name decides whether it is a seed: names of different DCs and ordinals never meet. */
  lemma {:induction false} SeedPodsMembers(spec: Spec, dcs: seq<DC>, dc: string, ordinal: nat)
    ensures PodName(DCName(spec.cluster, dc), ordinal) in SeedPods(spec, dcs) <==> SeedOrdinal(spec, dcs, dc, ordinal)
  {
    if dcs != [] {
      var init, last := dcs[..|dcs| - 1], dcs[|dcs| - 1];
      var x := PodName(DCName(spec.cluster, dc), ordinal);
      var count := NumberOfSeeds(spec.numSeeds, last.replicas);
      SeedPodsMembers(spec, init, dc, ordinal);
      SeedsOfDCMembers(spec.cluster, last.name, count, x);
      assert SeedOrdinal(spec, dcs, dc, ordinal) <==> SeedOrdinal(spec, init, dc, ordinal) || (last.name == dc && ordinal < count) by {
        assert forall i :: 0 <= i < |init| ==> init[i] == dcs[i];
      }
      if k: nat :| k < count && x == PodName(DCName(spec.cluster, last.name), k) {
        PodNameInjective(DCName(spec.cluster, dc), ordinal, DCName(spec.cluster, last.name), k);
        DCNameInjective(spec.cluster, dc, last.name);
      }
    }
  }

  /** Every DC that has pods has a seed, and every DC with two pods or more keeps one that is not. */
  lemma EveryDCHasSeedAndOther(spec: Spec, i: nat)
    requires spec.numSeeds >= 1 && DistinctDCs(spec.dcs) && i < |spec.dcs|
    ensures var dc := spec.dcs[i];
            var sts := DCName(spec.cluster, dc.name);
            && (dc.replicas >= 1 ==> PodName(sts, 0) in SeedPods(spec, spec.dcs))
            && (dc.replicas >= 2 ==> PodName(sts, dc.replicas - 1) !in SeedPods(spec, spec.dcs))
  {
    var dc := spec.dcs[i];
    SeedPodsMembers(spec, spec.dcs, dc.name, 0);
    if dc.replicas >= 2 {
      SeedPodsMembers(spec, spec.dcs, dc.name, dc.replicas - 1);
    }
  }

  /******* The label loop *******/

  class Pod {
    const name: string
    var seedLabel: Option<string>

    constructor (name: string, seedLabel: Option<string>)
      ensures this.name == name && this.seedLabel == seedLabel
    {
      this.name, this.seedLabel := name, seedLabel;
    }
  }

  method SeedPodNames(spec: Spec) returns (names: seq<string>)
    ensures names == SeedPods(spec, spec.dcs)
  {
    names := [];
    for i := 0 to |spec.dcs|
      invariant names == SeedPods(spec, spec.dcs[..i])
    {
      var dc := spec.dcs[i];
      assert spec.dcs[..i + 1][..i] == spec.dcs[..i];
      var numSeeds := NumberOfSeeds(spec.numSeeds, dc.replicas);
      for k := 0 to if numSeeds > 0 then numSeeds else 0
        invariant names == SeedPods(spec, spec.dcs[..i]) + SeedsOfDC(spec.cluster, dc.name, k)
      {
        names := names + [PodName(DCName(spec.cluster, dc.name), k)];
      }
    }
    assert spec.dcs[..|spec.dcs|] == spec.dcs;
  }

  /** The label a pod should carry; an existing one is left as it is. */
  function LabelFor(seeds: seq<string>, name: string, seedLabel: Option<string>): Option<string> {
    if name !in seeds then None else if seedLabel.Some? then seedLabel else Some(name)
  }

  /** reconcileCassandraPodLabels: afterwards exactly the seeds are labelled. An update may
      fail; then the pods before it are done and the others are as they were. */
  method ReconcileCassandraPodLabels(spec: Spec, pods: seq<Pod>, reliable: bool) returns (ok: bool, updates: nat)
    requires Distinct(pods)
    modifies pods
    ensures ok ==> forall i :: 0 <= i < |pods| ==> (pods[i].seedLabel.Some? <==> pods[i].name in SeedPods(spec, spec.dcs))
    ensures ok ==> forall i :: 0 <= i < |pods| && pods[i].seedLabel.Some? ==>
                     pods[i].seedLabel == if old(pods[i].seedLabel).Some? then old(pods[i].seedLabel) else Some(pods[i].name)
    ensures reliable ==> ok
    ensures forall i :: 0 <= i < |pods| ==>
              pods[i].seedLabel in {old(pods[i].seedLabel), LabelFor(SeedPods(spec, spec.dcs), pods[i].name, old(pods[i].seedLabel))}
    ensures (forall i :: 0 <= i < |pods| ==> (old(pods[i].seedLabel).Some? <==> pods[i].name in SeedPods(spec, spec.dcs))) ==>
              ok && updates == 0
  {
    updates := 0;
    if |pods| == 0 {
      return true, 0;
    }
    var seeds := SeedPodNames(spec);
    for i := 0 to |pods|
      invariant forall k :: 0 <= k < i ==> pods[k].seedLabel == LabelFor(seeds, pods[k].name, old(pods[k].seedLabel))
      invariant forall k :: i <= k < |pods| ==> pods[k].seedLabel == old(pods[k].seedLabel)
      invariant (forall k :: 0 <= k < i ==> (old(pods[k].seedLabel).Some? <==> pods[k].name in seeds)) ==> updates == 0
    {
      var pod := pods[i];
      assert forall k :: 0 <= k < |pods| && k != i ==> pods[k] != pod;
      var isSeed := pod.name in seeds;
      if pod.seedLabel.Some? == isSeed {
        continue;
      }
      ok := *;
      ok := ok || reliable;
      if !ok {
        assert old(pods[i].seedLabel).Some? != (pods[i].name in seeds);
        return;
      }
      updates := updates + 1;
      pod.seedLabel := if isSeed then Some(pod.name) else None;
    }
    ok := true;
  }

  /******* The seed list *******/

  /** getSeedHostname and the lookup of broadcast addresses: what the seed list says of a seed. */
  function SeedHost(spec: Spec, broadcast: map<string, string>, dc: string, ordinal: nat): string {
    var svc := DCName(spec.cluster, dc);
    var pod := PodName(svc, ordinal);
    if spec.hostPort then if pod in broadcast then broadcast[pod] else ""
    else pod + ("." + (svc + "." + spec.namespace + ".svc.cluster.local"))
  }

  /** The host is how the seed list names this pod. */
  ghost predicate HostOf(spec: Spec, broadcast: map<string, string>, pod: string, host: string) {
    exists dc, ordinal :: pod == PodName(DCName(spec.cluster, dc), ordinal) && host == SeedHost(spec, broadcast, dc, ordinal)
  }

  ghost predicate HostsOf(spec: Spec, broadcast: map<string, string>, pods: seq<string>, hosts: seq<string>) {
    |hosts| == |pods| && forall k :: 0 <= k < |hosts| ==> HostOf(spec, broadcast, pods[k], hosts[k])
  }

  lemma HostsSnoc(spec: Spec, broadcast: map<string, string>, pods: seq<string>, hosts: seq<string>, dc: string, ordinal: nat)
    requires HostsOf(spec, broadcast, pods, hosts)
    ensures HostsOf(spec, broadcast, pods + [PodName(DCName(spec.cluster, dc), ordinal)],
                    hosts + [SeedHost(spec, broadcast, dc, ordinal)])
  {
    hide SeedHost, PodName;
    assert HostOf(spec, broadcast, PodName(DCName(spec.cluster, dc), ordinal), SeedHost(spec, broadcast, dc, ordinal));
  }

  /** getLocalSeedsHostnames: one entry for each seed pod, in the same order. */
  method GetLocalSeedsHostnames(spec: Spec, broadcast: map<string, string>) returns (hosts: seq<string>)
    ensures HostsOf(spec, broadcast, SeedPods(spec, spec.dcs), hosts)
    ensures |hosts| == |SeedPods(spec, spec.dcs)|
    ensures forall k :: 0 <= k < |hosts| ==> IsEntry(spec, broadcast, SeedPods(spec, spec.dcs)[k], hosts[k])
  {
    hide HostsOf, SeedHost, PodName, NumberOfSeeds;
    hosts := [];
    NoHosts(spec, broadcast);
    for i := 0 to |spec.dcs|
      invariant HostsOf(spec, broadcast, SeedPods(spec, spec.dcs[..i]), hosts)
    {
      var dc := spec.dcs[i];
      assert spec.dcs[..i + 1][..i] == spec.dcs[..i];
      var numSeeds := NumberOfSeeds(spec.numSeeds, dc.replicas);
      ghost var done := SeedPods(spec, spec.dcs[..i]);
      assert done + SeedsOfDC(spec.cluster, dc.name, 0) == done;
      for k := 0 to if numSeeds > 0 then numSeeds else 0
        invariant HostsOf(spec, broadcast, done + SeedsOfDC(spec.cluster, dc.name, k), hosts)
      {
        HostsSnoc(spec, broadcast, done + SeedsOfDC(spec.cluster, dc.name, k), hosts, dc.name, k);
        assert done + SeedsOfDC(spec.cluster, dc.name, k) + [PodName(DCName(spec.cluster, dc.name), k)]
            == done + SeedsOfDC(spec.cluster, dc.name, k + 1);
        hosts := hosts + [SeedHost(spec, broadcast, dc.name, k)];
      }
    }
    assert spec.dcs[..|spec.dcs|] == spec.dcs;
    HostsAreEntries(spec, broadcast, SeedPods(spec, spec.dcs), hosts);
  }

  /** What an entry of the seed list says of a pod: with host ports its address, or nothing without one;
      otherwise its name in its service and namespace. */
  ghost predicate IsEntry(spec: Spec, broadcast: map<string, string>, pod: string, host: string) {
    exists dc, ordinal: nat ::
      var service := spec.cluster + "-cassandra-" + dc;
      && pod == service + "-" + Itoa(ordinal)
      && host == if spec.hostPort then (if pod in broadcast then broadcast[pod] else "")
                 else pod + "." + service + "." + spec.namespace + ".svc.cluster.local"
  }

  lemma HostsAreEntries(spec: Spec, broadcast: map<string, string>, pods: seq<string>, hosts: seq<string>)
    requires HostsOf(spec, broadcast, pods, hosts)
    ensures |hosts| == |pods| && forall k :: 0 <= k < |hosts| ==> IsEntry(spec, broadcast, pods[k], hosts[k])
  {
    hide IsEntry, HostOf;
    forall k | 0 <= k < |hosts| ensures IsEntry(spec, broadcast, pods[k], hosts[k]) {
      HostIsEntry(spec, broadcast, pods[k], hosts[k]);
    }
  }

  lemma HostIsEntry(spec: Spec, broadcast: map<string, string>, pod: string, host: string)
    requires HostOf(spec, broadcast, pod, host)
    ensures IsEntry(spec, broadcast, pod, host)
  {
    hide Itoa;
    var dc, ordinal :| pod == PodName(DCName(spec.cluster, dc), ordinal) && host == SeedHost(spec, broadcast, dc, ordinal);
    var service := spec.cluster + "-cassandra-" + dc;
    assert service == DCName(spec.cluster, dc) && pod == service + "-" + Itoa(ordinal);
    Regrouped(pod, service, spec.namespace);
  }

  lemma Regrouped(pod: string, service: string, namespace: string)
    ensures pod + ("." + (service + "." + namespace + ".svc.cluster.local")) == pod + "." + service + "." + namespace + ".svc.cluster.local"
  {
  }

  lemma NoHosts(spec: Spec, broadcast: map<string, string>)
    ensures HostsOf(spec, broadcast, SeedPods(spec, spec.dcs[..0]), [])
  {
  }

  /** Without host ports the host tells the pod: DC names hold no dots. */
  lemma HostTellsPod(spec: Spec, broadcast: map<string, string>, a: string, b: string, host: string)
    requires !spec.hostPort && HostOf(spec, broadcast, a, host) && HostOf(spec, broadcast, b, host)
    requires '.' !in a && '.' !in b
    ensures a == b
  {
    hide PodName, DCName;
    var c, m :| a == PodName(DCName(spec.cluster, c), m) && host == SeedHost(spec, broadcast, c, m);
    var d, n :| b == PodName(DCName(spec.cluster, d), n) && host == SeedHost(spec, broadcast, d, n);
    var x := DCName(spec.cluster, c) + "." + spec.namespace + ".svc.cluster.local";
    var y := DCName(spec.cluster, d) + "." + spec.namespace + ".svc.cluster.local";
    FirstDot(a, x);
    FirstDot(b, y);
    assert host[..|a|] == a && host[..|b|] == b;
  }

  /** Without host ports the seed list names exactly the pods that carry the label. */
  lemma SeedListNamesTheSeeds(spec: Spec, broadcast: map<string, string>, hosts: seq<string>, pod: string)
    requires !spec.hostPort && HostsOf(spec, broadcast, SeedPods(spec, spec.dcs), hosts)
    requires '.' !in pod && forall x :: x in SeedPods(spec, spec.dcs) ==> '.' !in x
    ensures pod in SeedPods(spec, spec.dcs) <==> exists k :: 0 <= k < |hosts| && HostOf(spec, broadcast, pod, hosts[k])
  {
    hide HostOf, SeedPods;
    var seeds := SeedPods(spec, spec.dcs);
    if k :| 0 <= k < |hosts| && HostOf(spec, broadcast, pod, hosts[k]) {
      assert seeds[k] in seeds;
      HostTellsPod(spec, broadcast, pod, seeds[k], hosts[k]);
    }
    if pod in seeds {
      var k :| 0 <= k < |seeds| && seeds[k] == pod;
      assert HostOf(spec, broadcast, pod, hosts[k]);
    }
  }

  /** Every pod has an address, and no two have the same. */
  ghost predicate DistinctAddresses(broadcast: map<string, string>) {
    && (forall p :: p in broadcast ==> broadcast[p] != "")
    && (forall p, q :: p in broadcast && q in broadcast && p != q ==> broadcast[p] != broadcast[q])
  }

  /** With host ports the list that other regions read holds exactly the addresses of the pods that
      carry the label; a seed whose pod does not exist leaves an empty entry in its place. */
  lemma SeedListHoldsTheSeedAddresses(spec: Spec, broadcast: map<string, string>, hosts: seq<string>)
    requires spec.hostPort && DistinctAddresses(broadcast) && HostsOf(spec, broadcast, SeedPods(spec, spec.dcs), hosts)
    ensures forall pod :: pod in broadcast ==> (pod in SeedPods(spec, spec.dcs) <==> broadcast[pod] in hosts)
    ensures forall k :: 0 <= k < |hosts| ==> (hosts[k] == "" <==> SeedPods(spec, spec.dcs)[k] !in broadcast)
  {
    hide SeedPods, PodName, DCName;
    var seeds := SeedPods(spec, spec.dcs);
    forall k | 0 <= k < |hosts| ensures hosts[k] == if seeds[k] in broadcast then broadcast[seeds[k]] else "" {
      assert HostOf(spec, broadcast, seeds[k], hosts[k]);
    }
    forall pod | pod in broadcast ensures pod in seeds <==> broadcast[pod] in hosts {
      if pod in seeds {
        var k :| 0 <= k < |seeds| && seeds[k] == pod;
        assert hosts[k] == broadcast[pod];
      }
      if broadcast[pod] in hosts {
        var k :| 0 <= k < |hosts| && hosts[k] == broadcast[pod];
        assert seeds[k] == pod;
        assert seeds[k] in seeds;
      }
    }
  }

  lemma {:induction false} FirstDot(a: string, x: string)
    requires '.' !in a
    ensures Find(a + ("." + x), '.') == |a|
  {
    if a != "" {
      FirstDot(a[1..], x);
      assert (a + ("." + x))[1..] == a[1..] + ("." + x);
    }
  }
}
