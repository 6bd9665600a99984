/** Scaling a region and removing its DCs, one reconcile pass at a time:
    controllers/cassandra_scaling.go, cassandra.go:23-41, cassandra_statefulset.go:52-82
    and the order of controller.go:264-377. */
module Scaling {
  import opened DataCenters
  import opened Keyspaces
  import opened Option
  import opened Text

  /** A statefulset: its DC label and its replica count. */
  datatype Sts = Sts(dc: string, replicas: nat)

  /** A pod as a pass lists it. */
  datatype Peer = Peer(name: string, dc: string)

  datatype Mode = Normal | Leaving | Other

  /** What Cassandra answers during a pass. A pod absent from `modes`, or absent from
      `views` as the asker, does not answer; `views` holds who sees whom as live. */
  datatype Answers = Answers(pods: seq<Peer>, modes: map<string, Mode>, views: map<string, set<string>>)

  /** `others` are the DCs of other regions. */
  datatype Spec = Spec(cluster: string, dcs: seq<DC>, settings: Settings, others: seq<Site>)

  /** The stores a pass works on. */
  datatype State = State(
    sts: map<string, Sts>,
    services: set<string>,
    deployments: set<string>,
    keyspaces: map<string, Replication>)

  predicate Desired(spec: Spec, dc: string) {
    dc in DCNames(spec.dcs)
  }

  predicate LeavingSts(spec: Spec, sts: map<string, Sts>, name: string) {
    name in sts && !Desired(spec, sts[name].dc)
  }

  function Sites(spec: Spec): seq<Site> {
    seq(|spec.dcs|, i requires 0 <= i < |spec.dcs| => Site(spec.dcs[i].name, Some(spec.dcs[i].replicas))) + spec.others
  }

  function Wanted(spec: Spec, keyspace: string): Replication {
    DesiredOptions(spec.settings, keyspace, Sites(spec))
  }

  /******* What the keyspaces should be *******/

  /** The operator takes care of this keyspace. */
  predicate TakenCareOf(spec: Spec, keyspace: string) {
    || keyspace in {"system_auth", "system_distributed", "system_traces", spec.settings.reaperKeyspace}
    || keyspace in spec.settings.keyspaces
  }

  predicate OverriddenBySpec(spec: Spec, keyspace: string) {
    |spec.settings.dcs| > 0 && keyspace in spec.settings.keyspaces
  }

  /** Three replicas, or as many as there are nodes if these are fewer. */
  function ReplicasFor(nodes: nat): string {
    if nodes < 3 then Itoa(nodes) else "3"
  }

  ghost predicate KnownOutside(spec: Spec, dc: string) {
    exists k :: 0 <= k < |spec.others| && spec.others[k].name == dc
  }

  /** The replication is the one the spec asks for: its own DCs with their replicas, unless other regions
      tell of a DC of the same name, then the DCs of others as told last; or the user's factors. */
  ghost predicate AsSpecified(spec: Spec, keyspace: string, r: Replication) {
    && "class" in r && r["class"] == "org.apache.cassandra.locator.NetworkTopologyStrategy"
    && (!OverriddenBySpec(spec, keyspace) ==>
          && (forall i :: 0 <= i < |spec.dcs| && !KnownOutside(spec, spec.dcs[i].name) && spec.dcs[i].name != "class" ==>
                spec.dcs[i].name in r && r[spec.dcs[i].name] == ReplicasFor(spec.dcs[i].replicas))
          && (forall k: nat :: LastSite(spec.others, k) && spec.others[k].name != "class" ==>
                && spec.others[k].name in r
                && r[spec.others[k].name] == ReplicasFor(if spec.others[k].replicas.Some? then spec.others[k].replicas.value else 3))
          && (forall x :: x in r && x != "class" ==> KnownOutside(spec, x) || exists i :: 0 <= i < |spec.dcs| && spec.dcs[i].name == x))
    && (OverriddenBySpec(spec, keyspace) ==>
          && (forall i: nat :: LastOverride(spec.settings.dcs, i) && spec.settings.dcs[i].name != "class" ==>
                spec.settings.dcs[i].name in r && r[spec.settings.dcs[i].name] == Itoa(spec.settings.dcs[i].rf))
          && (forall x :: x in r && x != "class" ==> exists i :: 0 <= i < |spec.settings.dcs| && spec.settings.dcs[i].name == x))
  }

  lemma ManagedMeans(spec: Spec, keyspace: string)
    ensures Managed(spec.settings, keyspace) <==> TakenCareOf(spec, keyspace)
  {
    var base := BaseKeyspaces(spec.settings);
    assert base[0] == "system_auth" && base[1] == "system_distributed" && base[2] == "system_traces";
    assert base[3] == spec.settings.reaperKeyspace;
  }

  lemma WantedIsAsSpecified(spec: Spec, keyspace: string)
    requires DistinctDCs(spec.dcs)
    ensures AsSpecified(spec, keyspace, Wanted(spec, keyspace))
  {
    hide DesiredOptions, Itoa;
    ClassIsGiven(spec.settings, keyspace, Sites(spec));
    if OverriddenBySpec(spec, keyspace) {
      OverridesAsSpecified(spec, keyspace);
    } else {
      SitesAsSpecified(spec, keyspace);
    }
  }

  lemma ClassIsGiven(settings: Settings, keyspace: string, sites: seq<Site>)
    ensures var r := DesiredOptions(settings, keyspace, sites);
            "class" in r && r["class"] == "org.apache.cassandra.locator.NetworkTopologyStrategy"
  {
  }

  lemma OverridesAsSpecified(spec: Spec, keyspace: string)
    requires OverriddenBySpec(spec, keyspace)
    ensures AsSpecified(spec, keyspace, Wanted(spec, keyspace))
  {
    hide DesiredOptions, Itoa;
    var r := Wanted(spec, keyspace);
    ClassIsGiven(spec.settings, keyspace, Sites(spec));
    forall i: nat | LastOverride(spec.settings.dcs, i) && spec.settings.dcs[i].name != "class"
      ensures spec.settings.dcs[i].name in r && r[spec.settings.dcs[i].name] == Itoa(spec.settings.dcs[i].rf)
    {
      DesiredFactors(spec.settings, keyspace, Sites(spec), i);
    }
    forall x | x in r && x != "class" ensures exists i :: 0 <= i < |spec.settings.dcs| && spec.settings.dcs[i].name == x {
      OverriddenCover(spec.settings, keyspace, Sites(spec), x);
    }
  }

  lemma SitesAsSpecified(spec: Spec, keyspace: string)
    requires DistinctDCs(spec.dcs) && !OverriddenBySpec(spec, keyspace)
    ensures AsSpecified(spec, keyspace, Wanted(spec, keyspace))
  {
    hide DesiredOptions, Itoa, Sites, Wanted, ReplicasFor, KnownOutside;
    var r, n := Wanted(spec, keyspace), |spec.dcs|;
    WantedClass(spec, keyspace);
    forall i | 0 <= i < n && !KnownOutside(spec, spec.dcs[i].name) && spec.dcs[i].name != "class"
      ensures spec.dcs[i].name in r && r[spec.dcs[i].name] == ReplicasFor(spec.dcs[i].replicas)
    {
      OwnFactor(spec, keyspace, i);
    }
    forall k: nat | LastSite(spec.others, k) && spec.others[k].name != "class"
      ensures spec.others[k].name in r
      ensures r[spec.others[k].name] == ReplicasFor(if spec.others[k].replicas.Some? then spec.others[k].replicas.value else 3)
    {
      OtherFactor(spec, keyspace, k);
    }
    forall x | x in r && x != "class" ensures KnownOutside(spec, x) || exists i :: 0 <= i < n && spec.dcs[i].name == x {
      OnlyKnown(spec, keyspace, x);
    }
  }

  lemma WantedClass(spec: Spec, keyspace: string)
    ensures var r := Wanted(spec, keyspace);
            "class" in r && r["class"] == "org.apache.cassandra.locator.NetworkTopologyStrategy"
  {
    hide DesiredOptions;
    ClassIsGiven(spec.settings, keyspace, Sites(spec));
  }

  lemma OwnFactor(spec: Spec, keyspace: string, i: nat)
    requires DistinctDCs(spec.dcs) && !OverriddenBySpec(spec, keyspace) && i < |spec.dcs|
    requires !KnownOutside(spec, spec.dcs[i].name) && spec.dcs[i].name != "class"
    ensures var r := Wanted(spec, keyspace);
            spec.dcs[i].name in r && r[spec.dcs[i].name] == ReplicasFor(spec.dcs[i].replicas)
  {
    hide DesiredOptions, Itoa, Sites;
    SitesAre(spec);
    assert LastSite(Sites(spec), i);
    DesiredFactors(spec.settings, keyspace, Sites(spec), i);
  }

  lemma OtherFactor(spec: Spec, keyspace: string, k: nat)
    requires !OverriddenBySpec(spec, keyspace) && LastSite(spec.others, k) && spec.others[k].name != "class"
    ensures var r := Wanted(spec, keyspace);
            && spec.others[k].name in r
            && r[spec.others[k].name] == ReplicasFor(if spec.others[k].replicas.Some? then spec.others[k].replicas.value else 3)
  {
    hide DesiredOptions, Itoa, Sites;
    SitesAre(spec);
    var j := |spec.dcs| + k;
    assert Sites(spec)[j] == spec.others[k] && LastSite(Sites(spec), j);
    DesiredFactors(spec.settings, keyspace, Sites(spec), j);
  }

  lemma OnlyKnown(spec: Spec, keyspace: string, x: string)
    requires !OverriddenBySpec(spec, keyspace) && x in Wanted(spec, keyspace) && x != "class"
    ensures KnownOutside(spec, x) || exists i :: 0 <= i < |spec.dcs| && spec.dcs[i].name == x
  {
    hide DesiredOptions, Sites;
    SitesAre(spec);
    DesiredOptionsCover(spec.settings, keyspace, Sites(spec), x);
    var i :| 0 <= i < |Sites(spec)| && Sites(spec)[i].name == x;
    assert i >= |spec.dcs| ==> spec.others[i - |spec.dcs|].name == x;
  }

  /** Own DCs first, then those of others. */
  lemma SitesAre(spec: Spec)
    ensures |Sites(spec)| == |spec.dcs| + |spec.others|
    ensures forall i :: 0 <= i < |spec.dcs| ==> Sites(spec)[i] == Site(spec.dcs[i].name, Some(spec.dcs[i].replicas))
    ensures forall i :: |spec.dcs| <= i < |Sites(spec)| ==> Sites(spec)[i] == spec.others[i - |spec.dcs|]
  {
  }

  /******* Is a node gone? *******/

  /** The pods that are asked about `removed`: its peers in desired DCs. */
  predicate Asked(spec: Spec, p: Peer, removed: string) {
    p.name != removed && Desired(spec, p.dc)
  }

  predicate SeesLive(a: Answers, p: Peer, removed: string) {
    p.name in a.views && removed in a.views[p.name]
  }

  function LiveViews(spec: Spec, a: Answers, pods: seq<Peer>, removed: string): set<string> {
    set i | 0 <= i < |pods| && Asked(spec, pods[i], removed) && SeesLive(a, pods[i], removed) :: pods[i].name
  }

  ghost predicate DistinctPeers(pods: seq<Peer>) {
    forall i, j :: 0 <= i < j < |pods| ==> pods[i].name != pods[j].name
  }

  /** What the count of podDecommissioned amounts to: everyone asked has answered, and
      at most one of them still sees the node as live, none if the node's DC is desired. */
  ghost predicate Gone(spec: Spec, a: Answers, removed: Peer) {
    && (forall i :: 0 <= i < |a.pods| && Asked(spec, a.pods[i], removed.name) ==> a.pods[i].name in a.views)
    && |LiveViews(spec, a, a.pods, removed.name)| <= if Desired(spec, removed.dc) then 0 else 1
  }

  function DesiredCount(spec: Spec, pods: seq<Peer>): nat {
    if pods == [] then 0 else DesiredCount(spec, pods[..|pods| - 1]) + if Desired(spec, pods[|pods| - 1].dc) then 1 else 0
  }

  function AskedCount(spec: Spec, pods: seq<Peer>, removed: string): nat {
    if pods == [] then 0 else AskedCount(spec, pods[..|pods| - 1], removed) + if Asked(spec, pods[|pods| - 1], removed) then 1 else 0
  }

  lemma {:induction false} CountsDiffer(spec: Spec, pods: seq<Peer>, removed: Peer)
    requires DistinctPeers(pods)
    requires forall p :: p in pods && p.name == removed.name ==> p == removed
    ensures DesiredCount(spec, pods) == AskedCount(spec, pods, removed.name) + if removed in pods && Desired(spec, removed.dc) then 1 else 0
  {
    if pods != [] {
      var init, last := pods[..|pods| - 1], pods[|pods| - 1];
      CountsDiffer(spec, init, removed);
      assert pods == init + [last];
      assert last == removed ==> removed !in init;
    }
  }

  lemma LiveViewsSnoc(spec: Spec, a: Answers, pods: seq<Peer>, p: Peer, removed: string)
    requires DistinctPeers(pods + [p])
    ensures |LiveViews(spec, a, pods + [p], removed)|
            == |LiveViews(spec, a, pods, removed)| + if Asked(spec, p, removed) && SeesLive(a, p, removed) then 1 else 0
  {
    hide Asked, SeesLive;
    var before, after := LiveViews(spec, a, pods, removed), LiveViews(spec, a, pods + [p], removed);
    var live := Asked(spec, p, removed) && SeesLive(a, p, removed);
    assert (pods + [p])[|pods|] == p;
    forall x ensures x in after <==> x in before || (live && x == p.name) {
      if x in after {
        var i :| 0 <= i < |pods + [p]| && Asked(spec, (pods + [p])[i], removed) && SeesLive(a, (pods + [p])[i], removed)
                 && (pods + [p])[i].name == x;
        assert i < |pods| ==> (pods + [p])[i] == pods[i];
      }
      if x in before {
        var i :| 0 <= i < |pods| && Asked(spec, pods[i], removed) && SeesLive(a, pods[i], removed) && pods[i].name == x;
        assert (pods + [p])[i] == pods[i];
      }
    }
    if live {
      assert p.name !in before by {
        NameIsNew(pods, p);
      }
      assert after == before + {p.name};
    } else {
      assert after == before;
    }
  }

  lemma NameIsNew(pods: seq<Peer>, p: Peer)
    requires DistinctPeers(pods + [p])
    ensures forall i :: 0 <= i < |pods| ==> pods[i].name != p.name
  {
    forall i | 0 <= i < |pods| ensures pods[i].name != p.name {
      assert (pods + [p])[i] == pods[i] && (pods + [p])[|pods|] == p;
    }
  }

  /** podDecommissioned: the answer, or None when a query fails. */
  method PodDecommissioned(spec: Spec, a: Answers, removed: Peer) returns (gone: Option<bool>)
    requires DistinctPeers(a.pods) && removed in a.pods
    ensures gone.None? <==> exists i :: 0 <= i < |a.pods| && Asked(spec, a.pods[i], removed.name) && a.pods[i].name !in a.views
    ensures gone == Some(true) <==> Gone(spec, a, removed)
  {
    hide LiveViews, SeesLive, DistinctPeers, DesiredCount, AskedCount;
    var desired := CountDesired(spec, a.pods);
    var quorum: int := desired;
    quorum := quorum - 1; // one of the pods can be in the process of decommission
    var notLiveView: nat := 0;
    AskedNobody(spec, a, removed.name);
    assert a.pods[..0] == [];
    for i := 0 to |a.pods|
      invariant notLiveView == AskedCount(spec, a.pods[..i], removed.name) - |LiveViews(spec, a, a.pods[..i], removed.name)|
      invariant forall k :: 0 <= k < i && Asked(spec, a.pods[k], removed.name) ==> a.pods[k].name in a.views
    {
      AskedOneMore(spec, a, i, removed.name);
      if a.pods[i].name == removed.name || !Desired(spec, a.pods[i].dc) {
        continue;
      }
      if a.pods[i].name !in a.views {
        return None;
      }
      if removed.name !in a.views[a.pods[i].name] {
        notLiveView := notLiveView + 1;
      }
    }
    assert a.pods[..|a.pods|] == a.pods;
    RemovedIsUnique(a.pods, removed);
    CountsDiffer(spec, a.pods, removed);
    return Some(notLiveView >= quorum);
  }

  /** The loop that counts towards the quorum. */
  method CountDesired(spec: Spec, pods: seq<Peer>) returns (count: nat)
    ensures count == DesiredCount(spec, pods)
  {
    count := 0;
    for i := 0 to |pods|
      invariant count == DesiredCount(spec, pods[..i])
    {
      assert pods[..i + 1][..i] == pods[..i];
      if Desired(spec, pods[i].dc) {
        count := count + 1;
      }
    }
    assert pods[..|pods|] == pods;
  }

  lemma RemovedIsUnique(pods: seq<Peer>, removed: Peer)
    requires DistinctPeers(pods) && removed in pods
    ensures forall p :: p in pods && p.name == removed.name ==> p == removed
  {
  }

  lemma AskedNobody(spec: Spec, a: Answers, removed: string)
    ensures AskedCount(spec, [], removed) == 0 && LiveViews(spec, a, [], removed) == {}
  {
  }

  lemma AskedOneMore(spec: Spec, a: Answers, i: nat, removed: string)
    requires DistinctPeers(a.pods) && i < |a.pods|
    ensures AskedCount(spec, a.pods[..i + 1], removed)
            == AskedCount(spec, a.pods[..i], removed) + if Asked(spec, a.pods[i], removed) then 1 else 0
    ensures |LiveViews(spec, a, a.pods[..i + 1], removed)|
            == |LiveViews(spec, a, a.pods[..i], removed)|
               + if Asked(spec, a.pods[i], removed) && a.pods[i].name in a.views && removed in a.views[a.pods[i].name] then 1 else 0
  {
    assert a.pods[..i + 1] == a.pods[..i] + [a.pods[i]];
    LiveViewsSnoc(spec, a, a.pods[..i], a.pods[i], removed);
  }

  /******* What one pass may do *******/

  /** The pod Kubernetes deletes when the statefulset shrinks to `replicas`. */
  ghost predicate HighestPodGone(spec: Spec, a: Answers, name: string, replicas: nat) {
    exists i :: 0 <= i < |a.pods| && a.pods[i].name == PodName(name, replicas)
                && a.pods[i].name !in a.modes && Gone(spec, a, a.pods[i])
  }

  ghost predicate Lowered(before: Sts, after: Sts) {
    after.dc == before.dc && after.replicas < before.replicas
  }

  ghost predicate LoweredIn(before: map<string, Sts>, after: map<string, Sts>, n: string) {
    n in before && n in after && Lowered(before[n], after[n])
  }

  /** Scaling down a desired DC is all the scaling down a pass does. */
  ghost predicate OneDesiredLowered(spec: Spec, before: map<string, Sts>, after: map<string, Sts>) {
    forall m, n :: LoweredIn(before, after, m) && LoweredIn(before, after, n) && Desired(spec, before[m].dc) ==> m == n
  }

  /** How a pass may move one statefulset: up to its spec count at once, or down by
      one, never past what is wanted, when the last pod is gone. */
  ghost predicate Moved(spec: Spec, a: Answers, name: string, before: Sts, after: Sts) {
    && after.dc == before.dc
    && (after.replicas > before.replicas ==> Desired(spec, before.dc) && after.replicas == DcsMap(spec.dcs)[before.dc])
    && (after.replicas < before.replicas ==>
          && after.replicas == before.replicas - 1
          && (Desired(spec, before.dc) ==> DcsMap(spec.dcs)[before.dc] <= after.replicas)
          && HighestPodGone(spec, a, name, after.replicas))
  }

  ghost predicate AllMoved(spec: Spec, a: Answers, before: map<string, Sts>, after: map<string, Sts>) {
    forall n :: n in before && n in after ==> Moved(spec, a, n, before[n], after[n])
  }

  /** No keyspace the operator does not manage is replicated to a leaving DC. */
  ghost predicate LeavingDCsUnused(spec: Spec, sts: map<string, Sts>, keyspaces: map<string, Replication>) {
    forall k, n :: k in keyspaces && !Managed(spec.settings, k) && LeavingSts(spec, sts, n) ==> sts[n].dc !in keyspaces[k]
  }

  /** The managed keyspaces, `system_auth` aside, are replicated as the spec wants. */
  ghost predicate KeyspacesMovedAway(spec: Spec, keyspaces: map<string, Replication>) {
    forall k :: k in keyspaces && Managed(spec.settings, k) && k != SYSTEM_AUTH ==> keyspaces[k] == Wanted(spec, k)
  }

  ghost predicate KeyspacesMoved(spec: Spec, before: map<string, Replication>, after: map<string, Replication>) {
    && after.Keys == before.Keys
    && forall k :: k in after && after[k] != before[k] ==> Managed(spec.settings, k) && after[k] == Wanted(spec, k)
  }

  /** A leaving DC lost a node, its service or its statefulset. */
  ghost predicate LeavingTouched(spec: Spec, before: State, after: State) {
    exists n :: LeavingSts(spec, before.sts, n) &&
                (n !in after.sts || after.sts[n] != before.sts[n] || (n in before.services && n !in after.services))
  }

  /** New statefulsets are those of the spec, with the replicas of the spec. */
  ghost predicate NewAreWanted(spec: Spec, before: map<string, Sts>, after: map<string, Sts>) {
    forall n :: n in after && n !in before ==>
      Desired(spec, after[n].dc) && n == DCName(spec.cluster, after[n].dc) && after[n].replicas == DcsMap(spec.dcs)[after[n].dc]
  }

  ghost predicate NewServicesWanted(spec: Spec, before: set<string>, after: set<string>) {
    forall n :: n in after && n !in before ==> exists dc :: Desired(spec, dc) && n == DCName(spec.cluster, dc)
  }

  /** Statefulsets are removed once they are leaving and empty. */
  ghost predicate RemovedWereEmpty(spec: Spec, before: map<string, Sts>, after: map<string, Sts>) {
    forall n :: n in before && n !in after ==> LeavingSts(spec, before, n) && before[n].replicas == 0
  }

  /** A leaving DC is touched only when no keyspace uses it any more. */
  ghost predicate TouchedAreUnused(spec: Spec, before: State, after: State) {
    LeavingTouched(spec, before, after) ==>
      LeavingDCsUnused(spec, before.sts, before.keyspaces) && KeyspacesMovedAway(spec, after.keyspaces)
  }

  ghost predicate AuthKept(before: map<string, Replication>, after: map<string, Replication>) {
    SYSTEM_AUTH in before ==> SYSTEM_AUTH in after && after[SYSTEM_AUTH] == before[SYSTEM_AUTH]
  }

  /** Decommissions are started on the last pods of statefulsets that have a pod too many, or
      that leave, and not on a pod that is leaving already. */
  ghost predicate StartedRightly(spec: Spec, a: Answers, sts: map<string, Sts>, pods: seq<string>) {
    forall i :: 0 <= i < |pods| ==> LastPodToGo(spec, a, sts, pods[i])
  }

  ghost predicate LastPodToGo(spec: Spec, a: Answers, sts: map<string, Sts>, pod: string) {
    exists n :: n in sts && MayDecommission(spec, a, n, sts[n], pod)
  }

  predicate MayDecommission(spec: Spec, a: Answers, name: string, sts: Sts, pod: string) {
    && sts.replicas > 0 && pod == PodName(name, sts.replicas - 1) && pod in a.modes && a.modes[pod] != Leaving
    && (Desired(spec, sts.dc) ==> DcsMap(spec.dcs)[sts.dc] < sts.replicas)
  }

  ghost predicate SomeLeaving(spec: Spec, sts: map<string, Sts>) {
    exists n :: LeavingSts(spec, sts, n)
  }

  /** Everything a pass, complete or cut short, guarantees of the stores. */
  ghost predicate PassStep(spec: Spec, a: Answers, before: State, after: State) {
    && AllMoved(spec, a, before.sts, after.sts)
    && NewAreWanted(spec, before.sts, after.sts)
    && NewServicesWanted(spec, before.services, after.services)
    && RemovedWereEmpty(spec, before.sts, after.sts)
    && OneDesiredLowered(spec, before.sts, after.sts)
    && KeyspacesMoved(spec, before.keyspaces, after.keyspaces)
    && TouchedAreUnused(spec, before, after)
    && (SomeLeaving(spec, before.sts) ==> AuthKept(before.keyspaces, after.keyspaces))
  }

  /******* Whose turn it is to shrink *******/

  predicate TooLarge(spec: Spec, sts: map<string, Sts>, n: string) {
    n in sts && Desired(spec, sts[n].dc) && DcsMap(spec.dcs)[sts[n].dc] < sts[n].replicas
  }

  /** The first desired statefulset that is too large, or the first leaving one when none is. */
  ghost predicate InTurn(spec: Spec, sts: map<string, Sts>, n: string) {
    || (TooLarge(spec, sts, n) && forall m :: TooLarge(spec, sts, m) ==> LexLe(n, m))
    || (LeavingSts(spec, sts, n) && (forall m :: !TooLarge(spec, sts, m)) && forall m :: LeavingSts(spec, sts, m) ==> LexLe(n, m))
  }

  /** Statefulsets carry the names of their DCs. */
  ghost predicate Named(spec: Spec, s: State) {
    forall n :: n in s.sts ==> n == DCName(spec.cluster, s.sts[n].dc)
  }

  /** The last node of the statefulset whose turn it is has gone, if it has nodes left. */
  ghost predicate TurnGone(spec: Spec, a: Answers, sts: map<string, Sts>) {
    && (forall n :: TooLarge(spec, sts, n) ==> a.pods != [])
    && forall n :: InTurn(spec, sts, n) ==> sts[n].replicas == 0 || HighestPodGone(spec, a, n, sts[n].replicas - 1)
  }

  /** The pod Kubernetes will delete next. */
  function LastPod(sts: map<string, Sts>, n: string): string {
    if n in sts && sts[n].replicas > 0 then PodName(n, sts[n].replicas - 1) else ""
  }

  /** The last pod is there, and its node answers that it is not leaving yet. */
  ghost predicate LastPodAnswers(a: Answers, sts: map<string, Sts>, n: string) {
    && n in sts && sts[n].replicas > 0 && (exists i :: 0 <= i < |a.pods| && a.pods[i].name == LastPod(sts, n))
    && LastPod(sts, n) in a.modes && a.modes[LastPod(sts, n)] != Leaving
  }

  /** A decommission of this pod was started in between. */
  ghost predicate StartedOn(before: seq<string>, after: seq<string>, pod: string) {
    before <= after && pod in after[|before|..]
  }

  lemma OnlyOneInTurn(spec: Spec, sts: map<string, Sts>, m: string, n: string)
    requires InTurn(spec, sts, m) && InTurn(spec, sts, n)
    ensures m == n
  {
    hide DcsMap, LexLe;
    LexLeAntisymmetric(m, n);
  }

  ghost predicate SomethingToTake(spec: Spec, sts: map<string, Sts>) {
    exists n :: TooLarge(spec, sts, n) || LeavingSts(spec, sts, n)
  }

  /** A node was taken away, or the service or the statefulset of a leaving DC. */
  ghost predicate Shrinks(spec: Spec, s: State, s': State, n: string) {
    && n in s.sts
    && (|| n !in s'.sts
        || Lowered(s.sts[n], s'.sts[n])
        || (LeavingSts(spec, s.sts, n) && n in s.services && n !in s'.services))
  }

  ghost predicate TakesAway(spec: Spec, s: State, s': State) {
    exists n :: Shrinks(spec, s, s', n)
  }

  lemma LeavingServiceNotNew(spec: Spec, s: State, s': State, n: string)
    requires Named(spec, s) && LeavingSts(spec, s.sts, n) && NewServicesWanted(spec, s.services, s'.services)
    requires n in s'.services
    ensures n in s.services
  {
    if n !in s.services {
      var dc :| Desired(spec, dc) && n == DCName(spec.cluster, dc);
      DCNameInjective(spec.cluster, dc, s.sts[n].dc);
    }
  }
}
