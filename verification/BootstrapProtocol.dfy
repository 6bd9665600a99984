/** Bootstrap as a distributed protocol. Every region runs the decisions of module
    Bootstrap over what it happened to see: pod lists, ready counts and flags of
    other regions, each possibly long out of date, read one at a time. Pods obey any
    configuration they were ever given, passes stop anywhere, probers lose their
    memory. */
module BootstrapProtocol {
  import opened Bootstrap
  import opened DataCenters
  import opened Option
  import opened Text

  datatype Node = Node(region: string, dc: string, name: string)

  /** What does not change during a run: the specs by prober host, the nodes, and which of
      them the specs make seeds. */
  datatype Topology = Topology(specs: map<string, Spec>, nodes: set<Node>, seeds: set<Node>)

  /** Where a region's pass stands, with what it has read so far. */
  datatype Pass =
    | Idle
    | Opened
    | Listed(pods: seq<Pod>)
    | Sharing(pods: seq<Pod>, asked: nat)
    | Counting(pods: seq<Pod>, counts: seq<Option<nat>>)
    | Asking(pods: seq<Pod>, counts: seq<Option<nat>>, answers: seq<bool>)
    | Labelling
    | Gathering(asked: nat)
    | Recounting(counts: seq<Option<nat>>)

  /** `labelled` are the nodes whose pods carry the seed label. The probers hold the DCs
      (`dcs`), the seeds and the flags of their regions. Three fields are history: some
      configuration written so far does not pause an `allowed` node, the region was
      announced ready once if it is `published`, and `everLabelled`. */
  datatype State = State(
    ready: set<Node>,
    started: set<Node>,
    allowed: set<Node>,
    labelled: set<Node>,
    everLabelled: set<Node>,
    dcs: set<string>,
    seeds: set<string>,
    flags: set<string>,
    published: set<string>,
    passes: map<string, Pass>)

  function NodesOf(t: Topology, r: string, dc: string): set<Node> {
    set n | n in t.nodes && n.region == r && n.dc == dc
  }

  function NodeOf(r: string, p: Pod): Node {
    Node(r, p.dc, p.name)
  }

  ghost predicate DCReady(t: Topology, ready: set<Node>, r: string, dc: string) {
    NodesOf(t, r, dc) <= ready
  }

  ghost predicate RegionReady(t: Topology, ready: set<Node>, r: string) {
    forall n :: n in t.nodes && n.region == r ==> n in ready
  }

  /** The spec of region `r`: all regions list each other, and one that is alone uses no host ports. */
  ghost predicate SpecAgrees(t: Topology, r: string)
    requires r in t.specs
  {
    var spec := t.specs[r];
    && r != "" && spec.host == r
    && (spec.hostPort <==> spec.managed != [])
    && (forall i :: 0 <= i < |spec.managed| ==>
          spec.managed[i].domain != "" && spec.managed[i].host in t.specs && spec.managed[i].host != r)
    && (forall h :: h in t.specs && h != r ==> exists i :: 0 <= i < |spec.managed| && spec.managed[i].host == h)
    && (forall i :: 0 <= i < |spec.dcs| ==>
          spec.dcs[i].name != "" && spec.dcs[i].replicas == |NodesOf(t, r, spec.dcs[i].name)|)
  }

  ghost predicate HasDC(spec: Spec, dc: string) {
    exists i :: 0 <= i < |spec.dcs| && spec.dcs[i].name == dc
  }

  ghost predicate Agreed(t: Topology) {
    && (forall r :: r in t.specs ==> SpecAgrees(t, r))
    && (forall n :: n in t.nodes ==> n.region in t.specs && n.name != "" && HasDC(t.specs[n.region], n.dc))
    && (forall m, n :: m in t.nodes && n in t.nodes && m.region == n.region && m.name == n.name ==> m == n)
    && t.seeds <= t.nodes
  }

  /** A complete pod list of region `r`, as it was at some time when no more was ready than is
      now; any label may be missing, and one that is there was set by then. A pod that has an
      address reports its containers. */
  ghost predicate Observed(t: Topology, ready: set<Node>, everLabelled: set<Node>, r: string, pods: seq<Pod>) {
    && DistinctNames(pods)
    && (forall p :: p in pods ==>
          && NodeOf(r, p) in t.nodes
          && (PodReady(p) ==> NodeOf(r, p) in ready)
          && (p.seed ==> NodeOf(r, p) in everLabelled && p.statuses != []))
    && (forall n :: n in t.nodes && n.region == r ==> Lists(pods, n))
  }

  ghost predicate Lists(pods: seq<Pod>, n: Node) {
    exists p :: p in pods && NodeOf(n.region, p) == n
  }

  /** What a statefulset of the DC may report: nothing, or some number of pods ready by now. */
  ghost predicate Counted(t: Topology, ready: set<Node>, r: string, dc: string, count: Option<nat>) {
    count.Some? ==> count.value <= |NodesOf(t, r, dc) * ready|
  }

  /******* Steps of the operators *******/

  ghost predicate InPass(t: Topology, s: State, r: string) {
    r in t.specs && r in s.passes
  }

  function To(s: State, r: string, p: Pass): State {
    s.(passes := s.passes[r := p])
  }

  /** controller.go:230: the prober learns the DCs of its region. */
  ghost predicate PublishDCs(t: Topology, s: State, s': State, r: string) {
    && InPass(t, s, r) && s.passes[r].Idle?
    && s' == To(s, r, Opened).(dcs := if t.specs[r].dcs == [] then s.dcs - {r} else s.dcs + {r})
  }

  /** controller.go:240, cassandra_pods_config.go:48-57. */
  ghost predicate ListPods(t: Topology, s: State, s': State, r: string, pods: seq<Pod>) {
    && InPass(t, s, r) && s.passes[r].Opened?
    && Observed(t, s.ready, s.everLabelled, r, pods) && s' == To(s, r, Listed(pods))
  }

  ghost predicate HasSeed(t: Topology, r: string) {
    exists n :: n in t.seeds && n.region == r
  }

  /** cassandra_pods_config.go:229-233: own seeds, which follow from the spec and not from the
      labels, are published before others are asked. */
  ghost predicate PublishSeeds(t: Topology, s: State, s': State, r: string) {
    && InPass(t, s, r) && s.passes[r].Listed?
    && s' == To(s, r, Sharing(s.passes[r].pods, 0)).(seeds := if HasSeed(t, r) then s.seeds + {r} else s.seeds - {r})
  }

  /** cassandra_pods_config.go:234-250: a region without seeds ends the pass. */
  ghost predicate GetSeeds(t: Topology, s: State, s': State, r: string) {
    && InPass(t, s, r) && s.passes[r].Sharing?
    && var k := s.passes[r].asked;
       && t.specs[r].hostPort && k < |t.specs[r].managed| && t.specs[r].managed[k].host in s.seeds
       && s' == To(s, r, Sharing(s.passes[r].pods, k + 1))
  }

  ghost predicate SeedsKnown(t: Topology, s: State, s': State, r: string) {
    && InPass(t, s, r) && s.passes[r].Sharing?
    && (t.specs[r].hostPort ==> s.passes[r].asked == |t.specs[r].managed|)
    && s' == To(s, r, Counting(s.passes[r].pods, []))
  }

  /** readiness.go:49-67, one statefulset at a time. */
  ghost predicate CountDC(t: Topology, s: State, s': State, r: string, count: Option<nat>) {
    && InPass(t, s, r) && s.passes[r].Counting?
    && var counts := s.passes[r].counts;
       && |counts| < |t.specs[r].dcs| && Counted(t, s.ready, r, t.specs[r].dcs[|counts|].name, count)
       && s' == To(s, r, Counting(s.passes[r].pods, counts + [count]))
  }

  ghost predicate DCsCounted(t: Topology, s: State, s': State, r: string) {
    && InPass(t, s, r) && s.passes[r].Counting? && |s.passes[r].counts| == |t.specs[r].dcs|
    && s' == To(s, r, Asking(s.passes[r].pods, s.passes[r].counts, []))
  }

  /** cassandra_pods_config.go:180-193: the answer may repeat what the prober said long ago. */
  ghost predicate AskRegion(t: Topology, s: State, s': State, r: string, answer: bool) {
    && InPass(t, s, r) && s.passes[r].Asking?
    && var p := s.passes[r];
       && |p.answers| < |t.specs[r].managed|
       && (answer ==> t.specs[r].managed[|p.answers|].host in s.published)
       && s' == To(s, r, Asking(p.pods, p.counts, p.answers + [answer]))
  }

  function Decided(spec: Spec, counts: seq<Option<nat>>, answers: seq<bool>): Order
    requires |counts| == |spec.dcs| && |answers| <= |spec.managed|
  {
    InitOrder(spec, UnreadyDCs(spec.dcs, counts), Statuses(spec.managed, answers))
  }

  function Released(r: string, pods: seq<Pod>, order: Order): set<Node> {
    set p | p in pods && !Paused(pods, p, order) :: NodeOf(r, p)
  }

  predicate Complete(spec: Spec, p: Pass) {
    p.Asking? && |p.counts| == |spec.dcs| && |p.answers| <= |spec.managed| && (spec.hostPort ==> |p.answers| == |spec.managed|)
  }

  /** cassandra_pods_config.go:73-109, 31-46. */
  ghost predicate WriteConfig(t: Topology, s: State, s': State, r: string) {
    && InPass(t, s, r) && Complete(t.specs[r], s.passes[r])
    && var p := s.passes[r];
       s' == To(s, r, Labelling).(allowed := s.allowed + Released(r, p.pods, Decided(t.specs[r], p.counts, p.answers)))
  }

  /** cassandra_pod_labels.go:32-52, one pod: only now, after the configuration is written, is the
      label of a seed added or that of another pod removed. */
  ghost predicate LabelPod(t: Topology, s: State, s': State, r: string, n: Node) {
    && InPass(t, s, r) && s.passes[r].Labelling? && n in t.nodes && n.region == r
    && s' == if n in t.seeds then s.(labelled := s.labelled + {n}, everLabelled := s.everLabelled + {n})
             else s.(labelled := s.labelled - {n})
  }

  ghost predicate PodsLabelled(t: Topology, s: State, s': State, r: string) {
    && InPass(t, s, r) && s.passes[r].Labelling?
    && (forall n :: n in t.nodes && n.region == r ==> (n in s.labelled <==> n in t.seeds))
    && s' == To(s, r, Gathering(0))
  }

  /** helpers.go:133-151: a region whose prober tells no DCs ends the pass. */
  ghost predicate GetDCs(t: Topology, s: State, s': State, r: string) {
    && InPass(t, s, r) && s.passes[r].Gathering?
    && var k := s.passes[r].asked;
       && k < |t.specs[r].managed| && t.specs[r].managed[k].host in s.dcs
       && s' == To(s, r, Gathering(k + 1))
  }

  ghost predicate DCsKnown(t: Topology, s: State, s': State, r: string) {
    && InPass(t, s, r) && s.passes[r].Gathering? && s.passes[r].asked == |t.specs[r].managed|
    && s' == To(s, r, Recounting([]))
  }

  /** controller.go:308, readiness.go:18: the statefulsets are read again. */
  ghost predicate RecountDC(t: Topology, s: State, s': State, r: string, count: Option<nat>) {
    && InPass(t, s, r) && s.passes[r].Recounting?
    && var counts := s.passes[r].counts;
       && |counts| < |t.specs[r].dcs| && Counted(t, s.ready, r, t.specs[r].dcs[|counts|].name, count)
       && s' == To(s, r, Recounting(counts + [count]))
  }

  /** readiness.go:23-34. */
  ghost predicate PublishStatus(t: Topology, s: State, s': State, r: string) {
    && InPass(t, s, r) && s.passes[r].Recounting? && |s.passes[r].counts| == |t.specs[r].dcs|
    && s' == if UnreadyDCs(t.specs[r].dcs, s.passes[r].counts) == []
             then To(s, r, Idle).(flags := s.flags + {r}, published := s.published + {r})
             else To(s, r, Idle).(flags := s.flags - {r})
  }

  ghost predicate Abort(t: Topology, s: State, s': State, r: string) {
    InPass(t, s, r) && s' == To(s, r, Idle)
  }

  /******* Steps of pods and probers *******/

  /** cassandra_init_containers.go:26-39: any configuration that does not pause the pod will do. */
  ghost predicate StartPod(t: Topology, s: State, s': State, n: Node) {
    n in s.allowed && s' == s.(started := s.started + {n})
  }

  ghost predicate BecomeReady(t: Topology, s: State, s': State, n: Node) {
    n in s.started && s' == s.(ready := s.ready + {n})
  }

  ghost predicate CrashPod(t: Topology, s: State, s': State, n: Node) {
    n !in s.ready && s' == s.(started := s.started - {n})
  }

  /** The prober keeps its DCs, seeds and flags in memory. */
  ghost predicate RestartProber(t: Topology, s: State, s': State, r: string) {
    s' == s.(dcs := s.dcs - {r}, seeds := s.seeds - {r}, flags := s.flags - {r})
  }

  /** The first part of a pass, up to the decision. */
  ghost predicate ReadStep(t: Topology, s: State, s': State, r: string) {
    || PublishDCs(t, s, s', r) || (exists pods :: ListPods(t, s, s', r, pods))
    || PublishSeeds(t, s, s', r) || GetSeeds(t, s, s', r) || SeedsKnown(t, s, s', r)
    || (exists count :: CountDC(t, s, s', r, count)) || DCsCounted(t, s, s', r)
    || (exists answer :: AskRegion(t, s, s', r, answer))
  }

  /** The second part, after the configuration is written. */
  ghost predicate LateStep(t: Topology, s: State, s': State, r: string) {
    || (exists n :: LabelPod(t, s, s', r, n)) || PodsLabelled(t, s, s', r)
    || GetDCs(t, s, s', r) || DCsKnown(t, s, s', r)
    || (exists count :: RecountDC(t, s, s', r, count)) || PublishStatus(t, s, s', r)
  }

  ghost predicate OperatorStep(t: Topology, s: State, s': State, r: string) {
    ReadStep(t, s, s', r) || WriteConfig(t, s, s', r) || LateStep(t, s, s', r) || Abort(t, s, s', r)
  }

  ghost predicate PodStep(t: Topology, s: State, s': State, n: Node) {
    StartPod(t, s, s', n) || BecomeReady(t, s, s', n) || CrashPod(t, s, s', n)
  }

  ghost predicate Next(t: Topology, s: State, s': State) {
    || (exists r :: OperatorStep(t, s, s', r))
    || (exists n :: PodStep(t, s, s', n))
    || (exists r :: RestartProber(t, s, s', r))
  }

  /** Some nodes may be up already, some labels set; a label that is wrong is on a node that is
      up. Nothing else has happened. */
  ghost predicate Init(t: Topology, s: State) {
    && s.ready <= t.nodes && s.started == s.allowed == {}
    && s.labelled == s.everLabelled <= t.seeds + s.ready
    && s.dcs == s.seeds == s.flags == s.published == {}
    && s.passes.Keys == t.specs.Keys && forall r :: r in s.passes ==> s.passes[r].Idle?
  }

  ghost predicate IsRun(t: Topology, run: seq<State>) {
    run != [] && Init(t, run[0]) && forall i :: 0 <= i < |run| - 1 ==> Next(t, run[i], run[i + 1])
  }

  /******* The invariant *******/

  /** Position `i` comes before every DC called `dc`. */
  ghost predicate Before(dcs: seq<DC>, i: int, dc: string) {
    0 <= i < |dcs| && forall j :: 0 <= j <= i ==> dcs[j].name != dc
  }

  ghost predicate EarlierRegionsReady(t: Topology, ready: set<Node>, r: string) {
    forall h :: h in t.specs && LexLess(h, r) ==> RegionReady(t, ready, h)
  }

  ghost predicate EarlierDCsReady(t: Topology, ready: set<Node>, r: string, dc: string)
    requires r in t.specs
  {
    forall i :: Before(t.specs[r].dcs, i, dc) ==> DCReady(t, ready, r, t.specs[r].dcs[i].name)
  }

  ghost predicate EarlierNodesReady(t: Topology, ready: set<Node>, n: Node) {
    forall m :: m in NodesOf(t, n.region, n.dc) && LexLess(m.name, n.name) ==> m in ready
  }

  /** It is this node's turn. */
  ghost predicate Cleared(t: Topology, ready: set<Node>, n: Node) {
    && n.region in t.specs
    && EarlierRegionsReady(t, ready, n.region)
    && EarlierDCsReady(t, ready, n.region, n.dc)
    && (n !in t.seeds ==> EarlierNodesReady(t, ready, n))
  }

  ghost predicate CountsSound(t: Topology, ready: set<Node>, r: string, counts: seq<Option<nat>>)
    requires r in t.specs
  {
    |counts| <= |t.specs[r].dcs| &&
    forall i :: 0 <= i < |counts| ==> Counted(t, ready, r, t.specs[r].dcs[i].name, counts[i])
  }

  ghost predicate AnswersSound(t: Topology, ready: set<Node>, r: string, answers: seq<bool>)
    requires r in t.specs
  {
    |answers| <= |t.specs[r].managed| &&
    forall i :: 0 <= i < |answers| && answers[i] ==> RegionReady(t, ready, t.specs[r].managed[i].host)
  }

  ghost predicate PassSound(t: Topology, ready: set<Node>, labels: set<Node>, r: string, p: Pass)
    requires r in t.specs
  {
    match p
    case Listed(pods) => Observed(t, ready, labels, r, pods)
    case Sharing(pods, _) => Observed(t, ready, labels, r, pods)
    case Counting(pods, counts) => Observed(t, ready, labels, r, pods) && CountsSound(t, ready, r, counts)
    case Asking(pods, counts, answers) =>
      Observed(t, ready, labels, r, pods) && CountsSound(t, ready, r, counts) && AnswersSound(t, ready, r, answers)
    case Recounting(counts) => CountsSound(t, ready, r, counts)
    case _ => true
  }

  ghost predicate PassesSound(t: Topology, s: State) {
    s.passes.Keys == t.specs.Keys && forall r :: r in s.passes ==> PassSound(t, s.ready, s.everLabelled, r, s.passes[r])
  }

  ghost predicate Basics(t: Topology, s: State) {
    && s.ready <= t.nodes && s.started <= s.allowed <= t.nodes && s.flags <= s.published
    && (forall h :: h in s.published ==> RegionReady(t, s.ready, h))
    && s.labelled <= s.everLabelled <= t.seeds + s.ready
    && PassesSound(t, s)
  }

  /** Every node that may start is ready, or it is its turn. */
  ghost predicate TurnsKept(t: Topology, s: State) {
    forall n :: n in s.allowed ==> n in s.ready || Cleared(t, s.ready, n)
  }

  ghost predicate Invariant(t: Topology, s: State) {
    Basics(t, s) && TurnsKept(t, s)
  }

  /******* What a decision tells *******/

  /** A DC that was not seen unready is ready: the count it reported is all of its nodes. */
  lemma CountedIsReady(t: Topology, ready: set<Node>, r: string, counts: seq<Option<nat>>, i: nat)
    requires r in t.specs && SpecAgrees(t, r) && CountsSound(t, ready, r, counts) && |counts| == |t.specs[r].dcs|
    requires i < |counts| && t.specs[r].dcs[i].name !in UnreadyDCs(t.specs[r].dcs, counts)
    ensures DCReady(t, ready, r, t.specs[r].dcs[i].name)
  {
    var dc := t.specs[r].dcs[i];
    UnreadyDCsMembers(t.specs[r].dcs, counts, dc.name);
    assert !UnreadyDC(dc, counts[i]);
    var all := NodesOf(t, r, dc.name);
    assert |all * ready| >= |all|;
    if x :| x in all && x !in ready {
      SmallerSet(all * ready, all, x);
    }
  }

  lemma SmallerSet<T>(a: set<T>, b: set<T>, x: T)
    requires a <= b && x in b && x !in a
    ensures |a| < |b|
  {
    assert b == a + (b - a) && |b| == |a| + |b - a| && x in b - a;
  }

  lemma AllDCsReady(t: Topology, ready: set<Node>, r: string, counts: seq<Option<nat>>)
    requires Agreed(t) && r in t.specs && CountsSound(t, ready, r, counts) && |counts| == |t.specs[r].dcs|
    requires forall i :: 0 <= i < |counts| ==> t.specs[r].dcs[i].name !in UnreadyDCs(t.specs[r].dcs, counts)
    ensures RegionReady(t, ready, r)
  {
    forall n | n in t.nodes && n.region == r ensures n in ready {
      var i :| 0 <= i < |t.specs[r].dcs| && t.specs[r].dcs[i].name == n.dc;
      CountedIsReady(t, ready, r, counts, i);
      assert n in NodesOf(t, r, n.dc);
    }
  }

  /** All regions sort the same hosts. */
  lemma HostsAgree(t: Topology, r: string)
    requires Agreed(t) && r in t.specs
    ensures var hosts := AllRegionsHosts(t.specs[r]);
            && Sorted(hosts)
            && (forall h :: h in hosts <==> h in t.specs)
            && (forall i :: 0 <= i < |hosts| ==> hosts[i] != "")
  {
    hide SortStrings, Sorted, Agreed, ListedHosts;
    RegionsAgree(t, r);
    var spec := t.specs[r];
    var listed := ListedHosts(spec.managed) + [spec.host];
    SortStringsSorts(listed);
    SortStringsMembers(listed);
    forall h ensures h in listed <==> h in t.specs {
      ListedHostsMembers(spec.managed, h);
    }
    var hosts := AllRegionsHosts(spec);
    forall i | 0 <= i < |hosts| ensures hosts[i] != "" {
      assert hosts[i] in hosts;
      RegionsAgree(t, hosts[i]);
    }
  }

  lemma {:induction false} StatusesHold(managed: seq<Region>, answers: seq<bool>, h: string)
    requires |answers| <= |managed| && Holds(Statuses(managed, answers), h)
    ensures exists i :: 0 <= i < |answers| && answers[i] && managed[i].host == h
  {
    var last := |answers| - 1;
    if managed[last].host != h {
      StatusesHold(managed, answers[..last], h);
    }
  }

  lemma EarlierRegionsHold(t: Topology, ready: set<Node>, r: string, answers: seq<bool>, own: bool)
    requires Agreed(t) && r in t.specs && AnswersSound(t, ready, r, answers)
    requires FirstUnready(AllRegionsHosts(t.specs[r]), Statuses(t.specs[r].managed, answers)[r := own]) == r
    ensures EarlierRegionsReady(t, ready, r)
  {
    var hosts, statuses := AllRegionsHosts(t.specs[r]), Statuses(t.specs[r].managed, answers)[r := own];
    HostsAgree(t, r);
    FirstUnreadyIsFirst(hosts, statuses);
    forall h | h in t.specs && LexLess(h, r) ensures RegionReady(t, ready, h) {
      assert h in hosts;
      if !Holds(statuses, h) {
        LexLeAntisymmetric(h, r);
      }
      StatusesHold(t.specs[r].managed, answers, h);
    }
  }

  /** What a pass may conclude from its order, whatever the age of what it read. */
  lemma OrderIsSound(t: Topology, ready: set<Node>, r: string, counts: seq<Option<nat>>, answers: seq<bool>)
    requires Agreed(t) && r in t.specs && CountsSound(t, ready, r, counts) && AnswersSound(t, ready, r, answers)
    requires |counts| == |t.specs[r].dcs|
    ensures var order := Decided(t.specs[r], counts, answers);
            order.regionPaused ||
            (if order.nextDC == "" then RegionReady(t, ready, r)
             else EarlierRegionsReady(t, ready, r) && EarlierDCsReady(t, ready, r, order.nextDC))
  {
    hide AllRegionsHosts, Statuses, RegionReady, Agreed, DCReady, FirstUnready, UnreadyDCs, NextLocalDC, Counted;
    var spec := t.specs[r];
    RegionsAgree(t, r);
    var order, unready := Decided(spec, counts, answers), UnreadyDCs(spec.dcs, counts);
    NextLocalDCIsFirst(spec.dcs, unready);
    if order.regionPaused {
    } else if order.nextDC == "" {
      OwnRegionHolds(t, r, counts, answers);
      AllDCsReady(t, ready, r, counts);
    } else {
      if spec.hostPort {
        EarlierRegionsHold(t, ready, r, answers, unready == []);
      } else {
        AloneIsFirst(t, ready, r);
      }
      forall i | Before(spec.dcs, i, order.nextDC) ensures DCReady(t, ready, r, spec.dcs[i].name) {
        CountedIsReady(t, ready, r, counts, i);
      }
    }
  }

  lemma RegionsAgree(t: Topology, r: string)
    requires Agreed(t) && r in t.specs
    ensures SpecAgrees(t, r) && t.specs[r].host == r && r != ""
  {
  }

  lemma AloneIsFirst(t: Topology, ready: set<Node>, r: string)
    requires r in t.specs && SpecAgrees(t, r) && !t.specs[r].hostPort
    ensures EarlierRegionsReady(t, ready, r)
  {
  }

  lemma OwnRegionHolds(t: Topology, r: string, counts: seq<Option<nat>>, answers: seq<bool>)
    requires Agreed(t) && r in t.specs && |counts| == |t.specs[r].dcs| && |answers| <= |t.specs[r].managed|
    requires Decided(t.specs[r], counts, answers) == Order(false, "")
    ensures forall i :: 0 <= i < |counts| ==> t.specs[r].dcs[i].name !in UnreadyDCs(t.specs[r].dcs, counts)
  {
    hide AllRegionsHosts, Statuses, Agreed, FirstUnready, UnreadyDCs, NextLocalDC, Sorted;
    var spec := t.specs[r];
    var unready := UnreadyDCs(spec.dcs, counts);
    RegionsAgree(t, r);
    NextLocalDCIsFirst(spec.dcs, unready);
    if spec.hostPort && unready != [] {
      HostsAgree(t, r);
      var statuses := Statuses(spec.managed, answers)[r := false];
      FirstUnreadyIsFirst(AllRegionsHosts(spec), statuses);
      assert r in AllRegionsHosts(spec) && !Holds(statuses, r);
    }
  }

  /** A pod that a configuration does not pause is ready or it is its turn, whichever labels the
      listing misses. */
  lemma ReleasedIsCleared(t: Topology, ready: set<Node>, labels: set<Node>, r: string, pods: seq<Pod>, order: Order, p: Pod)
    requires Agreed(t) && r in t.specs && Observed(t, ready, labels, r, pods) && labels <= t.seeds + ready
    requires order.regionPaused ||
             (if order.nextDC == "" then RegionReady(t, ready, r)
              else EarlierRegionsReady(t, ready, r) && EarlierDCsReady(t, ready, r, order.nextDC))
    requires p in pods && !Paused(pods, p, order)
    ensures NodeOf(r, p) in t.nodes && (NodeOf(r, p) in ready || Cleared(t, ready, NodeOf(r, p)))
  {
    hide Paused, EarlierRegionsReady, EarlierDCsReady, NextNonSeed, SeedPodsReady, PodReady;
    var n := NodeOf(r, p);
    ReleasedMeans(pods, p, order);
    if order.nextDC != "" && n !in ready && n !in t.seeds {
      forall m | m in NodesOf(t, r, p.dc) && LexLess(m.name, n.name) ensures m in ready {
        assert Lists(pods, m);
        var q :| q in pods && NodeOf(r, q) == m;
        TurnMeans(pods, p, q, order.nextDC);
      }
      assert EarlierNodesReady(t, ready, n);
    }
  }

  lemma ReleasedMeans(pods: seq<Pod>, p: Pod, order: Order)
    requires !Paused(pods, p, order)
    ensures !order.regionPaused
    ensures order.nextDC != "" ==> p.dc == order.nextDC
    ensures order.nextDC != "" && !p.seed ==> SeedPodsReady(pods, p.dc)
    ensures order.nextDC != "" && !p.seed && !PodReady(p) ==> NextNonSeed(pods, order.nextDC) in {"", p.name}
  {
    hide SeedPodsReady, NextNonSeed;
  }

  /** What precedes an unlabelled pod whose turn it is: labelled pods and smaller names. */
  lemma TurnMeans(pods: seq<Pod>, p: Pod, q: Pod, dc: string)
    requires (forall x :: x in pods ==> x.name != "") && p in pods && q in pods
    requires dc != "" && p.dc == q.dc == dc && !p.seed && !PodReady(p)
    requires SeedPodsReady(pods, dc) && NextNonSeed(pods, dc) in {"", p.name}
    requires if q.seed then q.statuses != [] else LexLess(q.name, p.name)
    ensures PodReady(q)
  {
    if q.seed {
      var i :| 0 <= i < |pods| && pods[i] == q;
    } else {
      NextNonSeedIsLeast(pods, dc, p.name);
      assert Candidate(p, dc);
      if !PodReady(q) {
        assert Candidate(q, dc);
        LexLeAntisymmetric(q.name, p.name);
      }
    }
  }
}
