/** The condition for the start order, in the numbers of the spec: nodes are the pods of the regions'
    statefulsets, seeds are those that the label loop and the seed list name. */
module BootstrapSeeds {
  import opened BootstrapLabels
  import opened BootstrapProgress
  import opened BootstrapProtocol
  import opened BootstrapSafety
  import opened DataCenters
  import Labels = SeedLabels
  import opened SeedNames
  import opened Text

  function NodeAt(r: string, spec: Labels.Spec, i: nat, ordinal: nat): Node
    requires i < |spec.dcs|
  {
    Node(r, spec.dcs[i].name, PodName(DCName(spec.cluster, spec.dcs[i].name), ordinal))
  }

  ghost predicate IsPod(spec: Labels.Spec, n: Node) {
    exists i, ordinal: nat :: 0 <= i < |spec.dcs| && ordinal < spec.dcs[i].replicas && n == NodeAt(n.region, spec, i, ordinal)
  }

  ghost predicate Numbered(t: Topology, specs: map<string, Labels.Spec>) {
    && specs.Keys == t.specs.Keys
    && (forall r :: r in specs ==> DistinctDCs(specs[r].dcs) && specs[r].dcs == t.specs[r].dcs)
    && (forall n :: n in t.nodes <==> n.region in specs && IsPod(specs[n.region], n))
    && (forall n :: n in t.seeds <==> n in t.nodes && n.name in Labels.SeedPods(specs[n.region], specs[n.region].dcs))
  }

  /** At most two seeds, or only the last ten ordinals of their length are left for the other pods. */
  ghost predicate NumbersFit(numSeeds: int, replicas: nat) {
    var seeds := Labels.NumberOfSeeds(numSeeds, replicas);
    seeds <= 2 || exists d :: AmongLastTen(seeds, replicas, d)
  }

  ghost predicate AllNumbersFit(specs: map<string, Labels.Spec>) {
    forall r, i :: r in specs && 0 <= i < |specs[r].dcs| ==> NumbersFit(specs[r].numSeeds, specs[r].dcs[i].replicas)
  }

  lemma NodeAtIsSeed(t: Topology, specs: map<string, Labels.Spec>, r: string, i: nat, ordinal: nat)
    requires Numbered(t, specs) && r in specs && i < |specs[r].dcs| && ordinal < specs[r].dcs[i].replicas
    ensures var n := NodeAt(r, specs[r], i, ordinal);
            n in t.nodes && (n in t.seeds <==> ordinal < Labels.NumberOfSeeds(specs[r].numSeeds, specs[r].dcs[i].replicas))
  {
    hide Labels.SeedPods, Labels.NumberOfSeeds, PodName, DCName;
    var spec := specs[r];
    Labels.SeedPodsMembers(spec, spec.dcs, spec.dcs[i].name, ordinal);
    assert IsPod(spec, NodeAt(r, spec, i, ordinal));
    assert forall k :: 0 <= k < |spec.dcs| && spec.dcs[k].name == spec.dcs[i].name ==> k == i;
  }

  /** The seeds come first exactly when the numbers of every DC fit. */
  lemma SeedsComeFirstExactlyWhen(t: Topology, specs: map<string, Labels.Spec>)
    requires Numbered(t, specs)
    ensures SeedsComeFirst(t) <==> AllNumbersFit(specs)
  {
    hide NumbersFit, Labels.SeedPods, PodName, DCName, LexLess, Numbered;
    if AllNumbersFit(specs) {
      forall m, n | m in t.seeds && n in t.nodes && n !in t.seeds && m.region == n.region && m.dc == n.dc
        ensures LexLess(m.name, n.name)
      {
        SeedBeforeOther(t, specs, m, n);
      }
    }
    if SeedsComeFirst(t) {
      forall r, i | r in specs && 0 <= i < |specs[r].dcs| ensures NumbersFit(specs[r].numSeeds, specs[r].dcs[i].replicas) {
        FirstSeedsFit(t, specs, r, i);
      }
    }
  }

  lemma SeedBeforeOther(t: Topology, specs: map<string, Labels.Spec>, m: Node, n: Node)
    requires Numbered(t, specs) && AllNumbersFit(specs)
    requires m in t.seeds && n in t.nodes && n !in t.seeds && m.region == n.region && m.dc == n.dc
    ensures LexLess(m.name, n.name)
  {
    hide Labels.SeedPods, Labels.NumberOfSeeds, PodName, DCName, LexLess, AmongLastTen;
    var r, spec := m.region, specs[m.region];
    var i, k: nat :| 0 <= i < |spec.dcs| && k < spec.dcs[i].replicas && m == NodeAt(r, spec, i, k);
    var j, l: nat :| 0 <= j < |spec.dcs| && l < spec.dcs[j].replicas && n == NodeAt(r, spec, j, l);
    assert i == j;
    NodeAtIsSeed(t, specs, r, i, k);
    NodeAtIsSeed(t, specs, r, i, l);
    var dc := spec.dcs[i];
    SeedNamesComeFirst(DCName(spec.cluster, dc.name), Labels.NumberOfSeeds(spec.numSeeds, dc.replicas), dc.replicas);
    assert NumbersFit(spec.numSeeds, spec.dcs[i].replicas);
  }

  lemma FirstSeedsFit(t: Topology, specs: map<string, Labels.Spec>, r: string, i: nat)
    requires Numbered(t, specs) && SeedsComeFirst(t) && r in specs && i < |specs[r].dcs|
    ensures NumbersFit(specs[r].numSeeds, specs[r].dcs[i].replicas)
  {
    hide Labels.SeedPods, PodName, DCName, LexLess, AmongLastTen, Numbered;
    var spec, dc := specs[r], specs[r].dcs[i];
    var sts, seeds := DCName(spec.cluster, dc.name), Labels.NumberOfSeeds(spec.numSeeds, dc.replicas);
    if seeds > 2 {
      forall k: nat, l: nat | k < seeds <= l < dc.replicas ensures LexLess(PodName(sts, k), PodName(sts, l)) {
        NodeAtIsSeed(t, specs, r, i, k);
        NodeAtIsSeed(t, specs, r, i, l);
      }
      SeedNamesComeFirst(sts, seeds, dc.replicas);
    }
  }

  /** Over all reachable states: one node joins at a time, and seeds before others, exactly when the
      numbers of seeds and pods of every DC fit. */
  lemma OrderKeptExactlyWhenNumbersFit(t: Topology, specs: map<string, Labels.Spec>)
    requires Agreed(t) && HasSeeds(t) && Numbered(t, specs)
    ensures (forall s :: Reachable(t, s) ==> OneJoins(t, s)) <==> AllNumbersFit(specs)
    ensures (forall s :: Reachable(t, s) ==> SeedsBeforeOthers(t, s)) <==> AllNumbersFit(specs)
  {
    hide Agreed, HasSeeds, Numbered, AllNumbersFit, Reachable, OneJoins, SeedsBeforeOthers, SeedsComeFirst;
    SeedsComeFirstExactlyWhen(t, specs);
    OrderKeptExactlyWhenSeedsComeFirst(t);
  }

  /** Three seeds do not fit eleven pods: the name of the third comes after that of pod ten. */
  lemma ThreeSeedsOfElevenDoNotFit()
    ensures !NumbersFit(3, 11) && NumbersFit(3, 10) && NumbersFit(2, 11)
  {
    hide PodName, LexLess;
    ThirdSeedComesLate("");
    SeedNamesComeFirst("", 3, 11);
    if LexLess(PodName("", 2), PodName("", 10)) {
      LexLessNotBoth(PodName("", 2), PodName("", 10));
    }
    assert Pow10(1) == 10;
    assert AmongLastTen(3, 10, 1);
  }

  lemma LexLessNotBoth(a: string, b: string)
    requires LexLess(a, b)
    ensures !LexLess(b, a)
  {
    if LexLess(b, a) {
      LexLeAntisymmetric(a, b);
    }
  }
}
