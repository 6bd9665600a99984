/** What holds in every reachable state of the bootstrap protocol. */
module BootstrapSafety {
  import opened Bootstrap
  import opened BootstrapProtocol
  import opened DataCenters
  import opened Option
  import opened Text

  /** Everything a pass has read stays true while nodes become ready and are labelled. */
  lemma SoundnessGrows(t: Topology, ready: set<Node>, more: set<Node>, labels: set<Node>, moreLabels: set<Node>, r: string, p: Pass)
    requires r in t.specs && PassSound(t, ready, labels, r, p) && ready <= more && labels <= moreLabels
    ensures PassSound(t, more, moreLabels, r, p)
  {
    hide Counted;
    if p.Counting? || p.Asking? || p.Recounting? {
      CountsGrow(t, ready, more, r, p.counts);
    }
  }

  lemma CountsGrow(t: Topology, ready: set<Node>, more: set<Node>, r: string, counts: seq<Option<nat>>)
    requires r in t.specs && CountsSound(t, ready, r, counts) && ready <= more
    ensures CountsSound(t, more, r, counts)
  {
    forall i | 0 <= i < |counts| ensures Counted(t, more, r, t.specs[r].dcs[i].name, counts[i]) {
      var all := NodesOf(t, r, t.specs[r].dcs[i].name);
      assert Counted(t, ready, r, t.specs[r].dcs[i].name, counts[i]);
      SubsetSize(all * ready, all * more);
    }
  }

  lemma SubsetSize<T>(a: set<T>, b: set<T>)
    requires a <= b
    ensures |a| <= |b|
  {
    assert b == a + (b - a);
  }

  lemma ClearedGrows(t: Topology, ready: set<Node>, more: set<Node>, n: Node)
    requires Cleared(t, ready, n) && ready <= more
    ensures Cleared(t, more, n)
  {
    forall h | h in t.specs && LexLess(h, n.region) ensures RegionReady(t, more, h) {
      assert RegionReady(t, ready, h);
    }
  }

  lemma PassesGrow(t: Topology, s: State, s': State)
    requires PassesSound(t, s) && s'.passes == s.passes && s.ready <= s'.ready && s.everLabelled <= s'.everLabelled
    ensures PassesSound(t, s')
  {
    hide PassSound;
    forall r | r in s'.passes ensures PassSound(t, s'.ready, s'.everLabelled, r, s'.passes[r]) {
      SoundnessGrows(t, s.ready, s'.ready, s.everLabelled, s'.everLabelled, r, s.passes[r]);
    }
  }

  lemma BecomeReadyKeeps(t: Topology, s: State, s': State, n: Node)
    requires Invariant(t, s) && BecomeReady(t, s, s', n)
    ensures Invariant(t, s')
  {
    hide PassesSound, Cleared;
    PassesGrow(t, s, s');
    forall m | m in s'.allowed ensures m in s'.ready || Cleared(t, s'.ready, m) {
      if m !in s'.ready {
        ClearedGrows(t, s.ready, s'.ready, m);
      }
    }
    forall h | h in s'.published ensures RegionReady(t, s'.ready, h) {
      assert RegionReady(t, s.ready, h);
    }
  }

  lemma LabelPodKeeps(t: Topology, s: State, s': State, r: string, n: Node)
    requires Invariant(t, s) && LabelPod(t, s, s', r, n)
    ensures Invariant(t, s')
  {
    hide PassesSound, Cleared, RegionReady;
    PassesGrow(t, s, s');
  }

  lemma WriteConfigKeeps(t: Topology, s: State, s': State, r: string)
    requires Agreed(t) && Invariant(t, s) && WriteConfig(t, s, s', r)
    ensures Invariant(t, s')
  {
    hide Cleared, Paused, Decided, Observed, Agreed, Counted, RegionReady;
    var p := s.passes[r];
    var order := Decided(t.specs[r], p.counts, p.answers);
    assert PassSound(t, s.ready, s.everLabelled, r, p);
    OrderIsSound(t, s.ready, r, p.counts, p.answers);
    forall n | n in Released(r, p.pods, order) ensures n in t.nodes && (n in s.ready || Cleared(t, s.ready, n)) {
      var pod :| pod in p.pods && !Paused(p.pods, pod, order) && NodeOf(r, pod) == n;
      ReleasedIsCleared(t, s.ready, s.everLabelled, r, p.pods, order, pod);
    }
  }

  lemma PublishStatusKeeps(t: Topology, s: State, s': State, r: string)
    requires Agreed(t) && Invariant(t, s) && PublishStatus(t, s, s', r)
    ensures Invariant(t, s')
  {
    hide Cleared, Agreed, RegionReady, Counted, Observed;
    assert PassSound(t, s.ready, s.everLabelled, r, s.passes[r]);
    if UnreadyDCs(t.specs[r].dcs, s.passes[r].counts) == [] {
      AllDCsReady(t, s.ready, r, s.passes[r].counts);
    }
  }

  lemma ReadStepKeeps(t: Topology, s: State, s': State, r: string)
    requires Invariant(t, s) && ReadStep(t, s, s', r)
    ensures Invariant(t, s')
  {
    hide Cleared, Observed, Counted, RegionReady, HasSeed, NodesOf;
    assert PassSound(t, s.ready, s.everLabelled, r, s.passes[r]);
    assert PassSound(t, s.ready, s.everLabelled, r, s'.passes[r]);
  }

  lemma QuietStepKeeps(t: Topology, s: State, s': State, r: string)
    requires Invariant(t, s)
    requires PodsLabelled(t, s, s', r) || GetDCs(t, s, s', r) || DCsKnown(t, s, s', r)
          || (exists count :: RecountDC(t, s, s', r, count)) || Abort(t, s, s', r)
    ensures Invariant(t, s')
  {
    hide Cleared, Observed, Counted, RegionReady;
    assert PassSound(t, s.ready, s.everLabelled, r, s.passes[r]);
    assert PassSound(t, s.ready, s.everLabelled, r, s'.passes[r]);
  }

  lemma StepKeepsInvariant(t: Topology, s: State, s': State)
    requires Agreed(t) && Invariant(t, s) && Next(t, s, s')
    ensures Invariant(t, s')
  {
    hide Invariant, ReadStep, WriteConfig, Abort, LabelPod, PodsLabelled, GetDCs, DCsKnown, RecountDC,
      PublishStatus, StartPod, BecomeReady, CrashPod, RestartProber, Agreed;
    if r :| OperatorStep(t, s, s', r) {
      if WriteConfig(t, s, s', r) {
        WriteConfigKeeps(t, s, s', r);
      } else if PublishStatus(t, s, s', r) {
        PublishStatusKeeps(t, s, s', r);
      } else if ReadStep(t, s, s', r) {
        ReadStepKeeps(t, s, s', r);
      } else if n :| LabelPod(t, s, s', r, n) {
        LabelPodKeeps(t, s, s', r, n);
      } else {
        QuietStepKeeps(t, s, s', r);
      }
    } else if n :| PodStep(t, s, s', n) {
      if BecomeReady(t, s, s', n) {
        BecomeReadyKeeps(t, s, s', n);
      } else {
        StartOrCrashKeeps(t, s, s', n);
      }
    } else {
      var r :| RestartProber(t, s, s', r);
      RestartKeeps(t, s, s', r);
    }
  }

  lemma StartOrCrashKeeps(t: Topology, s: State, s': State, n: Node)
    requires Invariant(t, s) && (StartPod(t, s, s', n) || CrashPod(t, s, s', n))
    ensures Invariant(t, s')
  {
    hide Cleared, PassSound, RegionReady;
  }

  lemma RestartKeeps(t: Topology, s: State, s': State, r: string)
    requires Invariant(t, s) && RestartProber(t, s, s', r)
    ensures Invariant(t, s')
  {
    hide Cleared, PassSound, RegionReady;
  }

  lemma {:induction false} RunKeepsInvariant(t: Topology, run: seq<State>, i: nat)
    requires Agreed(t) && IsRun(t, run) && i < |run|
    ensures Invariant(t, run[i])
  {
    hide Invariant, Next, Agreed, Init;
    if i == 0 {
      InitInvariant(t, run[0]);
    } else {
      RunKeepsInvariant(t, run, i - 1);
      StepKeepsInvariant(t, run[i - 1], run[i]);
    }
  }

  lemma InitInvariant(t: Topology, s: State)
    requires Init(t, s)
    ensures Invariant(t, s)
  {
  }

  /** Nodes that may have passed their pause, or may pass it, without being ready. */
  predicate Joining(s: State, n: Node) {
    n in s.allowed && n !in s.ready
  }

  function FirstIndex(dcs: seq<DC>, dc: string): (i: nat)
    ensures i <= |dcs| && (i < |dcs| ==> dcs[i].name == dc) && forall j :: 0 <= j < i ==> dcs[j].name != dc
  {
    if dcs == [] || dcs[0].name == dc then 0 else FirstIndex(dcs[1..], dc) + 1
  }

  /** The start order: by region, by position of the DC in the spec, and within the DC, for a node
      that is not a seed, by name. */
  predicate Precedes(t: Topology, m: Node, n: Node)
    requires m.region in t.specs && n.region in t.specs
  {
    var dcs := t.specs[n.region].dcs;
    if m.region != n.region then LexLess(m.region, n.region)
    else if m.dc != n.dc then FirstIndex(dcs, m.dc) < FirstIndex(dcs, n.dc)
    else n !in t.seeds && LexLess(m.name, n.name)
  }

  lemma ClearedMeans(t: Topology, ready: set<Node>, n: Node, m: Node)
    requires Cleared(t, ready, n) && m in t.nodes && m.region in t.specs && Precedes(t, m, n)
    ensures m in ready
  {
    hide LexLess;
    assert m in NodesOf(t, m.region, m.dc);
    if m.region != n.region {
      assert RegionReady(t, ready, m.region);
    } else if m.dc != n.dc {
      var dcs := t.specs[n.region].dcs;
      var k := FirstIndex(dcs, m.dc);
      assert Before(dcs, k, n.dc);
      assert DCReady(t, ready, n.region, dcs[k].name);
    }
  }

  /** The order leaves open only which of a seed and a node with a smaller name comes first. */
  lemma PrecedesIsTotal(t: Topology, m: Node, n: Node)
    requires Agreed(t) && m in t.nodes && n in t.nodes && m != n
    ensures Precedes(t, m, n) || Precedes(t, n, m) || SeedAfter(t, m, n) || SeedAfter(t, n, m)
  {
    LexLeTotal(m.region, n.region);
    LexLeTotal(m.name, n.name);
  }

  /** Two nodes of one DC, of which the one with the larger name is a seed. */
  predicate SeedAfter(t: Topology, m: Node, n: Node) {
    m.region == n.region && m.dc == n.dc && LexLess(m.name, n.name) && n in t.seeds
  }

  /** Nobody overtakes: whatever precedes a joining node is ready. */
  lemma JoinsInOrder(t: Topology, run: seq<State>, i: nat, n: Node, m: Node)
    requires Agreed(t) && IsRun(t, run) && i < |run| && Joining(run[i], n)
    requires m in t.nodes && n in t.nodes && Precedes(t, m, n)
    ensures m in run[i].ready
  {
    hide Cleared, Precedes, Basics, Next;
    RunKeepsInvariant(t, run, i);
    ClearedMeans(t, run[i].ready, n, m);
  }

  /** Cross-region and cross-DC mutual exclusion, whatever the labels: the joining nodes are all of one
      DC, and of two of them the one with the larger name is a seed. So at most one node that is
      not a seed joins at a time, the first of them all by name. */
  lemma JoiningNodesShareDC(t: Topology, run: seq<State>, i: nat, m: Node, n: Node)
    requires Agreed(t) && IsRun(t, run) && i < |run|
    requires Joining(run[i], m) && Joining(run[i], n)
    ensures m == n || SeedAfter(t, m, n) || SeedAfter(t, n, m)
  {
    hide Precedes, Next, Cleared, PassSound, SeedAfter;
    RunKeepsInvariant(t, run, i);
    if m != n {
      PrecedesIsTotal(t, m, n);
      if Precedes(t, m, n) {
        JoinsInOrder(t, run, i, n, m);
      }
      if Precedes(t, n, m) {
        JoinsInOrder(t, run, i, m, n);
      }
    }
  }

  /** In every DC the names of the seeds come before those of the other nodes. */
  ghost predicate SeedsComeFirst(t: Topology) {
    forall m, n :: m in t.seeds && n in t.nodes && n !in t.seeds && m.region == n.region && m.dc == n.dc ==> LexLess(m.name, n.name)
  }

  /** One joining node at a time: the joining nodes are a single node or seeds of a single DC. */
  ghost predicate OneJoins(t: Topology, s: State) {
    forall m, n :: Joining(s, m) && Joining(s, n) ==> m == n || (m.region == n.region && m.dc == n.dc && m in t.seeds && n in t.seeds)
  }

  /** A node that is not a seed joins only when the seeds of its DC are ready. */
  ghost predicate SeedsBeforeOthers(t: Topology, s: State) {
    forall m, n :: Joining(s, n) && n !in t.seeds && m in t.seeds && m.region == n.region && m.dc == n.dc ==> m in s.ready
  }

  /** Where the seeds come first, one node joins at a time and the seeds are done before the others. */
  lemma OneJoinsAtATime(t: Topology, run: seq<State>, i: nat)
    requires Agreed(t) && SeedsComeFirst(t) && IsRun(t, run) && i < |run|
    ensures OneJoins(t, run[i]) && SeedsBeforeOthers(t, run[i])
  {
    hide Next, Init, Cleared, PassSound, Agreed, Invariant, SpecAgrees;
    RunKeepsInvariant(t, run, i);
    var s := run[i];
    JoiningAreNodes(t, s);
    forall m, n | Joining(s, m) && Joining(s, n)
      ensures m == n || (m.region == n.region && m.dc == n.dc && m in t.seeds && n in t.seeds)
    {
      JoiningNodesShareDC(t, run, i, m, n);
      SeedAfterBoth(t, m, n);
      SeedAfterBoth(t, n, m);
    }
    forall m, n | Joining(s, n) && n !in t.seeds && m in t.seeds && m.region == n.region && m.dc == n.dc ensures m in s.ready {
      JoinsInOrder(t, run, i, n, m);
    }
  }

  lemma JoiningAreNodes(t: Topology, s: State)
    requires Agreed(t) && Invariant(t, s)
    ensures forall n :: Joining(s, n) ==> n in t.nodes
    ensures t.seeds <= t.nodes && forall n :: n in t.nodes ==> n.region in t.specs
  {
  }

  lemma SeedAfterBoth(t: Topology, m: Node, n: Node)
    requires SeedsComeFirst(t) && m in t.nodes && n in t.nodes
    ensures SeedAfter(t, m, n) ==> m in t.seeds && n in t.seeds
  {
    if SeedAfter(t, m, n) && LexLess(n.name, m.name) {
      LexLeAntisymmetric(m.name, n.name);
    }
  }
}
