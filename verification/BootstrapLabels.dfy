/** Labels that come late. A pass writes the configuration before it labels the seeds, so a seed
    may be treated as any other pod for a while. This breaks the order of starts exactly
    where some seed's name comes after the name of another node of its DC. */
module BootstrapLabels {
  import opened Bootstrap
  import opened BootstrapLiveness
  import opened BootstrapProgress
  import opened BootstrapProtocol
  import opened BootstrapSafety
  import opened Text

  ghost predicate Reachable(t: Topology, s: State) {
    exists start :: Init(t, start) && Reaches(t, start, s)
  }

  /** All nodes but two are up, and the seed among the two is not labelled yet. */
  function TwoLeft(t: Topology, m: Node, n: Node): State {
    State(t.nodes - {m, n}, {}, {}, t.seeds - {m}, t.seeds - {m}, {}, {}, {}, {}, map r | r in t.specs :: Idle)
  }

  /** Seed `m` and another node `n` of its DC, in the wrong order by name. */
  ghost predicate WrongOrder(t: Topology, m: Node, n: Node) {
    && m in t.seeds && n in t.nodes && n !in t.seeds && m.region == n.region && m.dc == n.dc && m.region in t.specs
    && LexLess(n.name, m.name)
  }

  /** Every region but that of `m` and `n` is ready and announced; only they are not ready. */
  ghost predicate OnlyTwoLeft(t: Topology, s: State, m: Node, n: Node) {
    && s.ready == t.nodes - {m, n} && GatesOpen(t, s)
    && forall h :: h in t.specs && h != m.region ==> h in s.flags
  }

  lemma TwoLeftTurn(t: Topology, s: State, m: Node, n: Node) returns (order: Order)
    requires Agreed(t) && WrongOrder(t, m, n) && OnlyTwoLeft(t, s, m, n)
    ensures order == CurrentDecision(t, s, m.region) == Order(false, m.dc) && m.dc != ""
  {
    hide Agreed, Decided, CurrentCounts, CurrentAnswers, WrongOrder;
    WrongOrderMeans(t, m, n);
    assert !RegionReady(t, s.ready, m.region);
    assert Turn(t, s.ready, s.flags, m.region);
    var x := CurrentOrder(t, s.ready, s.flags, m.region);
    assert x in {m, n};
    order := CurrentDecision(t, s, m.region);
  }

  lemma WrongOrderMeans(t: Topology, m: Node, n: Node)
    requires Agreed(t) && WrongOrder(t, m, n)
    ensures m in t.seeds && m in t.nodes && n in t.nodes && m != n && m.region in t.specs && m.dc == n.dc && m.region == n.region
  {
  }

  /** A configuration written while the seed is unlabelled releases the other node. */
  lemma UnlabelledSeedIsOvertaken(t: Topology, s: State, m: Node, n: Node, pods: seq<Pod>)
    requires Agreed(t) && WrongOrder(t, m, n) && OnlyTwoLeft(t, s, m, n) && Current(t, s.ready, s.labelled, m.region, pods)
    requires m !in s.labelled && forall x :: x in s.labelled && x.region == m.region ==> x in t.seeds
    ensures n in Released(m.region, pods, CurrentDecision(t, s, m.region))
  {
    hide Agreed, CurrentDecision, Lists, NextNonSeed, LexLess;
    var order := TwoLeftTurn(t, s, m, n);
    var p := PodOf(t, s, m.region, pods, n);
    forall q | q in pods && Candidate(q, m.dc) ensures LexLe(n.name, q.name) {
      assert NodeOf(m.region, q) in {m, n};
      LexLeReflexive(n.name);
      WrongNames(t, m, n);
    }
    NamesPresent(t, s.ready, s.labelled, m.region, pods);
    NextNonSeedIsLeast(pods, m.dc, n.name);
    assert Candidate(p, m.dc);
    forall i | 0 <= i < |pods| && pods[i].dc == m.dc && pods[i].seed ensures AllReady(pods[i].statuses) {
      assert pods[i] in pods && NodeOf(m.region, pods[i]) in s.ready;
      assert PodReady(pods[i]);
    }
    assert !Paused(pods, p, order);
  }

  lemma WrongNames(t: Topology, m: Node, n: Node)
    requires WrongOrder(t, m, n)
    ensures LexLe(n.name, m.name)
  {
  }

  lemma PodOf(t: Topology, s: State, r: string, pods: seq<Pod>, n: Node) returns (p: Pod)
    requires Current(t, s.ready, s.labelled, r, pods) && n in t.nodes && n.region == r
    ensures p in pods && NodeOf(r, p) == n && (PodReady(p) <==> n in s.ready) && (p.seed <==> n in s.labelled)
  {
    assert Lists(pods, n);
    p :| p in pods && NodeOf(r, p) == n;
  }

  /** Once it is labelled the next configuration releases the seed as well. */
  lemma LabelledSeedIsReleased(t: Topology, s: State, m: Node, n: Node, pods: seq<Pod>)
    requires Agreed(t) && WrongOrder(t, m, n) && OnlyTwoLeft(t, s, m, n) && Current(t, s.ready, s.labelled, m.region, pods)
    requires m in s.labelled
    ensures m in Released(m.region, pods, CurrentDecision(t, s, m.region))
  {
    hide Agreed, CurrentDecision, Lists, NextNonSeed, SeedPodsReady, LexLess;
    var order := TwoLeftTurn(t, s, m, n);
    WrongOrderMeans(t, m, n);
    var p := PodOf(t, s, m.region, pods, m);
    assert !Paused(pods, p, order);
  }

  /** The start of the run: gates open and every other region announced, before a pass of the region
      itself has labelled anything. */
  lemma OthersAnnounced(t: Topology, m: Node, n: Node) returns (s: State)
    requires Agreed(t) && HasSeeds(t) && WrongOrder(t, m, n)
    ensures Reachable(t, s) && Invariant(t, s) && OnlyTwoLeft(t, s, m, n)
    ensures m !in s.labelled && forall x :: x in s.labelled && x.region == m.region ==> x in t.seeds
  {
    hide Agreed, HasSeeds, Invariant, Reaches, LexLess;
    var start := TwoLeft(t, m, n);
    InitInvariant(t, start);
    var a := FirstRoundOpensGates(t, start, t.specs.Keys);
    ReachesKeepsInvariant(t, start, a);
    s := SecondRoundAnnounces(t, a, t.specs.Keys - {m.region});
    ReachesChain(t, start, a, s);
    ReachesKeepsInvariant(t, start, s);
    forall h | h in t.specs && h != m.region ensures h in s.flags {
      assert RegionReady(t, a.ready, h);
    }
  }

  /** The failing half: with a seed and another node in the wrong order, first the other node starts
      although the seed is not ready, then both are joining. */
  lemma LateLabelBreaksOrder(t: Topology, m: Node, n: Node) returns (s: State, s': State)
    requires Agreed(t) && HasSeeds(t) && WrongOrder(t, m, n)
    ensures Reachable(t, s) && Joining(s, n) && m !in s.ready
    ensures Reachable(t, s') && Joining(s', m) && Joining(s', n)
  {
    hide Agreed, HasSeeds, Invariant, Reaches, Released, CurrentDecision, Current, WrongOrder, Init;
    WrongOrderMeans(t, m, n);
    var r := m.region;
    var b := OthersAnnounced(t, m, n);
    var start :| Init(t, start) && Reaches(t, start, b);
    var pods, pods';
    s, pods := ReadAndWrite(t, b, r);
    ReachesChain(t, start, b, s);
    UnlabelledSeedIsOvertaken(t, b, m, n, pods);
    InvariantPasses(t, b);
    var d := FinishesPass(t, s, r);
    SeedLabelled(t, s, m, RegionReady(t, s.ready, r));
    ReachesChain(t, start, s, d);
    ReachesKeepsInvariant(t, b, s);
    ReachesKeepsInvariant(t, s, d);
    s', pods' := ReadAndWrite(t, d, r);
    ReachesChain(t, start, d, s');
    LabelledSeedIsReleased(t, d, m, n, pods');
  }

  lemma InvariantPasses(t: Topology, s: State)
    requires Invariant(t, s)
    ensures s.passes.Keys == t.specs.Keys
  {
  }

  lemma SeedLabelled(t: Topology, s: State, m: Node, ready: bool)
    requires m in t.seeds && m in t.nodes
    ensures m in PassEnd(t, s, m.region, ready).labelled
  {
  }

  lemma ReachableKeepsOrder(t: Topology, s: State)
    requires Agreed(t) && SeedsComeFirst(t) && Reachable(t, s)
    ensures OneJoins(t, s) && SeedsBeforeOthers(t, s)
  {
    hide Agreed, SeedsComeFirst, Init, Next, OneJoins, SeedsBeforeOthers;
    var start :| Init(t, start) && Reaches(t, start, s);
    var path :| IsPath(t, path) && path[0] == start && path[|path| - 1] == s;
    assert IsRun(t, path);
    OneJoinsAtATime(t, path, |path| - 1);
  }

  /** The exact condition: one node joins at a time, and the seeds are ready before the others start, in
      every reachable state exactly when in every DC the names of the seeds come first. */
  lemma OrderKeptExactlyWhenSeedsComeFirst(t: Topology)
    requires Agreed(t) && HasSeeds(t)
    ensures (forall s :: Reachable(t, s) ==> OneJoins(t, s)) <==> SeedsComeFirst(t)
    ensures (forall s :: Reachable(t, s) ==> SeedsBeforeOthers(t, s)) <==> SeedsComeFirst(t)
  {
    hide Agreed, HasSeeds, Reachable;
    if SeedsComeFirst(t) {
      forall s | Reachable(t, s) ensures OneJoins(t, s) && SeedsBeforeOthers(t, s) {
        ReachableKeepsOrder(t, s);
      }
    } else {
      var m, n :| m in t.seeds && n in t.nodes && n !in t.seeds && m.region == n.region && m.dc == n.dc && !LexLess(m.name, n.name);
      WrongPair(t, m, n);
      var s, s' := LateLabelBreaksOrder(t, m, n);
      assert !SeedsBeforeOthers(t, s) && !OneJoins(t, s');
    }
  }

  lemma WrongPair(t: Topology, m: Node, n: Node)
    requires Agreed(t) && m in t.seeds && n in t.nodes && n !in t.seeds && m.region == n.region && m.dc == n.dc
    requires !LexLess(m.name, n.name)
    ensures WrongOrder(t, m, n)
  {
    LexLeTotal(m.name, n.name);
  }
}
