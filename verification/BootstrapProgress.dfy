/** Bootstrap never deadlocks: from every reachable state the nodes can all become
    ready, one after the other. */
module BootstrapProgress {
  import opened Bootstrap
  import opened BootstrapProtocol
  import opened BootstrapSafety
  import opened DataCenters
  import opened Option
  import opened Text

  /******* Paths *******/

  ghost predicate IsPath(t: Topology, path: seq<State>) {
    path != [] && forall i :: 0 <= i < |path| - 1 ==> Next(t, path[i], path[i + 1])
  }

  ghost predicate Reaches(t: Topology, s: State, s': State) {
    exists path :: IsPath(t, path) && path[0] == s && path[|path| - 1] == s'
  }

  lemma StayReaches(t: Topology, s: State)
    ensures Reaches(t, s, s)
  {
    assert IsPath(t, [s]);
  }

  lemma StepReaches(t: Topology, s: State, s': State)
    requires Next(t, s, s')
    ensures Reaches(t, s, s')
  {
    hide Next;
    assert IsPath(t, [s, s']);
  }

  lemma ReachesChain(t: Topology, a: State, b: State, c: State)
    requires Reaches(t, a, b) && Reaches(t, b, c)
    ensures Reaches(t, a, c)
  {
    hide Next;
    var p :| IsPath(t, p) && p[0] == a && p[|p| - 1] == b;
    var q :| IsPath(t, q) && q[0] == b && q[|q| - 1] == c;
    var path := p + q[1..];
    forall i | 0 <= i < |path| - 1 ensures Next(t, path[i], path[i + 1]) {
      if i >= |p| - 1 {
        assert path[i] == q[i - |p| + 1] && path[i + 1] == q[i - |p| + 2];
      }
    }
    assert IsPath(t, path);
  }

  lemma OperatorReaches(t: Topology, a: State, b: State, c: State, r: string)
    requires Reaches(t, a, b) && OperatorStep(t, b, c, r)
    ensures Reaches(t, a, c)
  {
    hide OperatorStep;
    StepReaches(t, b, c);
    ReachesChain(t, a, b, c);
  }

  lemma {:induction false} PathKeepsInvariant(t: Topology, path: seq<State>, i: nat)
    requires Agreed(t) && IsPath(t, path) && i < |path| && Invariant(t, path[0])
    ensures Invariant(t, path[i])
  {
    hide Invariant, Next, Agreed;
    if i > 0 {
      PathKeepsInvariant(t, path, i - 1);
      StepKeepsInvariant(t, path[i - 1], path[i]);
    }
  }

  lemma ReachesKeepsInvariant(t: Topology, s: State, s': State)
    requires Agreed(t) && Invariant(t, s) && Reaches(t, s, s')
    ensures Invariant(t, s')
  {
    hide Invariant, Next, Agreed;
    var path :| IsPath(t, path) && path[0] == s && path[|path| - 1] == s';
    PathKeepsInvariant(t, path, |path| - 1);
  }

  lemma ToTwice(s: State, r: string, p: Pass, q: Pass)
    ensures To(To(s, r, p), r, q) == To(s, r, q)
  {
    assert s.passes[r := p][r := q] == s.passes[r := q];
  }

  /******* A pass that sees everything as it is *******/

  /** Every region has a seed; without one it would hold the others back for ever. */
  ghost predicate HasSeeds(t: Topology) {
    forall r :: r in t.specs ==> HasSeed(t, r)
  }

  /** The list shows readiness and labels as they are. */
  ghost predicate Current(t: Topology, ready: set<Node>, labelled: set<Node>, r: string, pods: seq<Pod>) {
    && Observed(t, ready, labelled, r, pods)
    && forall p :: p in pods ==> (PodReady(p) <==> NodeOf(r, p) in ready) && (p.seed <==> NodeOf(r, p) in labelled)
  }

  lemma {:induction false} CurrentPods(nodes: set<Node>, ready: set<Node>, labelled: set<Node>, r: string) returns (pods: seq<Pod>)
    requires forall m, n :: m in nodes && n in nodes && m.name == n.name ==> m == n
    requires forall n :: n in nodes ==> n.region == r
    ensures DistinctNames(pods)
    ensures forall p :: p in pods ==>
              NodeOf(r, p) in nodes && p.statuses == [NodeOf(r, p) in ready] && p.seed == (NodeOf(r, p) in labelled)
    ensures forall n :: n in nodes ==> Lists(pods, n)
  {
    if nodes == {} {
      pods := [];
    } else {
      var n :| n in nodes;
      var rest := CurrentPods(nodes - {n}, ready, labelled, r);
      var pod := Pod(n.name, n.dc, n in labelled, [n in ready], "ip");
      pods := rest + [pod];
      assert pod in pods && NodeOf(r, pod) == n;
      forall i | 0 <= i < |rest| ensures rest[i].name != n.name {
        assert rest[i] in rest;
        assert NodeOf(r, rest[i]) in nodes - {n};
      }
      forall m | m in nodes ensures Lists(pods, m) {
        if m != n {
          assert Lists(rest, m);
        }
      }
    }
  }

  lemma CurrentListing(t: Topology, ready: set<Node>, labelled: set<Node>, r: string) returns (pods: seq<Pod>)
    requires Agreed(t) && r in t.specs
    ensures Current(t, ready, labelled, r, pods)
  {
    hide Lists;
    var nodes := set n | n in t.nodes && n.region == r;
    pods := CurrentPods(nodes, ready, labelled, r);
    forall p | p in pods ensures PodReady(p) <==> NodeOf(r, p) in ready {
      assert p.statuses[0] == (NodeOf(r, p) in ready);
    }
  }

  /** A label seen now was set by now. */
  lemma CurrentIsObserved(t: Topology, s: State, r: string, pods: seq<Pod>)
    requires Current(t, s.ready, s.labelled, r, pods) && s.labelled <= s.everLabelled
    ensures Observed(t, s.ready, s.everLabelled, r, pods)
  {
    hide Lists;
  }

  function CurrentCounts(t: Topology, ready: set<Node>, r: string, dcs: seq<DC>): (counts: seq<Option<nat>>)
    ensures |counts| == |dcs|
    ensures forall i :: 0 <= i < |dcs| ==> counts[i] == Some(|NodesOf(t, r, dcs[i].name) * ready|)
  {
    seq(|dcs|, i requires 0 <= i < |dcs| => Some(|NodesOf(t, r, dcs[i].name) * ready|))
  }

  function CurrentAnswers(flags: set<string>, managed: seq<Region>): (answers: seq<bool>)
    ensures |answers| == |managed| && forall i :: 0 <= i < |managed| ==> answers[i] == (managed[i].host in flags)
  {
    seq(|managed|, i requires 0 <= i < |managed| => managed[i].host in flags)
  }

  lemma {:induction false} StatusesExact(managed: seq<Region>, answers: seq<bool>, flags: set<string>, k: nat)
    requires |answers| <= |managed| && k < |answers|
    requires forall i :: 0 <= i < |answers| ==> answers[i] == (managed[i].host in flags)
    ensures Holds(Statuses(managed, answers), managed[k].host) <==> managed[k].host in flags
  {
    var last := |answers| - 1;
    if managed[last].host != managed[k].host {
      StatusesExact(managed, answers[..last], flags, k);
    }
  }

  /** With exact counts the unready DCs are the unready DCs. */
  lemma CountsExact(t: Topology, ready: set<Node>, r: string, i: nat)
    requires r in t.specs && SpecAgrees(t, r) && i < |t.specs[r].dcs|
    ensures var dcs := t.specs[r].dcs;
            dcs[i].name in UnreadyDCs(dcs, CurrentCounts(t, ready, r, dcs)) <==> !DCReady(t, ready, r, dcs[i].name)
  {
    var dcs := t.specs[r].dcs;
    var counts := CurrentCounts(t, ready, r, dcs);
    UnreadyDCsMembers(dcs, counts, dcs[i].name);
    var all := NodesOf(t, r, dcs[i].name);
    if DCReady(t, ready, r, dcs[i].name) {
      assert all * ready == all;
      forall k | 0 <= k < |dcs| && dcs[k].name == dcs[i].name ensures !UnreadyDC(dcs[k], counts[k]) {
      }
    } else {
      var x :| x in all && x !in ready;
      SmallerSet(all * ready, all, x);
      assert UnreadyDC(dcs[i], counts[i]);
    }
  }

  /** The regions before `r` are ready and announced, and `r` is not ready. */
  ghost predicate Turn(t: Topology, ready: set<Node>, flags: set<string>, r: string) {
    && r in t.specs && !RegionReady(t, ready, r)
    && forall h :: h in t.specs && LexLess(h, r) ==> h in flags
  }

  lemma CurrentOrder(t: Topology, ready: set<Node>, flags: set<string>, r: string) returns (n: Node)
    requires Agreed(t) && Turn(t, ready, flags, r)
    ensures var spec := t.specs[r];
            var order := Decided(spec, CurrentCounts(t, ready, r, spec.dcs), CurrentAnswers(flags, spec.managed));
            !order.regionPaused && order.nextDC == n.dc != "" && n in NodesOf(t, r, n.dc) && n !in ready
  {
    hide Agreed, DCReady, FirstUnready, UnreadyDCs, NextLocalDC, AllRegionsHosts, Statuses, SpecAgrees;
    var spec := t.specs[r];
    var counts := CurrentCounts(t, ready, r, spec.dcs);
    var unready := UnreadyDCs(spec.dcs, counts);
    var d := NextLocalDC(spec.dcs, unready);
    n := UnreadyNode(t, ready, r);
    RegionIsTheNext(t, ready, flags, r);
    assert Decided(spec, counts, CurrentAnswers(flags, spec.managed)) == Order(false, d);
  }

  /** The DC that is singled out is not ready. */
  lemma UnreadyNode(t: Topology, ready: set<Node>, r: string) returns (n: Node)
    requires Agreed(t) && r in t.specs && !RegionReady(t, ready, r)
    ensures var dcs := t.specs[r].dcs;
            var unready := UnreadyDCs(dcs, CurrentCounts(t, ready, r, dcs));
            unready != [] && NextLocalDC(dcs, unready) == n.dc != "" && n in NodesOf(t, r, n.dc) && n !in ready
  {
    hide UnreadyDCs, NextLocalDC, Agreed, DCReady;
    var dcs := t.specs[r].dcs;
    var unready := UnreadyDCs(dcs, CurrentCounts(t, ready, r, dcs));
    RegionsAgree(t, r);
    var i := UnreadyDCExists(t, ready, r);
    CountsExact(t, ready, r, i);
    NextLocalDCIsFirst(dcs, unready);
    assert NextLocalDC(dcs, unready) != "";
    var k :| 0 <= k < |dcs| && dcs[k].name == NextLocalDC(dcs, unready) && dcs[k].name in unready;
    CountsExact(t, ready, r, k);
    n := NodeMissing(t, ready, r, dcs[k].name);
  }

  lemma UnreadyDCExists(t: Topology, ready: set<Node>, r: string) returns (i: nat)
    requires Agreed(t) && r in t.specs && !RegionReady(t, ready, r)
    ensures i < |t.specs[r].dcs| && !DCReady(t, ready, r, t.specs[r].dcs[i].name)
  {
    var m :| m in t.nodes && m.region == r && m !in ready;
    i :| 0 <= i < |t.specs[r].dcs| && t.specs[r].dcs[i].name == m.dc;
    assert m in NodesOf(t, r, m.dc);
  }

  lemma NodeMissing(t: Topology, ready: set<Node>, r: string, dc: string) returns (n: Node)
    requires !DCReady(t, ready, r, dc)
    ensures n in NodesOf(t, r, dc) && n !in ready && n.dc == dc
  {
    n :| n in NodesOf(t, r, dc) && n !in ready;
  }

  lemma RegionIsTheNext(t: Topology, ready: set<Node>, flags: set<string>, r: string)
    requires Agreed(t) && Turn(t, ready, flags, r)
    ensures var spec := t.specs[r];
            && spec.host == r && (spec.hostPort <==> spec.managed != [])
            && var statuses := Statuses(spec.managed, CurrentAnswers(flags, spec.managed))[r := false];
               FirstUnready(AllRegionsHosts(spec), statuses) == r != ""
  {
    hide FirstUnready, AllRegionsHosts, Statuses, Agreed;
    RegionsAgree(t, r);
    HostsAgree(t, r);
    var spec := t.specs[r];
    var answers := CurrentAnswers(flags, spec.managed);
    var statuses := Statuses(spec.managed, answers)[r := false];
    FirstUnreadyIsFirst(AllRegionsHosts(spec), statuses);
    assert r in AllRegionsHosts(spec) && !Holds(statuses, r);
    forall h | h in t.specs && LexLess(h, r) ensures Holds(statuses, h) {
      var k :| 0 <= k < |spec.managed| && spec.managed[k].host == h;
      StatusesExact(spec.managed, answers, flags, k);
    }
  }

  /** While a region's turn lasts, a pass that sees things as they are releases an unready node. */
  lemma CurrentPassReleases(t: Topology, ready: set<Node>, labelled: set<Node>, flags: set<string>, r: string, pods: seq<Pod>)
    returns (n: Node)
    requires Agreed(t) && Turn(t, ready, flags, r) && Current(t, ready, labelled, r, pods)
    ensures var spec := t.specs[r];
            var order := Decided(spec, CurrentCounts(t, ready, r, spec.dcs), CurrentAnswers(flags, spec.managed));
            n in Released(r, pods, order) && n !in ready && n in t.nodes
  {
    hide Decided, Agreed, Paused, PodReady, RegionReady;
    var spec := t.specs[r];
    var order := Decided(spec, CurrentCounts(t, ready, r, spec.dcs), CurrentAnswers(flags, spec.managed));
    var m := CurrentOrder(t, ready, flags, r);
    assert Lists(pods, m);
    var p :| p in pods && NodeOf(r, p) == m;
    NamesPresent(t, ready, labelled, r, pods);
    var q := SomeoneIsReleased(pods, p, order);
    n := NodeOf(r, q);
  }

  lemma NamesPresent(t: Topology, ready: set<Node>, labels: set<Node>, r: string, pods: seq<Pod>)
    requires Agreed(t) && Observed(t, ready, labels, r, pods)
    ensures forall p :: p in pods ==> p.name != ""
  {
    forall p | p in pods ensures p.name != "" {
      assert NodeOf(r, p).name == p.name;
    }
  }

  lemma SomeoneIsReleased(pods: seq<Pod>, p: Pod, order: Order) returns (q: Pod)
    requires p in pods && !PodReady(p) && !order.regionPaused && order.nextDC == p.dc != ""
    requires forall x :: x in pods ==> x.name != ""
    ensures q in pods && !PodReady(q) && !Paused(pods, q, order)
  {
    hide NextNonSeed;
    if p.seed {
      q := p;
    } else if SeedPodsReady(pods, p.dc) {
      NextNonSeedIsLeast(pods, p.dc, NextNonSeed(pods, p.dc));
      assert Candidate(p, p.dc);
      q :| q in pods && Candidate(q, p.dc) && q.name == NextNonSeed(pods, p.dc);
    } else {
      var i :| 0 <= i < |pods| && pods[i].dc == p.dc && pods[i].seed && !AllReady(pods[i].statuses);
      q := pods[i];
    }
  }
}
