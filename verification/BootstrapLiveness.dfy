/** Runs of the bootstrap protocol that finish. */
module BootstrapLiveness {
  import opened Bootstrap
  import opened BootstrapProgress
  import opened BootstrapProtocol
  import opened BootstrapSafety
  import opened Option
  import opened Text

  /******* The first round *******/

  /** The probers of all regions tell DCs and seeds. */
  ghost predicate GatesOpen(t: Topology, s: State) {
    t.specs.Keys <= s.dcs && t.specs.Keys <= s.seeds
  }

  /** Nothing happened to the nodes, and the probers know at least as much. */
  ghost predicate SameNodes(s: State, s': State) {
    && s'.ready == s.ready && s'.started == s.started && s'.allowed == s.allowed && s'.labelled == s.labelled
    && s.dcs <= s'.dcs && s.seeds <= s'.seeds && s.flags <= s'.flags
  }

  lemma SeededRegionHasDCs(t: Topology, r: string)
    requires Agreed(t) && HasSeeds(t) && r in t.specs
    ensures HasSeed(t, r) && t.specs[r].dcs != []
  {
    assert HasSeed(t, r);
    var n :| n in t.seeds && n.region == r;
    assert HasDC(t.specs[n.region], n.dc);
  }

  /** Up to the published seeds a pass waits for nobody. */
  lemma OpeningOfPass(t: Topology, s: State, r: string) returns (pods: seq<Pod>)
    requires Agreed(t) && HasSeeds(t) && Invariant(t, s) && r in t.specs
    ensures Current(t, s.ready, s.labelled, r, pods)
    ensures Reaches(t, s, To(s, r, Sharing(pods, 0)).(dcs := s.dcs + {r}, seeds := s.seeds + {r}))
  {
    hide Agreed, HasSeeds, PassSound, TurnsKept, Reaches, Current, Observed, HasSeed;
    SeededRegionHasDCs(t, r);
    StayReaches(t, s);
    var a := To(s, r, Idle);
    assert Abort(t, s, a, r);
    OperatorReaches(t, s, s, a, r);
    var b := To(s, r, Opened).(dcs := s.dcs + {r});
    ToTwice(s, r, Idle, Opened);
    assert PublishDCs(t, a, b, r);
    OperatorReaches(t, s, a, b, r);
    pods := CurrentListing(t, s.ready, s.labelled, r);
    CurrentIsObserved(t, s, r, pods);
    var c := To(b, r, Listed(pods));
    assert ListPods(t, b, c, r, pods);
    OperatorReaches(t, s, b, c, r);
    var d := To(s, r, Sharing(pods, 0)).(dcs := s.dcs + {r}, seeds := s.seeds + {r});
    assert s.passes[r := Opened][r := Listed(pods)][r := Sharing(pods, 0)] == s.passes[r := Sharing(pods, 0)];
    assert PublishSeeds(t, c, d, r);
    OperatorReaches(t, s, c, d, r);
  }

  /** A pass that gets as far as publishing its seeds and ends at the closed gate. */
  lemma ShareOwnSeeds(t: Topology, s: State, r: string) returns (s': State)
    requires Agreed(t) && HasSeeds(t) && Invariant(t, s) && r in t.specs
    ensures Reaches(t, s, s') && SameNodes(s, s') && r in s'.seeds && r in s'.dcs
  {
    hide Agreed, HasSeeds, PassSound, TurnsKept, Reaches, Current;
    var pods := OpeningOfPass(t, s, r);
    var d := To(s, r, Sharing(pods, 0)).(dcs := s.dcs + {r}, seeds := s.seeds + {r});
    s' := To(d, r, Idle);
    assert Abort(t, d, s', r);
    OperatorReaches(t, s, d, s', r);
  }

  /** One round, in which every pass may end at the gate, opens the gates. */
  lemma {:induction false} FirstRoundOpensGates(t: Topology, s: State, todo: set<string>) returns (s': State)
    requires Agreed(t) && HasSeeds(t) && Invariant(t, s) && todo <= t.specs.Keys
    ensures Reaches(t, s, s') && SameNodes(s, s') && todo <= s'.seeds && todo <= s'.dcs
  {
    hide Agreed, HasSeeds, Invariant, Reaches;
    if todo == {} {
      StayReaches(t, s);
      s' := s;
    } else {
      var r :| r in todo;
      var a := FirstRoundOpensGates(t, s, todo - {r});
      ReachesKeepsInvariant(t, s, a);
      s' := ShareOwnSeeds(t, a, r);
      ReachesChain(t, s, a, s');
    }
  }

  /******* A pass through open gates, up to the configuration *******/

  lemma ReadsSeeds(t: Topology, s: State, r: string, pods: seq<Pod>)
    requires InPass(t, s, r) && t.specs.Keys <= s.seeds && Agreed(t)
    ensures Reaches(t, To(s, r, Sharing(pods, 0)), To(s, r, Counting(pods, [])))
  {
    hide Reaches, Agreed;
    var from := To(s, r, Sharing(pods, 0));
    var managed := t.specs[r].managed;
    RegionsAgree(t, r);
    StayReaches(t, from);
    var k := 0;
    if t.specs[r].hostPort {
      while k < |managed|
        invariant 0 <= k <= |managed| && Reaches(t, from, To(s, r, Sharing(pods, k)))
      {
        var x, y := To(s, r, Sharing(pods, k)), To(s, r, Sharing(pods, k + 1));
        ToTwice(s, r, Sharing(pods, k), Sharing(pods, k + 1));
        assert GetSeeds(t, x, y, r);
        OperatorReaches(t, from, x, y, r);
        k := k + 1;
      }
    }
    var x, y := To(s, r, Sharing(pods, k)), To(s, r, Counting(pods, []));
    ToTwice(s, r, Sharing(pods, k), Counting(pods, []));
    assert SeedsKnown(t, x, y, r);
    OperatorReaches(t, from, x, y, r);
  }

  lemma ReadsCounts(t: Topology, s: State, r: string, pods: seq<Pod>)
    requires InPass(t, s, r)
    ensures Reaches(t, To(s, r, Counting(pods, [])), To(s, r, Asking(pods, CurrentCounts(t, s.ready, r, t.specs[r].dcs), [])))
  {
    hide Reaches;
    var from := To(s, r, Counting(pods, []));
    var dcs := t.specs[r].dcs;
    var counts := CurrentCounts(t, s.ready, r, dcs);
    StayReaches(t, from);
    var k := 0;
    assert counts[..0] == [];
    while k < |dcs|
      invariant 0 <= k <= |dcs| && Reaches(t, from, To(s, r, Counting(pods, counts[..k])))
    {
      var x, y := To(s, r, Counting(pods, counts[..k])), To(s, r, Counting(pods, counts[..k + 1]));
      ToTwice(s, r, Counting(pods, counts[..k]), Counting(pods, counts[..k + 1]));
      assert counts[..k + 1] == counts[..k] + [counts[k]];
      assert CountDC(t, x, y, r, counts[k]);
      OperatorReaches(t, from, x, y, r);
      k := k + 1;
    }
    assert counts[..k] == counts;
    var x, y := To(s, r, Counting(pods, counts)), To(s, r, Asking(pods, counts, []));
    ToTwice(s, r, Counting(pods, counts), Asking(pods, counts, []));
    assert DCsCounted(t, x, y, r);
    OperatorReaches(t, from, x, y, r);
  }

  lemma ReadsAnswers(t: Topology, s: State, r: string, pods: seq<Pod>, counts: seq<Option<nat>>)
    requires InPass(t, s, r) && s.flags <= s.published
    ensures Reaches(t, To(s, r, Asking(pods, counts, [])), To(s, r, Asking(pods, counts, CurrentAnswers(s.flags, t.specs[r].managed))))
  {
    hide Reaches;
    var from := To(s, r, Asking(pods, counts, []));
    var managed := t.specs[r].managed;
    var answers := CurrentAnswers(s.flags, managed);
    StayReaches(t, from);
    var k := 0;
    assert answers[..0] == [];
    while k < |managed|
      invariant 0 <= k <= |managed| && Reaches(t, from, To(s, r, Asking(pods, counts, answers[..k])))
    {
      var x, y := To(s, r, Asking(pods, counts, answers[..k])), To(s, r, Asking(pods, counts, answers[..k + 1]));
      ToTwice(s, r, Asking(pods, counts, answers[..k]), Asking(pods, counts, answers[..k + 1]));
      assert answers[..k + 1] == answers[..k] + [answers[k]];
      assert AskRegion(t, x, y, r, answers[k]);
      OperatorReaches(t, from, x, y, r);
      k := k + 1;
    }
    assert answers[..k] == answers;
  }

  function CurrentDecision(t: Topology, s: State, r: string): Order
    requires r in t.specs
  {
    Decided(t.specs[r], CurrentCounts(t, s.ready, r, t.specs[r].dcs), CurrentAnswers(s.flags, t.specs[r].managed))
  }

  lemma ReadAndWrite(t: Topology, s: State, r: string) returns (s': State, pods: seq<Pod>)
    requires Agreed(t) && HasSeeds(t) && Invariant(t, s) && r in t.specs && GatesOpen(t, s)
    ensures Reaches(t, s, s') && Current(t, s.ready, s.labelled, r, pods)
    ensures s' == To(s, r, Labelling).(allowed := s.allowed + Released(r, pods, CurrentDecision(t, s, r)))
  {
    hide Reaches, Agreed, PassSound, TurnsKept, Current, HasSeeds, Decided, Released;
    pods := OpeningOfPass(t, s, r);
    assert s.dcs + {r} == s.dcs && s.seeds + {r} == s.seeds;
    var c := To(s, r, Sharing(pods, 0));
    s' := PassTail(t, s, r, pods);
    ReachesChain(t, s, c, s');
  }

  lemma PassTail(t: Topology, s: State, r: string, pods: seq<Pod>) returns (s': State)
    requires Agreed(t) && InPass(t, s, r) && s.flags <= s.published && t.specs.Keys <= s.seeds
    ensures Reaches(t, To(s, r, Sharing(pods, 0)), s')
    ensures s' == To(s, r, Labelling).(allowed := s.allowed + Released(r, pods, CurrentDecision(t, s, r)))
  {
    hide Reaches, Agreed, Decided, Released;
    var spec := t.specs[r];
    var counts, answers := CurrentCounts(t, s.ready, r, spec.dcs), CurrentAnswers(s.flags, spec.managed);
    var c, d := To(s, r, Sharing(pods, 0)), To(s, r, Counting(pods, []));
    ReadsSeeds(t, s, r, pods);
    var e := To(s, r, Asking(pods, counts, []));
    ReadsCounts(t, s, r, pods);
    ReachesChain(t, c, d, e);
    var f := To(s, r, Asking(pods, counts, answers));
    ReadsAnswers(t, s, r, pods, counts);
    ReachesChain(t, c, e, f);
    s' := To(s, r, Labelling).(allowed := s.allowed + Released(r, pods, CurrentDecision(t, s, r)));
    ToTwice(s, r, Asking(pods, counts, answers), Labelling);
    assert WriteConfig(t, f, s', r);
    OperatorReaches(t, c, f, s', r);
  }

  /******* The rest of the pass *******/

  function NodesIn(t: Topology, r: string): set<Node> {
    set n | n in t.nodes && n.region == r
  }

  function Relabelled(t: Topology, s: State, nodes: set<Node>): State {
    s.(labelled := s.labelled - nodes + t.seeds * nodes, everLabelled := s.everLabelled + t.seeds * nodes)
  }

  lemma {:induction false} LabelsPods(t: Topology, s: State, r: string, nodes: set<Node>)
    requires InPass(t, s, r) && s.passes[r].Labelling? && nodes <= NodesIn(t, r)
    ensures Reaches(t, s, Relabelled(t, s, nodes))
  {
    hide Reaches;
    if nodes == {} {
      StayReaches(t, s);
      assert Relabelled(t, s, nodes) == s;
    } else {
      var n :| n in nodes;
      var a, b := Relabelled(t, s, nodes - {n}), Relabelled(t, s, nodes);
      LabelsPods(t, s, r, nodes - {n});
      RelabelledOneMore(t, s, nodes, n);
      assert LabelPod(t, a, b, r, n);
      OperatorReaches(t, s, a, b, r);
    }
  }

  lemma RelabelledOneMore(t: Topology, s: State, nodes: set<Node>, n: Node)
    requires n in nodes
    ensures var a, b := Relabelled(t, s, nodes - {n}), Relabelled(t, s, nodes);
            b == if n in t.seeds then a.(labelled := a.labelled + {n}, everLabelled := a.everLabelled + {n})
                 else a.(labelled := a.labelled - {n})
  {
  }

  lemma GathersDCs(t: Topology, s: State, r: string)
    requires Agreed(t) && InPass(t, s, r) && t.specs.Keys <= s.dcs
    ensures Reaches(t, To(s, r, Gathering(0)), To(s, r, Recounting([])))
  {
    hide Reaches, Agreed;
    RegionsAgree(t, r);
    var from, managed := To(s, r, Gathering(0)), t.specs[r].managed;
    StayReaches(t, from);
    for k := 0 to |managed|
      invariant Reaches(t, from, To(s, r, Gathering(k)))
    {
      var x, y := To(s, r, Gathering(k)), To(s, r, Gathering(k + 1));
      ToTwice(s, r, Gathering(k), Gathering(k + 1));
      assert GetDCs(t, x, y, r);
      OperatorReaches(t, from, x, y, r);
    }
    var x, y := To(s, r, Gathering(|managed|)), To(s, r, Recounting([]));
    ToTwice(s, r, Gathering(|managed|), Recounting([]));
    assert DCsKnown(t, x, y, r);
    OperatorReaches(t, from, x, y, r);
  }

  lemma RecountsDCs(t: Topology, s: State, r: string)
    requires InPass(t, s, r)
    ensures Reaches(t, To(s, r, Recounting([])), To(s, r, Recounting(CurrentCounts(t, s.ready, r, t.specs[r].dcs))))
  {
    hide Reaches;
    var from, counts := To(s, r, Recounting([])), CurrentCounts(t, s.ready, r, t.specs[r].dcs);
    StayReaches(t, from);
    assert counts[..0] == [];
    for k := 0 to |counts|
      invariant Reaches(t, from, To(s, r, Recounting(counts[..k])))
    {
      var x, y := To(s, r, Recounting(counts[..k])), To(s, r, Recounting(counts[..k + 1]));
      ToTwice(s, r, Recounting(counts[..k]), Recounting(counts[..k + 1]));
      assert counts[..k + 1] == counts[..k] + [counts[k]];
      assert RecountDC(t, x, y, r, counts[k]);
      OperatorReaches(t, from, x, y, r);
    }
    assert counts[..|counts|] == counts;
  }

  /** With exact counts no DC is unready exactly when the region is ready. */
  lemma ExactCountsTell(t: Topology, ready: set<Node>, r: string)
    requires Agreed(t) && r in t.specs
    ensures UnreadyDCs(t.specs[r].dcs, CurrentCounts(t, ready, r, t.specs[r].dcs)) == [] <==> RegionReady(t, ready, r)
  {
    hide Agreed, UnreadyDCs, RegionReady, DCReady;
    var dcs := t.specs[r].dcs;
    var unready := UnreadyDCs(dcs, CurrentCounts(t, ready, r, dcs));
    if !RegionReady(t, ready, r) {
      var n := UnreadyNode(t, ready, r);
    } else if unready != [] {
      RegionsAgree(t, r);
      UnreadyDCsMembers(dcs, CurrentCounts(t, ready, r, dcs), unready[0]);
      var i :| 0 <= i < |dcs| && dcs[i].name == unready[0];
      CountsExact(t, ready, r, i);
      ReadyRegionDC(t, ready, r, dcs[i].name);
    }
  }

  lemma ReadyRegionDC(t: Topology, ready: set<Node>, r: string, dc: string)
    requires RegionReady(t, ready, r)
    ensures DCReady(t, ready, r, dc)
  {
  }

  /** What a pass leaves behind that writes its configuration at `s` and goes on to its end. */
  function PassEnd(t: Topology, s: State, r: string, ready: bool): State {
    var l := To(Relabelled(t, s, NodesIn(t, r)), r, Idle);
    if ready then l.(flags := s.flags + {r}, published := s.published + {r}) else l.(flags := s.flags - {r})
  }

  lemma FinishesPass(t: Topology, s: State, r: string) returns (s': State)
    requires Agreed(t) && InPass(t, s, r) && s.passes[r].Labelling? && t.specs.Keys <= s.dcs
    ensures Reaches(t, s, s') && s' == PassEnd(t, s, r, RegionReady(t, s.ready, r))
  {
    hide Reaches, Agreed, UnreadyDCs, RegionReady;
    var l := Relabelled(t, s, NodesIn(t, r));
    LabelsPods(t, s, r, NodesIn(t, r));
    var g := To(l, r, Gathering(0));
    AllLabelled(t, s, r);
    assert PodsLabelled(t, l, g, r);
    OperatorReaches(t, s, l, g, r);
    GathersDCs(t, l, r);
    ReachesChain(t, s, g, To(l, r, Recounting([])));
    var counts := CurrentCounts(t, s.ready, r, t.specs[r].dcs);
    var c := To(l, r, Recounting(counts));
    RecountsDCs(t, l, r);
    ReachesChain(t, s, To(l, r, Recounting([])), c);
    ExactCountsTell(t, s.ready, r);
    s' := PassEnd(t, s, r, RegionReady(t, s.ready, r));
    ToTwice(l, r, Recounting(counts), Idle);
    assert PublishStatus(t, c, s', r);
    OperatorReaches(t, s, c, s', r);
  }

  lemma AllLabelled(t: Topology, s: State, r: string)
    ensures forall n :: n in t.nodes && n.region == r ==> (n in Relabelled(t, s, NodesIn(t, r)).labelled <==> n in t.seeds)
  {
  }

  /******* The second round *******/

  /** Only what passes of other regions than those in `but` do: they write configurations, label their
      pods and announce. */
  ghost predicate RoundKeeps(s: State, s': State, but: set<string>) {
    && s'.ready == s.ready && s'.dcs == s.dcs && s'.seeds == s.seeds
    && s.allowed <= s'.allowed
    && (forall n: Node :: n.region in but ==> (n in s'.labelled <==> n in s.labelled))
  }

  /** A second round, through the gates, announces every ready region. */
  lemma {:induction false} SecondRoundAnnounces(t: Topology, s: State, todo: set<string>) returns (s': State)
    requires Agreed(t) && HasSeeds(t) && Invariant(t, s) && GatesOpen(t, s) && todo <= t.specs.Keys
    ensures Reaches(t, s, s') && RoundKeeps(s, s', t.specs.Keys - todo)
    ensures forall r :: r in todo && RegionReady(t, s.ready, r) ==> r in s'.flags
  {
    hide Agreed, HasSeeds, Invariant, Reaches, RegionReady, Current, Released, CurrentDecision;
    if todo == {} {
      StayReaches(t, s);
      s' := s;
    } else {
      var r :| r in todo;
      var a := SecondRoundAnnounces(t, s, todo - {r});
      ReachesKeepsInvariant(t, s, a);
      var b, pods := ReadAndWrite(t, a, r);
      ReachesChain(t, s, a, b);
      s' := FinishesPass(t, b, r);
      ReachesChain(t, s, b, s');
    }
  }

  /******* The count of unready nodes goes down *******/

  lemma NextTurn(t: Topology, ready: set<Node>, flags: set<string>) returns (r: string)
    requires Agreed(t) && ready <= t.nodes && ready != t.nodes
    requires forall h :: h in t.specs && RegionReady(t, ready, h) ==> h in flags
    ensures Turn(t, ready, flags, r)
  {
    hide LexLe, SortStrings, SpecAgrees;
    var n :| n in t.nodes && n !in ready;
    assert !RegionReady(t, ready, n.region);
    var hosts := AllRegionsHosts(t.specs[n.region]);
    HostsAgree(t, n.region);
    var statuses := map h | h in t.specs :: RegionReady(t, ready, h);
    r := FirstUnready(hosts, statuses);
    FirstUnreadyIsFirst(hosts, statuses);
    assert n.region in hosts && !Holds(statuses, n.region);
    assert !RegionReady(t, ready, r);
    forall h | h in t.specs && LexLess(h, r) ensures h in flags {
      assert h in hosts;
      if !Holds(statuses, h) {
        LexLeAntisymmetric(h, r);
      }
      assert RegionReady(t, ready, h);
    }
  }

  lemma OneMoreNode(t: Topology, s: State) returns (s': State, n: Node)
    requires Agreed(t) && HasSeeds(t) && Invariant(t, s) && s.ready != t.nodes
    ensures Reaches(t, s, s') && n in t.nodes && n !in s.ready && s'.ready == s.ready + {n}
  {
    hide Agreed, HasSeeds, Reaches, Turn, RegionReady, Current, Released, CurrentDecision, Invariant;
    var a := FirstRoundOpensGates(t, s, t.specs.Keys);
    ReachesKeepsInvariant(t, s, a);
    var b := SecondRoundAnnounces(t, a, t.specs.Keys);
    ReachesChain(t, s, a, b);
    ReachesKeepsInvariant(t, s, b);
    var c, d;
    c, n := TurnReleases(t, b);
    ReachesChain(t, s, b, c);
    d := c.(started := c.started + {n});
    assert StartPod(t, c, d, n);
    PodReaches(t, s, c, d, n);
    s' := d.(ready := d.ready + {n});
    assert BecomeReady(t, d, s', n);
    PodReaches(t, s, d, s', n);
  }

  /** The first region that is not ready writes a configuration that releases an unready node. */
  lemma TurnReleases(t: Topology, s: State) returns (s': State, n: Node)
    requires Agreed(t) && HasSeeds(t) && Invariant(t, s) && GatesOpen(t, s) && s.ready != t.nodes
    requires forall r :: r in t.specs && RegionReady(t, s.ready, r) ==> r in s.flags
    ensures Reaches(t, s, s') && s'.ready == s.ready && n in s'.allowed && n in t.nodes && n !in s.ready
  {
    hide Agreed, HasSeeds, Reaches, RegionReady, Current, Released, Decided, PassesSound, TurnsKept;
    var r := NextTurn(t, s.ready, s.flags);
    var pods;
    s', pods := ReadAndWrite(t, s, r);
    n := CurrentPassReleases(t, s.ready, s.labelled, s.flags, r, pods);
  }

  lemma PodReaches(t: Topology, a: State, b: State, c: State, n: Node)
    requires Reaches(t, a, b) && PodStep(t, b, c, n)
    ensures Reaches(t, a, c)
  {
    hide PodStep;
    StepReaches(t, b, c);
    ReachesChain(t, a, b, c);
  }

  lemma {:induction false} EveryNodeCanFollow(t: Topology, s: State) returns (s': State)
    requires Agreed(t) && HasSeeds(t) && Invariant(t, s)
    ensures Reaches(t, s, s') && s'.ready == t.nodes
    decreases |t.nodes - s.ready|
  {
    hide Agreed, HasSeeds, Reaches, PassesSound, TurnsKept, RegionReady;
    if s.ready == t.nodes {
      StayReaches(t, s);
      s' := s;
    } else {
      var a, n := OneMoreNode(t, s);
      ReachesKeepsInvariant(t, s, a);
      SmallerSet(t.nodes - a.ready, t.nodes - s.ready, n);
      s' := EveryNodeCanFollow(t, a);
      ReachesChain(t, s, a, s');
    }
  }

  /** No deadlock: whatever has happened, all nodes can still become ready. */
  lemma BootstrapCanAlwaysFinish(t: Topology, run: seq<State>, i: nat) returns (s': State)
    requires Agreed(t) && HasSeeds(t) && IsRun(t, run) && i < |run|
    ensures Reaches(t, run[i], s') && s'.ready == t.nodes
  {
    RunKeepsInvariant(t, run, i);
    s' := EveryNodeCanFollow(t, run[i]);
  }

  /******* What a region without seeds does to the others *******/

  /** The pass of `r` has not got past the question for the seeds of `h`. */
  ghost predicate Blocked(t: Topology, p: Pass, r: string, h: string)
    requires r in t.specs
  {
    match p
    case Idle => true
    case Opened => true
    case Listed(_) => true
    case Sharing(_, asked) => forall k :: 0 <= k < asked && k < |t.specs[r].managed| ==> t.specs[r].managed[k].host != h
    case _ => false
  }

  ghost predicate HeldBack(t: Topology, s: State, h: string) {
    && s.passes.Keys == t.specs.Keys && h !in s.seeds
    && (forall r :: r in s.passes && r != h ==> Blocked(t, s.passes[r], r, h))
    && (forall n :: n in s.allowed ==> n.region == h)
  }

  /** Without a seed of its own one region keeps all others from starting a single node. */
  lemma {:induction false} SeedlessRegionHoldsOthersBack(t: Topology, run: seq<State>, i: nat, h: string)
    requires Agreed(t) && IsRun(t, run) && i < |run| && h in t.specs && !HasSeed(t, h)
    ensures HeldBack(t, run[i], h)
  {
    hide HeldBack, Agreed, HasSeed, Next;
    if i == 0 {
      InitHeldBack(t, run[0], h);
    } else {
      SeedlessRegionHoldsOthersBack(t, run, i - 1, h);
      StepHeldBack(t, run[i - 1], run[i], h);
    }
  }

  lemma InitHeldBack(t: Topology, s: State, h: string)
    requires Init(t, s)
    ensures HeldBack(t, s, h)
  {
  }

  lemma StepHeldBack(t: Topology, s: State, s': State, h: string)
    requires Agreed(t) && Next(t, s, s') && h in t.specs && !HasSeed(t, h) && HeldBack(t, s, h)
    ensures HeldBack(t, s', h)
  {
    hide HeldBack, Agreed, HasSeed, PublishDCs, ListPods, PublishSeeds, GetSeeds, SeedsKnown, CountDC, DCsCounted, AskRegion,
      WriteConfig, LateStep, Abort, PodStep, RestartProber;
    if r :| OperatorStep(t, s, s', r) {
      if GetSeeds(t, s, s', r) || SeedsKnown(t, s, s', r) {
        GateHeldBack(t, s, s', r, h);
      } else if PublishDCs(t, s, s', r) || (exists pods :: ListPods(t, s, s', r, pods)) || PublishSeeds(t, s, s', r) || Abort(t, s, s', r) {
        BeforeTheGate(t, s, s', r, h);
      } else if LateStep(t, s, s', r) {
        LateHeldBack(t, s, s', r, h);
      } else {
        PastTheGate(t, s, s', r, h);
      }
    } else {
      QuietHeldBack(t, s, s', h);
    }
  }

  lemma BeforeTheGate(t: Topology, s: State, s': State, r: string, h: string)
    requires PublishDCs(t, s, s', r) || (exists pods :: ListPods(t, s, s', r, pods)) || PublishSeeds(t, s, s', r) || Abort(t, s, s', r)
    requires !HasSeed(t, h) && HeldBack(t, s, h)
    ensures HeldBack(t, s', h)
  {
    hide Observed, HasSeed;
  }

  lemma GateHeldBack(t: Topology, s: State, s': State, r: string, h: string)
    requires Agreed(t) && (GetSeeds(t, s, s', r) || SeedsKnown(t, s, s', r)) && h in t.specs && HeldBack(t, s, h)
    ensures HeldBack(t, s', h)
  {
    hide Agreed;
    if r != h {
      var k := ManagedRegion(t, r, h);
      assert Blocked(t, s.passes[r], r, h);
    }
  }

  lemma ManagedRegion(t: Topology, r: string, h: string) returns (k: nat)
    requires Agreed(t) && r in t.specs && h in t.specs && r != h
    ensures t.specs[r].hostPort && k < |t.specs[r].managed| && t.specs[r].managed[k].host == h
  {
    hide Agreed;
    RegionsAgree(t, r);
    k :| 0 <= k < |t.specs[r].managed| && t.specs[r].managed[k].host == h;
  }

  /** Only the seedless region itself ever gets past the gate. */
  lemma PastTheGate(t: Topology, s: State, s': State, r: string, h: string)
    requires (exists count :: CountDC(t, s, s', r, count)) || DCsCounted(t, s, s', r)
          || (exists answer :: AskRegion(t, s, s', r, answer)) || WriteConfig(t, s, s', r)
    requires HeldBack(t, s, h)
    ensures HeldBack(t, s', h)
  {
    hide Counted, Decided, Paused;
    assert !Blocked(t, s.passes[r], r, h);
  }

  lemma LateHeldBack(t: Topology, s: State, s': State, r: string, h: string)
    requires LateStep(t, s, s', r) && HeldBack(t, s, h)
    ensures HeldBack(t, s', h)
  {
    hide Counted, UnreadyDCs;
    assert !Blocked(t, s.passes[r], r, h);
  }

  lemma QuietHeldBack(t: Topology, s: State, s': State, h: string)
    requires (exists n :: PodStep(t, s, s', n)) || (exists r :: RestartProber(t, s, s', r))
    requires HeldBack(t, s, h)
    ensures HeldBack(t, s', h)
  {
  }
}
