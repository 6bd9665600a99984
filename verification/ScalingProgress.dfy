/** Scaling down gets somewhere: when requests succeed, and a node leaves once its decommission was
    started, passes of the code take away all there is to take away. */
module ScalingProgress {
  import opened DataCenters
  import opened Option
  import opened Scaling
  import opened ScalingReconciler
  import opened ScalingRuns
  import opened ScalingTermination
  import opened Text

  /******* Answers as they should be *******/

  function PodsOf(n: string, dc: string, replicas: nat): seq<Peer> {
    if replicas == 0 then [] else PodsOf(n, dc, replicas - 1) + [Peer(PodName(n, replicas - 1), dc)]
  }

  lemma {:induction false} PodsOfMembers(n: string, dc: string, replicas: nat, p: Peer)
    ensures p in PodsOf(n, dc, replicas) <==> exists k: nat :: k < replicas && p == Peer(PodName(n, k), dc)
  {
    if replicas > 0 {
      PodsOfMembers(n, dc, replicas - 1, p);
    }
  }

  lemma {:induction false} PodsOfDistinct(n: string, dc: string, replicas: nat)
    ensures DistinctPeers(PodsOf(n, dc, replicas))
  {
    hide PodName;
    if replicas > 0 {
      PodsOfDistinct(n, dc, replicas - 1);
      var front := PodsOf(n, dc, replicas - 1);
      forall i | 0 <= i < |front| ensures front[i].name != PodName(n, replicas - 1) {
        PodsOfMembers(n, dc, replicas - 1, front[i]);
        var k: nat :| k < replicas - 1 && front[i] == Peer(PodName(n, k), dc);
        if PodName(n, k) == PodName(n, replicas - 1) {
          PodNameInjective(n, k, n, replicas - 1);
        }
      }
    }
  }

  ghost predicate IsPodOf(sts: map<string, Sts>, names: set<string>, p: Peer) {
    exists n, k: nat :: n in names && n in sts && k < sts[n].replicas && p == Peer(PodName(n, k), sts[n].dc)
  }

  ghost predicate IsPod(sts: map<string, Sts>, p: Peer) {
    IsPodOf(sts, sts.Keys, p)
  }

  /** The node has gone: without a mode it does not answer. */
  predicate HasGone(pod: string, mode: Option<Mode>, name: string) {
    name == pod && mode.None?
  }

  /** All pods of the statefulsets are listed. All nodes answer, in normal mode and seeing each other, but
      that of `pod`, which answers with its mode, or has gone. */
  ghost predicate Honest(a: Answers, sts: map<string, Sts>, pod: string, mode: Option<Mode>) {
    && DistinctPeers(a.pods)
    && (forall p :: p in a.pods <==> IsPod(sts, p))
    && (forall p :: p in a.pods ==>
          if HasGone(pod, mode, p.name) then p.name !in a.modes
          else p.name in a.modes && p.name in a.views && a.modes[p.name] == (if p.name == pod then mode.value else Normal)
               && forall q :: q in a.pods ==> (q.name in a.views[p.name] <==> !HasGone(pod, mode, q.name)))
  }

  /** The answers are honest, and only a node has gone whose decommission was started after `first`. */
  ghost predicate HonestPass(e: Event, s: State, first: seq<string>, started: seq<string>) {
    e.Pass? && exists pod, mode: Option<Mode> ::
      Honest(e.answers, s.sts, pod, mode) && (mode.None? ==> StartedOn(first, started, pod))
  }

  /** The pods of statefulsets of different names have different names. */
  lemma MorePods(sts: map<string, Sts>, pods: seq<Peer>, rest: set<string>, n: string)
    requires DistinctPeers(pods) && n in rest && rest <= sts.Keys
    requires forall p :: p in pods <==> IsPodOf(sts, sts.Keys - rest, p)
    ensures var more := pods + PodsOf(n, sts[n].dc, sts[n].replicas);
            && DistinctPeers(more)
            && forall p :: p in more <==> IsPodOf(sts, sts.Keys - (rest - {n}), p)
  {
    hide PodName, PodsOf;
    var own := PodsOf(n, sts[n].dc, sts[n].replicas);
    PodsOfDistinct(n, sts[n].dc, sts[n].replicas);
    forall p ensures p in own <==> exists k: nat :: k < sts[n].replicas && p == Peer(PodName(n, k), sts[n].dc) {
      PodsOfMembers(n, sts[n].dc, sts[n].replicas, p);
    }
    forall p, q | p in pods && q in own ensures p.name != q.name {
      var m, k: nat :| m in sts.Keys - rest && k < sts[m].replicas && p == Peer(PodName(m, k), sts[m].dc);
      var l: nat :| l < sts[n].replicas && q == Peer(PodName(n, l), sts[n].dc);
      if p.name == q.name {
        PodNameInjective(m, k, n, l);
      }
    }
    forall i, j | 0 <= i < |pods| && 0 <= j < |own| ensures pods[i].name != own[j].name {
      assert pods[i] in pods && own[j] in own;
    }
  }

  method HonestAnswers(sts: map<string, Sts>, pod: string, mode: Option<Mode>) returns (a: Answers)
    ensures Honest(a, sts, pod, mode)
  {
    hide PodName, PodsOf, DistinctPeers;
    var pods: seq<Peer> := [];
    var rest := sts.Keys;
    assert DistinctPeers(pods) by {
      NoPeers();
    }
    while rest != {}
      invariant rest <= sts.Keys && DistinctPeers(pods)
      invariant forall p :: p in pods <==> IsPodOf(sts, sts.Keys - rest, p)
      decreases |rest|
    {
      var n :| n in rest;
      MorePods(sts, pods, rest, n);
      pods := pods + PodsOf(n, sts[n].dc, sts[n].replicas);
      rest := rest - {n};
    }
    a := AnswersOf(pods, pod, mode);
    AnswersAreHonest(pods, sts, pod, mode);
  }

  function AnswersOf(pods: seq<Peer>, pod: string, mode: Option<Mode>): Answers {
    var up := set p | p in pods && !HasGone(pod, mode, p.name) :: p.name;
    Answers(pods, map x | x in up :: if x == pod then mode.value else Normal, map x | x in up :: up)
  }

  lemma AnswersAreHonest(pods: seq<Peer>, sts: map<string, Sts>, pod: string, mode: Option<Mode>)
    requires DistinctPeers(pods) && forall p :: p in pods <==> IsPodOf(sts, sts.Keys, p)
    ensures Honest(AnswersOf(pods, pod, mode), sts, pod, mode)
  {
    hide IsPodOf, DistinctPeers;
  }

  lemma NoPeers()
    ensures DistinctPeers([])
  {
  }

  /******* Whose turn it is *******/

  method Least(names: set<string>) returns (n: string)
    requires names != {}
    ensures n in names && forall m :: m in names ==> LexLe(n, m)
  {
    hide LexLe;
    n :| n in names;
    LexLeReflexive(n);
    var rest := names - {n};
    while rest != {}
      invariant n in names && rest <= names && forall m :: m in names && m !in rest ==> LexLe(n, m)
      decreases |rest|
    {
      var m :| m in rest;
      rest := rest - {m};
      LexLeTotal(n, m);
      if !LexLe(n, m) {
        SmallerStillLeast(m, n, names, rest);
        LexLeReflexive(m);
        n := m;
      }
    }
  }

  lemma SmallerStillLeast(m: string, n: string, names: set<string>, rest: set<string>)
    requires LexLe(m, n) && forall x :: x in names && x !in rest + {m} ==> LexLe(n, x)
    ensures forall x :: x in names && x !in rest + {m} ==> LexLe(m, x)
  {
    hide LexLe;
    forall x | x in names && x !in rest + {m} ensures LexLe(m, x) {
      LexLeTransitive(m, n, x);
    }
  }

  method NextTurn(spec: Spec, sts: map<string, Sts>) returns (n: string)
    requires SomethingToTake(spec, sts)
    ensures InTurn(spec, sts, n)
  {
    hide DcsMap, LexLe;
    var large := set m | m in sts && TooLarge(spec, sts, m);
    var leaving := set m | m in sts && LeavingSts(spec, sts, m);
    assert forall m :: TooLarge(spec, sts, m) ==> m in large;
    assert forall m :: LeavingSts(spec, sts, m) ==> m in leaving;
    n := Least(if large != {} then large else leaving);
  }

  lemma HonestTurnGone(spec: Spec, a: Answers, sts: map<string, Sts>, n: string)
    requires InTurn(spec, sts, n)
    requires if sts[n].replicas > 0 then Honest(a, sts, LastPod(sts, n), None) else Honest(a, sts, "", Some(Normal))
    ensures TurnGone(spec, a, sts)
  {
    hide DcsMap, LexLe, InTurn, PodName;
    InTurnExists(spec, sts, n);
    var gone := LastPod(sts, n);
    if sts[n].replicas > 0 {
      var p := Peer(gone, sts[n].dc);
      assert IsPod(sts, p);
      var i :| 0 <= i < |a.pods| && a.pods[i] == p;
      assert LiveViews(spec, a, a.pods, gone) == {};
      assert HighestPodGone(spec, a, n, sts[n].replicas - 1);
    }
    forall m | InTurn(spec, sts, m) ensures m == n {
      OnlyOneInTurn(spec, sts, m, n);
    }
  }

  lemma HonestTurnAnswers(a: Answers, sts: map<string, Sts>, n: string)
    requires n in sts && sts[n].replicas > 0 && Honest(a, sts, LastPod(sts, n), Some(Normal))
    ensures LastPodAnswers(a, sts, n)
  {
    hide PodName;
    var p := Peer(LastPod(sts, n), sts[n].dc);
    assert IsPod(sts, p);
    var i :| 0 <= i < |a.pods| && a.pods[i] == p;
  }

  lemma InTurnExists(spec: Spec, sts: map<string, Sts>, n: string)
    requires InTurn(spec, sts, n)
    ensures n in sts && ((exists m :: TooLarge(spec, sts, m)) ==> sts[n].replicas > 0)
  {
  }

  /******* To the end *******/

  lemma UnusedStays(spec: Spec, a: Answers, s: State, s': State)
    requires PassStep(spec, a, s, s') && LeavingDCsUnused(spec, s.sts, s.keyspaces)
    ensures LeavingDCsUnused(spec, s'.sts, s'.keyspaces)
  {
    hide HighestPodGone, DcsMap, DCName, OneDesiredLowered, TouchedAreUnused, Wanted;
    forall n | LeavingSts(spec, s'.sts, n) ensures LeavingSts(spec, s.sts, n) && s'.sts[n].dc == s.sts[n].dc {
      assert n in s.sts ==> Moved(spec, a, n, s.sts[n], s'.sts[n]);
    }
  }

  lemma NothingLeft(spec: Spec, s: State)
    requires !SomethingToTake(spec, s.sts)
    ensures Measure(spec, s) == 0
  {
    hide DcsMap;
    forall n | n in s.sts ensures Desired(spec, s.sts[n].dc) && s.sts[n].replicas <= DcsMap(spec.dcs)[s.sts[n].dc] {
      assert !TooLarge(spec, s.sts, n) && !LeavingSts(spec, s.sts, n);
    }
    MeasureZero(spec, s);
  }

  /** While its last node answers, a statefulset stays as it is and in turn. */
  lemma TurnStays(spec: Spec, a: Answers, s: State, s': State, n: string)
    requires PassStep(spec, a, s, s') && InTurn(spec, s.sts, n) && s.sts[n].replicas > 0 && LastPod(s.sts, n) in a.modes
    ensures n in s'.sts && s'.sts[n] == s.sts[n] && InTurn(spec, s'.sts, n)
  {
    hide DcsMap, LexLe, PodName, DCName, KeyspacesMoved, TouchedAreUnused, OneDesiredLowered, Gone;
    assert n in s'.sts && Moved(spec, a, n, s.sts[n], s'.sts[n]);
    forall m | TooLarge(spec, s'.sts, m) ensures TooLarge(spec, s.sts, m) {
      assert m in s.sts ==> Moved(spec, a, m, s.sts[m], s'.sts[m]);
    }
    forall m | LeavingSts(spec, s'.sts, m) ensures LeavingSts(spec, s.sts, m) {
      assert m in s.sts ==> Moved(spec, a, m, s.sts[m], s'.sts[m]);
    }
  }

  /** The passes so far: the states between them, and the decommissions started by then. */
  datatype History = History(states: seq<State>, events: seq<Event>, started: seq<seq<string>>)

  ghost predicate Recorded(spec: Spec, h: History, s: State, started: seq<string>) {
    && IsRun(h.states, h.events) && FixedSpec(spec, h.events) && |h.started| == |h.states|
    && h.states[|h.events|] == s && h.started[|h.events|] == started && h.started[0] <= started
    && forall i :: 0 <= i < |h.events| ==> HonestPass(h.events[i], h.states[i], h.started[0], h.started[i])
  }

  function Recording(h: History, e: Event, s: State, started: seq<string>): History {
    History(h.states + [s], h.events + [e], h.started + [started])
  }

  lemma RecordPass(spec: Spec, h: History, e: Event, before: State, startedBefore: seq<string>, s: State, started: seq<string>)
    requires Recorded(spec, h, before, startedBefore) && e.Pass? && e.spec == spec && Step(e, before, s)
    requires HonestPass(e, before, h.started[0], startedBefore) && startedBefore <= started
    ensures Recorded(spec, Recording(h, e, s, started), s, started)
  {
    hide Step, HonestPass;
    var more := Recording(h, e, s, started);
    forall i | 0 <= i < |more.events| ensures HonestPass(more.events[i], more.states[i], more.started[0], more.started[i]) {
    }
    forall i | 0 <= i < |more.events| ensures Step(more.events[i], more.states[i], more.states[i + 1]) {
    }
  }

  /** One pass with honest answers. */
  method RunPass(r: Region, spec: Spec, pod: string, mode: Option<Mode>, ghost h: History)
    returns (ghost a: Answers, ghost more: History)
    requires r.reliable && DistinctDCs(spec.dcs) && Named(spec, r.Now()) && LeavingDCsUnused(spec, r.sts, r.keyspaces)
    requires Recorded(spec, h, r.Now(), r.decommissions)
    requires mode.None? ==> |h.started| > 0 && StartedOn(h.started[0], r.decommissions, pod)
    modifies r
    ensures Named(spec, r.Now()) && LeavingDCsUnused(spec, r.sts, r.keyspaces)
    ensures Recorded(spec, more, r.Now(), r.decommissions) && |more.events| == |h.events| + 1
    ensures |h.started| > 0 && |h.states| > 0 && |more.started| > 0 && |more.states| > 0 && old(r.decommissions) <= r.decommissions
    ensures more.started[0] == h.started[0] && more.states[0] == h.states[0]
    ensures Honest(a, old(r.sts), pod, mode) && PassStep(spec, a, old(r.Now()), r.Now())
    ensures TurnServed(spec, a, old(r.sts), old(r.decommissions), r.decommissions)
    ensures Measure(spec, r.Now()) <= Measure(spec, old(r.Now()))
    ensures SomethingToTake(spec, old(r.sts)) && TurnGone(spec, a, old(r.sts)) ==> Measure(spec, r.Now()) < Measure(spec, old(r.Now()))
  {
    hide PassStep, LeavingDCsUnused, Named, Honest, TurnGone, Measure, NewlyStarted, TakesAway, Recorded, TurnServed, StartedOn,
      SomethingToTake;
    ghost var before, startedBefore := r.Now(), r.decommissions;
    RecordedStart(spec, h, before, startedBefore);
    var answers := HonestAnswers(r.sts, pod, mode);
    a := answers;
    HonestPods(answers, r.sts, pod, mode);
    var ready: bool := *;
    var settled := r.Reconcile(spec, answers, ready);
    AnyPass(spec, answers, before, r.Now());
    StartedGrows(spec, answers, before.sts, startedBefore, r.decommissions);
    assert HonestPass(Pass(spec, answers), before, h.started[0], startedBefore);
    RecordPass(spec, h, Pass(spec, answers), before, startedBefore, r.Now(), r.decommissions);
    more := Recording(h, Pass(spec, answers), r.Now(), r.decommissions);
  }

  lemma RecordedStart(spec: Spec, h: History, s: State, started: seq<string>)
    requires Recorded(spec, h, s, started)
    ensures |h.started| > 0 && |h.states| > 0 && h.started[0] <= started
  {
  }

  lemma StartedGrows(spec: Spec, a: Answers, sts: map<string, Sts>, before: seq<string>, after: seq<string>)
    requires NewlyStarted(spec, a, sts, before, after)
    ensures before <= after
  {
  }

  lemma TurnBegins(spec: Spec, a: Answers, s: State, s': State, n: string, first: seq<string>, before: seq<string>, after: seq<string>)
    requires PassStep(spec, a, s, s') && InTurn(spec, s.sts, n) && n in s.sts && s.sts[n].replicas > 0
    requires Honest(a, s.sts, LastPod(s.sts, n), Some(Normal)) && TurnServed(spec, a, s.sts, before, after) && first <= before
    ensures n in s'.sts && s'.sts[n] == s.sts[n] && InTurn(spec, s'.sts, n) && LastPod(s'.sts, n) == LastPod(s.sts, n)
    ensures StartedOn(first, after, LastPod(s.sts, n))
  {
    hide PassStep, InTurn, Honest, LastPod;
    HonestTurnAnswers(a, s.sts, n);
    TurnStays(spec, a, s, s', n);
    SameLastPod(a, s.sts, s'.sts, n);
    assert after[|before|..] == after[|first|..][|before| - |first|..];
  }

  lemma TurnGoesOn(spec: Spec, a: Answers, s: State, s': State, n: string)
    requires PassStep(spec, a, s, s') && InTurn(spec, s.sts, n) && n in s.sts && s.sts[n].replicas > 0
    requires Honest(a, s.sts, LastPod(s.sts, n), Some(Leaving))
    ensures n in s'.sts && s'.sts[n] == s.sts[n] && InTurn(spec, s'.sts, n) && LastPod(s'.sts, n) == LastPod(s.sts, n)
  {
    hide PassStep, InTurn, PodName;
    var p := Peer(LastPod(s.sts, n), s.sts[n].dc);
    assert IsPod(s.sts, p) && p in a.pods;
    TurnStays(spec, a, s, s', n);
    SameLastPod(a, s.sts, s'.sts, n);
  }

  lemma InTurnTakes(spec: Spec, sts: map<string, Sts>, n: string)
    requires InTurn(spec, sts, n)
    ensures SomethingToTake(spec, sts)
  {
    hide LexLe, DcsMap;
  }

  /** The turn of a statefulset with nodes: a decommission of its last node is started, the node may be
      leaving for some passes, and then it has gone. */
  method ServeTurn(r: Region, spec: Spec, n: string, patience: nat, ghost h: History) returns (ghost more: History)
    requires r.reliable && DistinctDCs(spec.dcs) && Named(spec, r.Now()) && LeavingDCsUnused(spec, r.sts, r.keyspaces)
    requires Recorded(spec, h, r.Now(), r.decommissions) && InTurn(spec, r.sts, n) && n in r.sts && r.sts[n].replicas > 0
    modifies r
    ensures Named(spec, r.Now()) && LeavingDCsUnused(spec, r.sts, r.keyspaces)
    ensures Recorded(spec, more, r.Now(), r.decommissions) && |more.events| <= |h.events| + patience + 2
    ensures |h.started| > 0 && |h.states| > 0 && |more.started| > 0 && |more.states| > 0
    ensures more.started[0] == h.started[0] && more.states[0] == h.states[0]
    ensures Measure(spec, r.Now()) < Measure(spec, old(r.Now()))
  {
    hide PassStep, LeavingDCsUnused, Named, Honest, TurnGone, Measure, TurnServed, StartedOn, SomethingToTake, InTurn, LastPodAnswers,
      Recorded, LastPod;
    var pod := LastPod(r.sts, n);
    RecordedStart(spec, h, r.Now(), r.decommissions);
    ghost var a;
    ghost var before, startedBefore := r.Now(), r.decommissions;
    a, more := RunPass(r, spec, pod, Some(Normal), h);
    TurnBegins(spec, a, before, r.Now(), n, h.started[0], startedBefore, r.decommissions);
    var waiting: int := *;
    for k := 0 to if 0 <= waiting <= patience then waiting else patience
      invariant Named(spec, r.Now()) && LeavingDCsUnused(spec, r.sts, r.keyspaces)
      invariant Recorded(spec, more, r.Now(), r.decommissions) && |more.events| == |h.events| + 1 + k
      invariant |h.started| > 0 && |h.states| > 0 && |more.started| > 0 && |more.states| > 0
      invariant more.started[0] == h.started[0] && more.states[0] == h.states[0]
      invariant InTurn(spec, r.sts, n) && n in r.sts && r.sts[n].replicas > 0 && LastPod(r.sts, n) == pod
      invariant StartedOn(h.started[0], r.decommissions, pod) && Measure(spec, r.Now()) <= Measure(spec, old(r.Now()))
    {
      before, startedBefore := r.Now(), r.decommissions;
      a, more := RunPass(r, spec, pod, Some(Leaving), more);
      TurnGoesOn(spec, a, before, r.Now(), n);
      StartedStays(h.started[0], startedBefore, r.decommissions, pod);
    }
    before := r.Now();
    a, more := RunPass(r, spec, pod, None, more);
    HonestTurnGone(spec, a, before.sts, n);
    InTurnTakes(spec, before.sts, n);
  }

  /** From every state whose leaving DCs no foreign keyspace uses, passes with a fixed spec shrink the
      region to its spec, if requests succeed and a node leaves, after `patience` passes at most, once
      its decommission was started. */
  method ScaleDown(r: Region, spec: Spec, patience: nat) returns (ghost h: History)
    requires r.reliable && DistinctDCs(spec.dcs) && Named(spec, r.Now()) && LeavingDCsUnused(spec, r.sts, r.keyspaces)
    modifies r
    ensures Recorded(spec, h, r.Now(), r.decommissions) && |h.states| > 0 && h.states[0] == old(r.Now())
    ensures |h.started| > 0 && h.started[0] == old(r.decommissions)
    ensures |h.events| <= (patience + 2) * Measure(spec, old(r.Now())) && Measure(spec, r.Now()) == 0
  {
    hide LeavingDCsUnused, Named, Honest, TooLarge, LeavingSts, InTurn, TurnGone, Measure, Recorded, PassStep, TurnServed;
    h := History([r.Now()], [], [r.decommissions]);
    NothingRecorded(spec, h, r.Now(), r.decommissions);
    while exists n :: n in r.sts && (TooLarge(spec, r.sts, n) || LeavingSts(spec, r.sts, n))
      invariant Named(spec, r.Now()) && LeavingDCsUnused(spec, r.sts, r.keyspaces)
      invariant Recorded(spec, h, r.Now(), r.decommissions) && |h.states| > 0 && h.states[0] == old(r.Now())
      invariant |h.started| > 0 && h.started[0] == old(r.decommissions)
      invariant Measure(spec, r.Now()) <= Measure(spec, old(r.Now()))
      invariant |h.events| <= (patience + 2) * (Measure(spec, old(r.Now())) - Measure(spec, r.Now()))
      decreases Measure(spec, r.Now())
    {
      ghost var before, passes := r.Now(), |h.events|;
      var n := NextTurn(spec, r.sts);
      InTurnExists(spec, r.sts, n);
      if r.sts[n].replicas > 0 {
        h := ServeTurn(r, spec, n, patience, h);
      } else {
        ghost var a;
        a, h := RunPass(r, spec, "", Some(Normal), h);
        HonestTurnGone(spec, a, before.sts, n);
      }
      ghost var total := Measure(spec, old(r.Now()));
      Times(patience + 2, total - Measure(spec, before), total - Measure(spec, r.Now()));
    }
    SomethingIsThere(spec, r.sts);
    NothingLeft(spec, r.Now());
  }

  lemma {:induction false} Times(c: nat, x: nat, y: nat)
    requires x < y
    ensures c * x + c <= c * y
  {
    assert c * y == c * (y - 1) + c;
    if x + 1 < y {
      Times(c, x, y - 1);
    }
  }

  lemma NothingRecorded(spec: Spec, h: History, s: State, started: seq<string>)
    requires h == History([s], [], [started])
    ensures Recorded(spec, h, s, started)
  {
  }

  lemma SomethingIsThere(spec: Spec, sts: map<string, Sts>)
    ensures SomethingToTake(spec, sts) ==> exists n :: n in sts && (TooLarge(spec, sts, n) || LeavingSts(spec, sts, n))
  {
  }

  lemma HonestPods(a: Answers, sts: map<string, Sts>, pod: string, mode: Option<Mode>)
    requires Honest(a, sts, pod, mode)
    ensures DistinctPeers(a.pods)
  {
  }

  lemma AnyPass(spec: Spec, a: Answers, s: State, s': State)
    requires Named(spec, s) && PassStep(spec, a, s, s') && LeavingDCsUnused(spec, s.sts, s.keyspaces)
    ensures Named(spec, s') && LeavingDCsUnused(spec, s'.sts, s'.keyspaces)
    ensures Measure(spec, s') <= Measure(spec, s) && (TakesAway(spec, s, s') ==> Measure(spec, s') < Measure(spec, s))
  {
    hide PassStep, LeavingDCsUnused, Named, TakesAway, Measure;
    PassNeverRaises(spec, a, s, s');
    PassKeepsNames(spec, a, s, s');
    UnusedStays(spec, a, s, s');
  }
}
