/** Scaling down comes to an end: a measure that no pass raises. */
module ScalingTermination {
  import opened DataCenters
  import opened Scaling
  import opened ScalingRuns

  /******* Sums over maps *******/

  ghost function Sum(m: map<string, nat>): nat {
    if m == map[] then 0
    else
      var k :| k in m;
      m[k] + Sum(m - {k})
  }

  lemma {:induction false} SumWithout(m: map<string, nat>, k: string)
    requires k in m
    ensures Sum(m) == m[k] + Sum(m - {k})
  {
    var first :| first in m && Sum(m) == m[first] + Sum(m - {first});
    if first != k {
      SumWithout(m - {first}, k);
      SumWithout(m - {k}, first);
      assert m - {first} - {k} == m - {k} - {first};
    }
  }

  function At(m: map<string, nat>, k: string): nat {
    if k in m then m[k] else 0
  }

  lemma {:induction false} SumGrows(m: map<string, nat>, more: map<string, nat>)
    requires forall k :: k in m ==> m[k] <= At(more, k)
    ensures Sum(m) <= Sum(more)
  {
    if m != map[] {
      var k :| k in m;
      SumWithout(m, k);
      if k in more {
        SumWithout(more, k);
        SumGrows(m - {k}, more - {k});
      } else {
        SumGrows(m - {k}, more);
      }
    }
  }

  lemma SumGrowsStrictly(m: map<string, nat>, more: map<string, nat>, k: string)
    requires (forall x :: x in m ==> m[x] <= At(more, x)) && k in more && At(m, k) < more[k]
    ensures Sum(m) < Sum(more)
  {
    SumWithout(more, k);
    SumGrows(m - {k}, more - {k});
    if k in m {
      SumWithout(m, k);
    } else {
      assert m - {k} == m;
    }
  }

  lemma {:induction false} SumOfZeros(m: map<string, nat>)
    ensures Sum(m) == 0 <==> forall k :: k in m ==> m[k] == 0
  {
    forall k | k in m ensures m[k] <= Sum(m) {
      SumWithout(m, k);
    }
    if forall k :: k in m ==> m[k] == 0 {
      if m != map[] {
        var k :| k in m;
        SumWithout(m, k);
        SumOfZeros(m - {k});
      }
    }
  }

  /******* The measure *******/

  /** What is left to take away of one statefulset: nodes above the spec, or all nodes of a
      leaving DC, its service and the statefulset itself. */
  function Excess(spec: Spec, services: set<string>, n: string, sts: Sts): nat {
    if Desired(spec, sts.dc) then
      if sts.replicas > DcsMap(spec.dcs)[sts.dc] then sts.replicas - DcsMap(spec.dcs)[sts.dc] else 0
    else sts.replicas + 1 + if n in services then 1 else 0
  }

  function Excesses(spec: Spec, s: State): map<string, nat> {
    map n | n in s.sts :: Excess(spec, s.services, n, s.sts[n])
  }

  ghost function Measure(spec: Spec, s: State): nat {
    Sum(Excesses(spec, s))
  }

  lemma PassKeepsNames(spec: Spec, a: Answers, s: State, s': State)
    requires Named(spec, s) && PassStep(spec, a, s, s')
    ensures Named(spec, s')
  {
    hide HighestPodGone, DCName, DcsMap, KeyspacesMoved, TouchedAreUnused, OneDesiredLowered;
    forall n | n in s'.sts ensures n == DCName(spec.cluster, s'.sts[n].dc) {
      if n in s.sts {
        assert Moved(spec, a, n, s.sts[n], s'.sts[n]);
      }
    }
  }

  lemma ExcessFalls(spec: Spec, a: Answers, s: State, s': State, n: string)
    requires Named(spec, s) && PassStep(spec, a, s, s') && n in s'.sts
    ensures Excess(spec, s'.services, n, s'.sts[n]) <= At(Excesses(spec, s), n)
    ensures Shrinks(spec, s, s', n) ==> Excess(spec, s'.services, n, s'.sts[n]) < At(Excesses(spec, s), n)
  {
    hide HighestPodGone, DCName, DcsMap, KeyspacesMoved, TouchedAreUnused, OneDesiredLowered;
    if n in s.sts {
      assert Moved(spec, a, n, s.sts[n], s'.sts[n]);
      if LeavingSts(spec, s.sts, n) && n in s'.services {
        LeavingServiceNotNew(spec, s, s', n);
      }
    }
  }

  /** No pass raises the measure, and each one that takes something away lowers it. */
  lemma PassNeverRaises(spec: Spec, a: Answers, s: State, s': State)
    requires Named(spec, s) && PassStep(spec, a, s, s')
    ensures Measure(spec, s') <= Measure(spec, s)
    ensures TakesAway(spec, s, s') ==> Measure(spec, s') < Measure(spec, s)
  {
    hide Excess, HighestPodGone, DCName, DcsMap, PassStep;
    var m, more := Excesses(spec, s'), Excesses(spec, s);
    forall n | n in m ensures m[n] <= At(more, n) {
      ExcessFalls(spec, a, s, s', n);
    }
    SumGrows(m, more);
    if TakesAway(spec, s, s') {
      var n :| Shrinks(spec, s, s', n);
      if n in s'.sts {
        ExcessFalls(spec, a, s, s', n);
      } else {
        RemovedHadExcess(spec, a, s, s', n);
      }
      SumGrowsStrictly(m, more, n);
    }
  }

  lemma RemovedHadExcess(spec: Spec, a: Answers, s: State, s': State, n: string)
    requires PassStep(spec, a, s, s') && n in s.sts && n !in s'.sts
    ensures Excess(spec, s.services, n, s.sts[n]) > 0
  {
    hide HighestPodGone, DCName, DcsMap, KeyspacesMoved, TouchedAreUnused, OneDesiredLowered;
  }

  /** Nothing is left to take away exactly when all DCs are wanted and none is too large. */
  lemma MeasureZero(spec: Spec, s: State)
    ensures Measure(spec, s) == 0 <==>
            forall n :: n in s.sts ==> Desired(spec, s.sts[n].dc) && s.sts[n].replicas <= DcsMap(spec.dcs)[s.sts[n].dc]
  {
    SumOfZeros(Excesses(spec, s));
    forall n | n in s.sts
      ensures Excesses(spec, s)[n] == 0 <==> Desired(spec, s.sts[n].dc) && s.sts[n].replicas <= DcsMap(spec.dcs)[s.sts[n].dc]
    {
    }
  }

  /******* Runs with a fixed spec *******/

  ghost predicate FixedSpec(spec: Spec, events: seq<Event>) {
    forall i :: 0 <= i < |events| && events[i].Pass? ==> events[i].spec == spec
  }

  ghost function ShrinkingPasses(spec: Spec, states: seq<State>, j: nat): nat
    requires j < |states|
  {
    if j == 0 then 0
    else ShrinkingPasses(spec, states, j - 1) + if TakesAway(spec, states[j - 1], states[j]) then 1 else 0
  }

  /** However long the run and whatever fails in between, at most so many passes take something away. */
  lemma {:induction false} ScaleDownTerminates(spec: Spec, states: seq<State>, events: seq<Event>, j: nat)
    requires IsRun(states, events) && FixedSpec(spec, events) && j < |states| && Named(spec, states[0])
    ensures Named(spec, states[j]) && Measure(spec, states[j]) + ShrinkingPasses(spec, states, j) <= Measure(spec, states[0])
  {
    hide Measure, TakesAway, Named, PassStep;
    if j > 0 {
      ScaleDownTerminates(spec, states, events, j - 1);
      assert Step(events[j - 1], states[j - 1], states[j]);
      match events[j - 1] {
        case Pass(_, a) =>
          PassNeverRaises(spec, a, states[j - 1], states[j]);
          PassKeepsNames(spec, a, states[j - 1], states[j]);
        case _ =>
          KeyspacesKeepMeasure(spec, states[j - 1], states[j]);
      }
    }
  }

  lemma KeyspacesKeepMeasure(spec: Spec, s: State, s': State)
    requires s' == s.(keyspaces := s'.keyspaces)
    ensures Measure(spec, s') == Measure(spec, s) && (Named(spec, s) ==> Named(spec, s'))
    ensures !TakesAway(spec, s, s')
  {
  }
}
