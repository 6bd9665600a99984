/** Runs of scaling passes: the spec, the answers of the nodes and the users' keyspaces
    may all change between passes. */
module ScalingRuns {
  import opened DataCenters
  import opened Keyspaces
  import opened Scaling

  datatype Event = Pass(spec: Spec, answers: Answers) | PeerPass(peer: Spec) | UsersAlterKeyspaces

  ghost predicate Step(e: Event, s: State, s': State) {
    match e
    case Pass(spec, a) => PassStep(spec, a, s, s')
    case PeerPass(peer) => s' == s.(keyspaces := s'.keyspaces) && KeyspacesMoved(peer, s.keyspaces, s'.keyspaces)
    case UsersAlterKeyspaces => s' == s.(keyspaces := s'.keyspaces) && AuthKept(s.keyspaces, s'.keyspaces)
  }

  ghost predicate IsRun(states: seq<State>, events: seq<Event>) {
    |states| == |events| + 1 && forall i :: 0 <= i < |events| ==> Step(events[i], states[i], states[i + 1])
  }

  /******* Safe shrink *******/

  function Replicas(s: State, n: string): nat {
    if n in s.sts then s.sts[n].replicas else 0
  }

  /** One step takes away at most the last node, and only one that is gone and not wanted. */
  lemma ShrinksByOne(e: Event, s: State, s': State, n: string)
    requires Step(e, s, s') && Replicas(s', n) < Replicas(s, n)
    ensures e.Pass? && Replicas(s', n) == Replicas(s, n) - 1 && HighestPodGone(e.spec, e.answers, n, Replicas(s', n))
    ensures Desired(e.spec, s.sts[n].dc) ==> DcsMap(e.spec.dcs)[s.sts[n].dc] <= Replicas(s', n)
  {
    hide HighestPodGone, KeyspacesMoved, TouchedAreUnused, DcsMap, OneDesiredLowered;
    assert n in s.sts;
    if n in s'.sts {
      assert Moved(e.spec, e.answers, n, s.sts[n], s'.sts[n]);
    }
  }

  /** Every node a run has lost was the last of its statefulset in some pass, did not
      answer, and was confirmed gone by its peers. */
  lemma {:induction false} EveryLostNodeWasGone(states: seq<State>, events: seq<Event>, i: nat, j: nat, n: string, ordinal: nat)
    returns (k: nat)
    requires IsRun(states, events) && i <= j < |states|
    requires Replicas(states[j], n) <= ordinal < Replicas(states[i], n)
    ensures i <= k < j && events[k].Pass? && HighestPodGone(events[k].spec, events[k].answers, n, ordinal)
    ensures Replicas(states[k], n) == ordinal + 1 && Replicas(states[k + 1], n) == ordinal
    decreases j
  {
    hide HighestPodGone, Step;
    if Replicas(states[j - 1], n) <= ordinal {
      k := EveryLostNodeWasGone(states, events, i, j - 1, n, ordinal);
    } else {
      k := j - 1;
      ShrinksByOne(events[k], states[k], states[j], n);
    }
  }

  lemma {:induction false} AtMostOneAPass(states: seq<State>, events: seq<Event>, i: nat, j: nat, n: string)
    requires IsRun(states, events) && i <= j < |states|
    ensures Replicas(states[j], n) + (j - i) >= Replicas(states[i], n)
    decreases j
  {
    hide HighestPodGone, Step;
    if i < j {
      AtMostOneAPass(states, events, i, j - 1, n);
      if Replicas(states[j], n) < Replicas(states[j - 1], n) {
        ShrinksByOne(events[j - 1], states[j - 1], states[j], n);
      }
    }
  }

  /** The specs of all passes from `i` to `j` want at least `floor` nodes in the DC of `n`. */
  ghost predicate WantedAtLeast(states: seq<State>, events: seq<Event>, i: nat, j: nat, n: string, floor: nat)
    requires i <= j <= |events| < |states|
  {
    forall k :: i <= k < j && events[k].Pass? && n in states[k].sts ==>
      Desired(events[k].spec, states[k].sts[n].dc) && floor <= DcsMap(events[k].spec.dcs)[states[k].sts[n].dc]
  }

  lemma {:induction false} NeverBelowSpec(states: seq<State>, events: seq<Event>, i: nat, j: nat, n: string, floor: nat)
    requires IsRun(states, events) && i <= j < |states| && floor <= Replicas(states[i], n)
    requires WantedAtLeast(states, events, i, j, n, floor)
    ensures floor <= Replicas(states[j], n)
    decreases j
  {
    hide HighestPodGone, Step;
    if i < j {
      NeverBelowSpec(states, events, i, j - 1, n, floor);
      if Replicas(states[j], n) < Replicas(states[j - 1], n) {
        ShrinksByOne(events[j - 1], states[j - 1], states[j], n);
      }
    }
  }

  /******* system_auth outlives leaving nodes *******/

  predicate InAuth(s: State, dc: string) {
    SYSTEM_AUTH in s.keyspaces && dc in s.keyspaces[SYSTEM_AUTH]
  }

  predicate HasNodes(s: State, n: string, dc: string) {
    n in s.sts && s.sts[n].dc == dc
  }

  /** Which specs keep a local DC in `system_auth`: those that do not override it, and
      those whose override names the DC. */
  lemma WantedCoversLocalDC(spec: Spec, dc: string)
    requires Desired(spec, dc) && dc != CLASS
    ensures dc in Wanted(spec, SYSTEM_AUTH) <==>
            !Overridden(spec.settings, SYSTEM_AUTH) || exists i :: 0 <= i < |spec.settings.dcs| && spec.settings.dcs[i].name == dc
  {
    if !Overridden(spec.settings, SYSTEM_AUTH) {
      DesiredOptionsCover(spec.settings, SYSTEM_AUTH, Sites(spec), dc);
      var i :| 0 <= i < |spec.dcs| && spec.dcs[i].name == dc;
      assert Sites(spec)[i].name == dc;
    } else {
      FromOverridesKeys(spec.settings.dcs, dc);
    }
  }

  lemma AuthStep(e: Event, s: State, s': State, n: string, dc: string)
    requires Step(e, s, s') && InAuth(s, dc) && HasNodes(s, n, dc) && dc != CLASS
    requires e.Pass? ==> !Overridden(e.spec.settings, SYSTEM_AUTH)
    requires e.PeerPass? ==> dc in Wanted(e.peer, SYSTEM_AUTH)
    ensures InAuth(s', dc)
  {
    hide AllMoved, TouchedAreUnused, DcsMap, OneDesiredLowered, NewAreWanted, NewServicesWanted, Overridden, Wanted;
    if e.Pass? && s'.keyspaces[SYSTEM_AUTH] != s.keyspaces[SYSTEM_AUTH] {
      assert !LeavingSts(e.spec, s.sts, n);
      WantedCoversLocalDC(e.spec, dc);
    }
  }

  /** While a DC of the region has its statefulset it keeps its place in `system_auth`,
      through every change of the spec, unless a spec overrides `system_auth` or another region does
      not want the DC there. */
  lemma {:induction false} SystemAuthOutlivesNodes(states: seq<State>, events: seq<Event>, i: nat, j: nat, n: string, dc: string)
    requires IsRun(states, events) && i <= j < |states| && dc != CLASS
    requires InAuth(states[i], dc) && forall k :: i <= k < j ==> HasNodes(states[k], n, dc)
    requires forall k :: i <= k < j && events[k].Pass? ==> !Overridden(events[k].spec.settings, SYSTEM_AUTH)
    requires forall k :: i <= k < j && events[k].PeerPass? ==> dc in Wanted(events[k].peer, SYSTEM_AUTH)
    ensures InAuth(states[j], dc)
    decreases j
  {
    hide Step, InAuth, HasNodes, Overridden, Wanted;
    if i < j {
      SystemAuthOutlivesNodes(states, events, i, j - 1, n, dc);
      AuthStep(events[j - 1], states[j - 1], states[j], n, dc);
    }
  }

  /** Another region learns the DCs of this one from its spec, not from its statefulsets, so none of the
      DCs it is told of by any region is one that is leaving here. What it wants for `system_auth` then
      contains that DC only if it has a DC of this name itself. */
  lemma PeersForgetLeavingDCs(spec: Spec, peer: Spec, s: State, n: string)
    requires LeavingSts(spec, s.sts, n) && s.sts[n].dc != CLASS
    requires !Overridden(peer.settings, SYSTEM_AUTH)
    requires forall x :: x in peer.others ==> x.name != s.sts[n].dc
    ensures s.sts[n].dc in Wanted(peer, SYSTEM_AUTH) <==> Desired(peer, s.sts[n].dc)
  {
    var dc := s.sts[n].dc;
    DesiredOptionsCover(peer.settings, SYSTEM_AUTH, Sites(peer), dc);
    if Desired(peer, dc) {
      var i :| 0 <= i < |peer.dcs| && peer.dcs[i].name == dc;
      assert Sites(peer)[i].name == dc;
    }
    forall i | 0 <= i < |Sites(peer)| ensures Sites(peer)[i].name == dc ==> Desired(peer, dc) {
      if i >= |peer.dcs| {
        assert Sites(peer)[i] == peer.others[i - |peer.dcs|] && Sites(peer)[i] in peer.others;
      }
    }
  }

  /** Runs in which the other regions have specs among `peers`, the DC keeps its statefulset and no spec
      of this region overrides `system_auth`. */
  ghost predicate RunWithPeers(states: seq<State>, events: seq<Event>, peers: set<Spec>, n: string, dc: string) {
    && IsRun(states, events)
    && (forall k :: 0 <= k < |states| ==> HasNodes(states[k], n, dc))
    && (forall k :: 0 <= k < |events| && events[k].Pass? ==> !Overridden(events[k].spec.settings, SYSTEM_AUTH))
    && (forall k :: 0 <= k < |events| && events[k].PeerPass? ==> events[k].peer in peers)
  }

  ghost predicate StaysInAuth(s: State, peers: set<Spec>, n: string, dc: string) {
    forall states, events, k :: RunWithPeers(states, events, peers, n, dc) && states[0] == s && 0 <= k < |states| ==> InAuth(states[k], dc)
  }

  /** A DC with nodes keeps its place through all runs exactly when all other regions want it there. */
  lemma StaysExactlyWhenPeersWant(s: State, peers: set<Spec>, n: string, dc: string)
    requires InAuth(s, dc) && HasNodes(s, n, dc) && dc != CLASS
    ensures StaysInAuth(s, peers, n, dc) <==> forall peer :: peer in peers ==> dc in Wanted(peer, SYSTEM_AUTH)
  {
    hide Step, InAuth, HasNodes, Overridden, Wanted;
    if forall peer :: peer in peers ==> dc in Wanted(peer, SYSTEM_AUTH) {
      forall states, events, k | RunWithPeers(states, events, peers, n, dc) && states[0] == s && 0 <= k < |states|
        ensures InAuth(states[k], dc)
      {
        SystemAuthOutlivesNodes(states, events, 0, k, n, dc);
      }
    } else {
      var peer :| peer in peers && dc !in Wanted(peer, SYSTEM_AUTH);
      var s' := PeerDropsDC(s, peer, dc);
      SameSts(s, s', n, dc);
      var states, events := [s, s'], [PeerPass(peer)];
      assert IsRun(states, events);
      assert RunWithPeers(states, events, peers, n, dc) && !InAuth(states[1], dc);
    }
  }

  lemma SameSts(s: State, s': State, n: string, dc: string)
    requires s'.sts == s.sts
    ensures HasNodes(s', n, dc) == HasNodes(s, n, dc)
  {
  }

  /** One pass of a region that does not want the DC takes it out, whatever nodes it still has. */
  lemma PeerDropsDC(s: State, peer: Spec, dc: string) returns (s': State)
    requires InAuth(s, dc) && dc !in Wanted(peer, SYSTEM_AUTH)
    ensures Step(PeerPass(peer), s, s') && !InAuth(s', dc) && s'.sts == s.sts
  {
    hide Wanted;
    s' := s.(keyspaces := s.keyspaces[SYSTEM_AUTH := Wanted(peer, SYSTEM_AUTH)]);
    assert SYSTEM_AUTH in BaseKeyspaces(peer.settings);
  }

  /** So a DC that leaves is lost to the other regions while it still has nodes. */
  lemma LeavingDCIsForgotten(spec: Spec, peer: Spec, s: State, n: string) returns (s': State)
    requires LeavingSts(spec, s.sts, n) && s.sts[n].dc != CLASS && InAuth(s, s.sts[n].dc)
    requires !Overridden(peer.settings, SYSTEM_AUTH) && !Desired(peer, s.sts[n].dc)
    requires forall x :: x in peer.others ==> x.name != s.sts[n].dc
    ensures Step(PeerPass(peer), s, s') && !InAuth(s', s.sts[n].dc) && s'.sts == s.sts
  {
    PeersForgetLeavingDCs(spec, peer, s, n);
    s' := PeerDropsDC(s, peer, s.sts[n].dc);
  }

  /** Nodes of a leaving DC are given up only while no foreign keyspace is replicated there. */
  lemma LeavingNodesAreUnused(e: Event, s: State, s': State, n: string)
    requires Step(e, s, s') && e.Pass? && LeavingSts(e.spec, s.sts, n)
    requires n !in s'.sts || Replicas(s', n) < Replicas(s, n)
    ensures forall k :: k in s.keyspaces && !Managed(e.spec.settings, k) ==> s.sts[n].dc !in s.keyspaces[k]
    ensures forall k :: k in s'.keyspaces && Managed(e.spec.settings, k) && k != SYSTEM_AUTH ==> s'.keyspaces[k] == Wanted(e.spec, k)
  {
    hide AllMoved, DcsMap, OneDesiredLowered, NewAreWanted, NewServicesWanted, Wanted, Managed;
    assert LeavingTouched(e.spec, s, s');
  }
}
