/** The code of a scaling pass over its stores. Any effect may fail; then the pass ends. */
module ScalingReconciler {
  import opened DataCenters
  import opened Keyspaces
  import opened Option
  import opened Scaling
  import opened Text

  /** cassandra.go:23-34: what is missing is created, nothing else changes. */
  ghost predicate Created(spec: Spec, before: State, after: State) {
    && before.services <= after.services && after.keyspaces == before.keyspaces
    && before.sts.Keys <= after.sts.Keys && (forall n :: n in before.sts ==> after.sts[n] == before.sts[n])
    && NewAreWanted(spec, before.sts, after.sts) && NewServicesWanted(spec, before.services, after.services)
  }

  /** What reconcileCassandraScaling guarantees. */
  ghost predicate ScalingStep(spec: Spec, a: Answers, before: State, after: State) {
    && after.sts.Keys <= before.sts.Keys && after.services <= before.services
    && AllMoved(spec, a, before.sts, after.sts)
    && RemovedWereEmpty(spec, before.sts, after.sts)
    && OneDesiredLowered(spec, before.sts, after.sts)
    && KeyspacesMoved(spec, before.keyspaces, after.keyspaces)
    && TouchedAreUnused(spec, before, after)
    && AuthKept(before.keyspaces, after.keyspaces)
  }

  predicate AtSpec(spec: Spec, sts: Sts) {
    Desired(spec, sts.dc) && sts.replicas == DcsMap(spec.dcs)[sts.dc]
  }

  predicate NotTooSmall(spec: Spec, sts: Sts) {
    Desired(spec, sts.dc) && DcsMap(spec.dcs)[sts.dc] <= sts.replicas
  }

  class Region {
    var sts: map<string, Sts>
    var services: set<string>
    var deployments: set<string>
    var keyspaces: map<string, Replication>
    /** Pods on which a decommission was started, in order; one pod may occur often. */
    var decommissions: seq<string>
    /** Whether all requests succeed. */
    const reliable: bool

    function Now(): State
      reads this
    {
      State(sts, services, deployments, keyspaces)
    }

    constructor (s: State, reliable: bool)
      ensures Now() == s && decommissions == [] && this.reliable == reliable
    {
      this.reliable := reliable;
      sts, services, deployments, keyspaces := s.sts, s.services, s.deployments, s.keyspaces;
      decommissions := [];
    }

    method Request() returns (ok: bool)
      ensures reliable ==> ok
    {
      ok := *;
      ok := ok || reliable;
    }

    /** An existing statefulset keeps its replica count (cassandra_statefulset.go:69-70). */
    method ReconcileDCStatefulSet(spec: Spec, dc: DC) returns (ok: bool)
      modifies `sts
      ensures var name := DCName(spec.cluster, dc.name);
              sts == (if name in old(sts) || !ok then old(sts) else old(sts)[name := Sts(dc.name, dc.replicas)])
      ensures reliable ==> ok
    {
      var name := DCName(spec.cluster, dc.name);
      ok := Request();
      if ok && name !in sts {
        sts := sts[name := Sts(dc.name, dc.replicas)];
      }
    }

    method ReconcileCassandra(spec: Spec) returns (ok: bool)
      requires DistinctDCs(spec.dcs)
      modifies `sts, `services
      ensures Created(spec, old(Now()), Now())
      ensures ok ==> forall i :: 0 <= i < |spec.dcs| ==>
                       DCName(spec.cluster, spec.dcs[i].name) in sts && DCName(spec.cluster, spec.dcs[i].name) in services
      ensures reliable ==> ok
    {
      hide Created;
      CreatedNothing(spec, Now());
      for i := 0 to |spec.dcs|
        invariant Created(spec, old(Now()), Now())
        invariant forall k :: 0 <= k < i ==>
                    DCName(spec.cluster, spec.dcs[k].name) in sts && DCName(spec.cluster, spec.dcs[k].name) in services
      {
        ok := Request();
        if !ok {
          return;
        }
        CreatedOneMore(spec, old(Now()), Now(), i);
        services := services + {DCName(spec.cluster, spec.dcs[i].name)};
        ok := ReconcileDCStatefulSet(spec, spec.dcs[i]);
        if !ok {
          return;
        }
      }
      ok := true;
    }

    /** desiredDCsSTS and decommissionDCsSTS: the listing has no particular order, the names are sorted. */
    method SortedSts(spec: Spec, desired: bool) returns (names: seq<string>)
      ensures forall n :: n in names <==> n in sts && Desired(spec, sts[n].dc) == desired
      ensures Sorted(names) && Distinct(names)
    {
      hide Sorted, SortStrings;
      names := [];
      var rest := sts.Keys;
      while rest != {}
        invariant rest <= sts.Keys
        invariant forall n :: n in names <==> n in sts && n !in rest && Desired(spec, sts[n].dc) == desired
        invariant Distinct(names)
        decreases |rest|
      {
        var n :| n in rest;
        rest := rest - {n};
        if Desired(spec, sts[n].dc) == desired {
          names := names + [n];
        }
      }
      SortStringsMembers(names);
      SortStringsSorts(names);
      SortedStaysDistinct(names, SortStrings(names));
      names := SortStrings(names);
    }

    method HandlePodDecommission(spec: Spec, a: Answers, name: string) returns (ok: bool)
      requires DistinctPeers(a.pods) && name in sts && sts[name].replicas > 0
      modifies `sts, `decommissions
      ensures || sts == old(sts)
              || (HighestPodGone(spec, a, name, old(sts)[name].replicas - 1)
                  && sts == old(sts)[name := old(sts)[name].(replicas := old(sts)[name].replicas - 1)])
      ensures || decommissions == old(decommissions)
              || (sts == old(sts) && decommissions == old(decommissions) + [PodName(name, sts[name].replicas - 1)]
                  && PodName(name, sts[name].replicas - 1) in a.modes && a.modes[PodName(name, sts[name].replicas - 1)] != Leaving)
      ensures var pod := PodName(name, old(sts)[name].replicas - 1);
              ok ==> if pod !in a.modes then sts != old(sts)
                     else (decommissions != old(decommissions) <==> a.modes[pod] != Leaving)
      ensures reliable && HighestPodGone(spec, a, name, old(sts)[name].replicas - 1) ==> ok && LoweredIn(old(sts), sts, name)
      ensures reliable && LastPodAnswers(a, old(sts), name) ==>
                ok && sts == old(sts) && decommissions == old(decommissions) + [LastPod(sts, name)]
      ensures reliable && Serviceable(spec, a, old(sts), name) ==> ok
    {
      var podName := PodName(name, sts[name].replicas - 1);
      var i := 0;
      while i < |a.pods| && a.pods[i].name != podName
        invariant 0 <= i <= |a.pods| && forall k :: 0 <= k < i ==> a.pods[k].name != podName
      {
        i := i + 1;
      }
      if i == |a.pods| {
        return false;
      }
      if podName !in a.modes {
        var gone := PodDecommissioned(spec, a, a.pods[i]);
        if gone != Some(true) {
          return false;
        }
        assert HighestPodGone(spec, a, name, sts[name].replicas - 1);
        ok := Request();
        if ok {
          sts := sts[name := sts[name].(replicas := sts[name].replicas - 1)];
        }
        return;
      }
      if a.modes[podName] == Leaving {
        return true;
      }
      ok := Request();
      if ok {
        decommissions := decommissions + [podName];
      }
    }

    /** A DC goes in two passes: first its service, then its statefulset. When the service
        cannot be read or deleted the statefulset goes right away. */
    method RemoveDC(name: string) returns (ok: bool)
      requires name in sts
      modifies `sts, `services, `deployments
      ensures deployments in {old(deployments), old(deployments) - {name + "-reaper"}}
      ensures (sts, services) in
                {(old(sts), old(services)), (old(sts), old(services) - {name}), (old(sts) - {name}, old(services))}
      ensures ok ==> name !in sts || (name in old(services) && name !in services)
      ensures reliable ==> ok && deployments == old(deployments) - {name + "-reaper"}
      ensures reliable ==> if name in old(services) then services == old(services) - {name} && sts == old(sts)
                           else sts == old(sts) - {name} && services == old(services)
    {
      var found := Request();
      if found && name + "-reaper" in deployments {
        ok := Request();
        if !ok {
          return;
        }
        deployments := deployments - {name + "-reaper"};
      }
      found := Request();
      if found && name in services {
        ok := Request();
        if ok {
          services := services - {name};
          return;
        }
      }
      ok := Request();
      if ok {
        sts := sts - {name};
      }
    }

    /** The check that blocks a decommission. */
    method InUse(spec: Spec, names: seq<string>) returns (blocked: bool)
      requires forall n :: n in names <==> LeavingSts(spec, sts, n)
      ensures blocked <==> !LeavingDCsUnused(spec, sts, keyspaces)
    {
      assert forall i :: 0 <= i < |names| ==> LeavingSts(spec, sts, names[i]);
      var rest := keyspaces.Keys;
      while rest != {}
        invariant rest <= keyspaces.Keys
        invariant forall k, n :: k in keyspaces && k !in rest && !Managed(spec.settings, k) && n in names ==> sts[n].dc !in keyspaces[k]
        decreases |rest|
      {
        var k :| k in rest;
        rest := rest - {k};
        if !Managed(spec.settings, k) {
          for i := 0 to |names|
            invariant forall j :: 0 <= j < i ==> sts[names[j]].dc !in keyspaces[k]
          {
            if sts[names[i]].dc in keyspaces[k] {
              return true;
            }
          }
        }
      }
      return false;
    }

    method UpdateKeyspace(spec: Spec, k: string) returns (ok: bool)
      requires Managed(spec.settings, k)
      modifies `keyspaces
      ensures keyspaces == (if k in old(keyspaces) && ok then old(keyspaces)[k := Wanted(spec, k)] else old(keyspaces))
      ensures reliable ==> ok
    {
      if k !in keyspaces {
        return true;
      }
      var options := DesiredReplicationOptions(spec.settings, k, Sites(spec));
      ok := true;
      if keyspaces[k] != options {
        ok := Request();
        if ok {
          keyspaces := keyspaces[k := options];
        }
      } else {
        assert keyspaces == keyspaces[k := options];
      }
    }

    /** Alters managed keyspaces that differ from what the spec wants. */
    method UpdateKeyspaces(spec: Spec, skipAuth: bool) returns (ok: bool)
      modifies `keyspaces
      ensures KeyspacesMoved(spec, old(keyspaces), keyspaces)
      ensures skipAuth ==> AuthKept(old(keyspaces), keyspaces)
      ensures ok && skipAuth ==> KeyspacesMovedAway(spec, keyspaces)
      ensures ok && !skipAuth ==> forall k :: k in keyspaces && Managed(spec.settings, k) ==> keyspaces[k] == Wanted(spec, k)
      ensures ok && DistinctDCs(spec.dcs) ==>
                forall k :: k in keyspaces && TakenCareOf(spec, k) && !(skipAuth && k == "system_auth") ==>
                  AsSpecified(spec, k, keyspaces[k])
      ensures forall k :: k in old(keyspaces) && !TakenCareOf(spec, k) ==> k in keyspaces && keyspaces[k] == old(keyspaces)[k]
      ensures reliable ==> ok
    {
      hide Wanted, Managed, TakenCareOf, AsSpecified;
      AllAsSpecified(spec);
      var names := DesiredKeyspacesToReconcile(spec.settings);
      for i := 0 to |names|
        invariant KeyspacesMoved(spec, old(keyspaces), keyspaces)
        invariant skipAuth ==> AuthKept(old(keyspaces), keyspaces)
        invariant forall j :: 0 <= j < i && names[j] in keyspaces && !(skipAuth && names[j] == SYSTEM_AUTH) ==>
                    keyspaces[names[j]] == Wanted(spec, names[j])
      {
        if skipAuth && names[i] == SYSTEM_AUTH {
          continue;
        }
        ok := UpdateKeyspace(spec, names[i]);
        if !ok {
          return;
        }
      }
      ok := true;
    }

    method HandleDCsDecommission(spec: Spec, a: Answers, names: seq<string>) returns (ok: bool)
      requires DistinctPeers(a.pods) && Distinct(names)
      requires forall n :: n in names <==> LeavingSts(spec, sts, n)
      modifies this
      ensures ScalingStep(spec, a, old(Now()), Now())
      ensures forall n :: n in sts && Desired(spec, sts[n].dc) ==> n in old(sts) && sts[n] == old(sts)[n]
      ensures NewlyStarted(spec, a, old(sts), old(decommissions), decommissions)
      ensures reliable && LeavingDCsUnused(spec, old(sts), old(keyspaces)) && names != [] && Ready(spec, a, old(sts), names[0]) ==>
                Shrinks(spec, old(Now()), Now(), names[0])
      ensures reliable && LeavingDCsUnused(spec, old(sts), old(keyspaces)) && names != [] && LastPodAnswers(a, old(sts), names[0]) ==>
                StartedOn(old(decommissions), decommissions, LastPod(old(sts), names[0]))
    {
      hide LastPodAnswers, StartedOn, LastPod;
      hide LeavingDCsUnused, KeyspacesMovedAway, KeyspacesMoved;
      hide NewlyStarted;
      NothingStarted(spec, a, sts, decommissions);
      var connected := Request();
      var blocked := InUse(spec, names);
      NothingMoved(spec, a, Now());
      if !connected || blocked {
        return false;
      }
      ok := UpdateKeyspaces(spec, true);
      ghost var prepared := Now();
      KeyspacesOnly(spec, a, old(Now()), prepared);
      if ok {
        ok := DecommissionDCs(spec, a, names);
        DecommissionedAfter(spec, a, old(Now()), prepared, Now());
      }
    }

    /** The last loop of handleDCsDecommission. */
    method DecommissionDCs(spec: Spec, a: Answers, names: seq<string>) returns (ok: bool)
      requires DistinctPeers(a.pods) && Distinct(names)
      requires forall n :: n in names <==> LeavingSts(spec, sts, n)
      modifies `sts, `services, `deployments, `decommissions
      ensures AllMoved(spec, a, old(sts), sts)
      ensures sts.Keys <= old(sts).Keys && services <= old(services)
      ensures forall n :: n in old(sts) && n !in sts ==> n in names && old(sts)[n].replicas == 0
      ensures forall n :: n in sts && n !in names ==> sts[n] == old(sts)[n]
      ensures NewlyStarted(spec, a, old(sts), old(decommissions), decommissions)
      ensures reliable && names != [] && Ready(spec, a, old(sts), names[0]) ==> Shrinks(spec, old(Now()), Now(), names[0])
      ensures reliable && names != [] && LastPodAnswers(a, old(sts), names[0]) ==>
                StartedOn(old(decommissions), decommissions, LastPod(old(sts), names[0]))
      ensures reliable ==> forall k :: 0 <= k <= |names| && AllServiceable(spec, a, old(sts), names[..k]) ==>
                             AllServed(spec, a, old(sts), old(decommissions), sts, decommissions, names[..k])
    {
      hide Moved, NewlyStarted, PodName, DCNames, LastPod, LastPodAnswers, StartedOn, IsServed, Ready, Shrinks, Desired,
        Serviceable, AllServed, AllServiceable;
      NobodyServed(spec, a, sts, decommissions);
      NothingStarted(spec, a, sts, decommissions);
      AllUnmoved(spec, a, sts);
      ok := true;
      for i := 0 to |names|
        invariant sts.Keys == old(sts).Keys && services == old(services) && deployments == old(deployments)
        invariant AllMoved(spec, a, old(sts), sts)
        invariant forall n :: n in sts && n !in names[..i] ==> sts[n] == old(sts)[n]
        invariant NewlyStarted(spec, a, old(sts), old(decommissions), decommissions)
        invariant i == 0 ==> decommissions == old(decommissions)
        invariant old(decommissions) <= decommissions
        invariant reliable ==> AllServed(spec, a, old(sts), old(decommissions), sts, decommissions, names[..i])
      {
        assert names[i] !in names[..i] && LeavingSts(spec, old(sts), names[i]);
        assert forall n :: n in names[..i] ==> n in names && n in sts;
        assert i == 0 ==> sts == old(sts) && Now() == old(Now());
        ghost var earlier, started := sts, decommissions;
        if sts[names[i]].replicas > 0 {
          StartedOneMore(spec, a, old(sts), old(decommissions), decommissions, names[i]);
        }
        var empty;
        empty, ok := DecommissionOne(spec, a, names[i]);
        if reliable {
          SameServiceable(spec, a, old(sts), earlier, names[i]);
          AllServedStay(spec, a, old(sts), old(decommissions), earlier, started, sts, decommissions, names[..i]);
          if !empty {
            SameServed(spec, a, old(sts), old(decommissions), earlier, started, sts, decommissions, names[i]);
            OneMoreServed(spec, a, old(sts), old(decommissions), sts, decommissions, names, i);
          }
        }
        if empty || !ok {
          if reliable {
            ServedUpTo(spec, a, old(sts), old(decommissions), sts, decommissions, names, i);
            FirstOfAll(spec, a, old(Now()), Now(), old(decommissions), decommissions, names, if empty then i else i + 1);
          }
          return;
        }
      }
      assert names[..|names|] == names;
      if reliable {
        ServedUpTo(spec, a, old(sts), old(decommissions), sts, decommissions, names, |names|);
        FirstOfAll(spec, a, old(Now()), Now(), old(decommissions), decommissions, names, |names|);
      }
    }

    /** The body of this loop; an empty statefulset ends it. */
    method DecommissionOne(spec: Spec, a: Answers, name: string) returns (empty: bool, ok: bool)
      requires DistinctPeers(a.pods) && LeavingSts(spec, sts, name)
      modifies `sts, `services, `deployments, `decommissions
      ensures empty <==> old(sts)[name].replicas == 0
      ensures sts.Keys <= old(sts).Keys && services <= old(services) && (!empty ==> deployments == old(deployments))
      ensures !empty ==> sts.Keys == old(sts).Keys && services == old(services)
      ensures forall n :: n in old(sts) && n != name ==> n in sts && sts[n] == old(sts)[n]
      ensures name in sts ==> Moved(spec, a, name, old(sts)[name], sts[name])
      ensures || decommissions == old(decommissions)
              || (!empty && decommissions == old(decommissions) + [PodName(name, old(sts)[name].replicas - 1)]
                  && PodName(name, old(sts)[name].replicas - 1) in a.modes
                  && a.modes[PodName(name, old(sts)[name].replicas - 1)] != Leaving)
      ensures reliable && empty ==> Shrinks(spec, old(Now()), Now(), name) && !LastPodAnswers(a, old(sts), name)
      ensures reliable && !empty ==> IsServed(spec, a, old(sts), old(decommissions), sts, decommissions, name)
      ensures reliable && Serviceable(spec, a, old(sts), name) ==> !empty && ok
    {
      hide HighestPodGone, PodName, LastPodAnswers, IsServed, Desired;
      empty := sts[name].replicas == 0;
      if empty {
        ok := RemoveDC(name);
        EmptyServed(spec, a, old(Now()), Now(), name);
      } else {
        ok := HandlePodDecommission(spec, a, name);
        ServedFirst(spec, a, old(sts), sts, old(decommissions), decommissions, name, reliable);
      }
    }

    /** The first loop of reconcileCassandraScaling: scales up as needed, and ends with the
        first attempt to scale down. */
    method ScaleDesiredDCs(spec: Spec, a: Answers, names: seq<string>) returns (finished: bool, ok: bool)
      requires DistinctPeers(a.pods)
      requires forall n :: n in names ==> n in sts && Desired(spec, sts[n].dc)
      modifies `sts, `decommissions
      ensures OneLowered(spec, a, old(sts), sts) || RaisedOnly(spec, old(sts), sts)
      ensures finished ==> ok && RaisedOnly(spec, old(sts), sts)
      ensures finished && a.pods != [] ==> forall n :: n in names ==> n in sts && AtSpec(spec, sts[n])
      ensures NewlyStarted(spec, a, old(sts), old(decommissions), decommissions)
      ensures finished ==> decommissions == old(decommissions)
      ensures reliable && (forall n :: !TooLarge(spec, old(sts), n)) ==> finished
      ensures reliable && Sorted(names) && AllDesired(spec, old(sts), names) && TurnGone(spec, a, old(sts)) && !finished ==>
                exists n :: LoweredIn(old(sts), sts, n)
      ensures finished && a.pods != [] && AllDesired(spec, old(sts), names) ==> forall n :: !TooLarge(spec, old(sts), n)
      ensures finished ==> forall n :: n in names ==> n in sts && NotTooSmall(spec, sts[n])
      ensures reliable && Sorted(names) && AllDesired(spec, old(sts), names) && !finished ==>
                forall n :: InTurn(spec, old(sts), n) && LastPodAnswers(a, old(sts), n) ==>
                  StartedOn(old(decommissions), decommissions, LastPod(old(sts), n))
    {
      hide LastPodAnswers, StartedOn, LastPod, InTurn;
      hide RaisedOnly, OneLowered, NewlyStarted, TooLarge, TurnGone, AllDesired, Sorted, HighestPodGone, DcsMap;
      NothingStarted(spec, a, sts, decommissions);
      RaisedNothing(spec, sts);
      var wanted := DcsMap(spec.dcs);
      for i := 0 to |names|
        invariant RaisedOnly(spec, old(sts), sts) && sts.Keys == old(sts).Keys
        invariant a.pods != [] ==> forall j :: 0 <= j < i ==> AtSpec(spec, sts[names[j]])
        invariant a.pods != [] ==> forall j :: 0 <= j < i ==> !TooLarge(spec, old(sts), names[j])
        invariant forall j :: 0 <= j < i ==> names[j] in sts && NotTooSmall(spec, sts[names[j]])
        invariant decommissions == old(decommissions)
      {
        var name := names[i];
        RaisedMeans(spec, old(sts), sts, name);
        TooLargeStays(spec, old(sts), sts, name);
        if sts[name].replicas == wanted[sts[name].dc] {
          continue;
        }
        if sts[name].replicas < wanted[sts[name].dc] {
          ok := Request();
          if !ok {
            return false, false;
          }
          RaisedOneMore(spec, old(sts), sts, name);
          sts := sts[name := sts[name].(replicas := wanted[sts[name].dc])];
          continue;
        }
        if a.pods == [] {
          continue;
        }
        LoweredOneMore(spec, a, old(sts), sts, name);
        TooLargeIsOld(spec, old(sts), sts, name);
        FirstTooLarge(spec, a, old(sts), names, i);
        StartedOneMore(spec, a, old(sts), old(decommissions), decommissions, name);
        ghost var raised := sts;
        SameLastPod(a, old(sts), sts, name);
        ok := HandlePodDecommission(spec, a, name);
        if reliable {
          TurnStarted(spec, a, old(sts), name, old(decommissions), decommissions);
        }
        assert LoweredIn(raised, sts, name) ==> LoweredIn(old(sts), sts, name);
        return false, ok;
      }
      NoneTooLarge(spec, old(sts), names);
      return true, true;
    }

    method ReconcileCassandraScaling(spec: Spec, a: Answers) returns (inProgress: bool, ok: bool)
      requires DistinctPeers(a.pods)
      modifies this
      ensures ScalingStep(spec, a, old(Now()), Now())
      ensures !inProgress && ok ==> sts.Keys == old(sts).Keys && keyspaces == old(keyspaces)
                                    && forall n :: n in sts ==> Desired(spec, sts[n].dc)
      ensures !inProgress && ok && a.pods != [] ==> forall n :: n in sts ==> AtSpec(spec, sts[n])
      ensures NewlyStarted(spec, a, old(sts), old(decommissions), decommissions)
      ensures reliable && CanShrink(spec, a, old(Now())) ==> TakesAway(spec, old(Now()), Now())
      ensures reliable && LeavingDCsUnused(spec, old(sts), old(keyspaces)) ==>
                TurnServed(spec, a, old(sts), old(decommissions), decommissions)
      ensures reliable && !SomethingToTake(spec, old(sts)) ==> ok && !inProgress
    {
      hide ScalingStep, RaisedOnly, OneLowered, NewlyStarted, CanShrink, TakesAway, Shrinks, TooLarge, Sorted, LeavingDCsUnused,
        LastPodAnswers, StartedOn, InTurn, Ready, TurnGone, AtSpec, NotTooSmall, LastPod, LoweredIn;
      NothingStarted(spec, a, sts, decommissions);
      CanShrinkMeans(spec, a, Now());
      NothingMoved(spec, a, Now());
      NobodyInTurn(spec, a, sts);
      if sts == map[] {
        return false, true;
      }
      var desiredNames := SortedSts(spec, true);
      var leavingNames := SortedSts(spec, false);
      var finished;
      finished, ok := ScaleDesiredDCs(spec, a, desiredNames);
      DesiredScaled(spec, a, old(Now()), Now());
      LoweredTakesAway(spec, old(Now()), Now());
      if !finished || !ok {
        return true, ok;
      }
      RaisedKeepsDCs(spec, old(sts), sts);
      if leavingNames == [] {
        return false, true;
      }
      ghost var raised := Now();
      RaisedIsReady(spec, a, old(Now()), raised, leavingNames);
      LeavingInTurn(spec, a, old(sts), raised.sts, leavingNames);
      ok := HandleDCsDecommission(spec, a, leavingNames);
      RaisedThenShrinks(spec, old(Now()), raised, Now(), leavingNames[0]);
      StartedBefore(spec, a, old(sts), raised.sts, old(decommissions), decommissions);
      RaisedThenDecommissioned(spec, a, old(Now()), raised, Now());
      inProgress := true;
    }

    /** controller.go:264-377: keyspaces are reconciled only when scaling is not in progress.
        A pass that gets to its end leaves nothing to scale and the keyspaces as wanted. */
    method Reconcile(spec: Spec, a: Answers, ready: bool) returns (settled: bool)
      requires DistinctPeers(a.pods) && DistinctDCs(spec.dcs)
      modifies this
      ensures PassStep(spec, a, old(Now()), Now())
      ensures settled && a.pods != [] ==> forall n :: n in sts ==> AtSpec(spec, sts[n])
      ensures NewlyStarted(spec, a, old(sts), old(decommissions), decommissions)
      ensures settled ==> forall k :: k in keyspaces && Managed(spec.settings, k) ==> keyspaces[k] == Wanted(spec, k)
      ensures settled ==> forall k :: k in keyspaces && TakenCareOf(spec, k) ==> AsSpecified(spec, k, keyspaces[k])
      ensures reliable && Named(spec, old(Now())) && CanShrink(spec, a, old(Now())) ==> TakesAway(spec, old(Now()), Now())
      ensures reliable && LeavingDCsUnused(spec, old(sts), old(keyspaces)) ==>
                TurnServed(spec, a, old(sts), old(decommissions), decommissions)
      ensures reliable && ready && !SomethingToTake(spec, old(sts)) ==> settled
    {
      hide ScalingStep, PassStep, Created, KeyspacesMoved, NewlyStarted, CanShrink, TakesAway, Named, TurnServed, LeavingDCsUnused,
        SomethingToTake;
      NothingStarted(spec, a, sts, decommissions);
      var ok := ReconcileCassandra(spec);
      ghost var created := Now();
      NothingMoved(spec, a, created);
      CreatedThenScaled(spec, a, old(Now()), created, created);
      if !ok {
        return false;
      }
      CreatedKeeps(spec, old(Now()), created);
      CreatedCanShrink(spec, a, old(Now()), created);
      CreatedTurn(spec, a, old(Now()), created);
      var inProgress;
      inProgress, ok := ReconcileCassandraScaling(spec, a);
      CreatedAreNotStarted(spec, a, old(Now()), created, old(decommissions), decommissions);
      CreatedThenScaled(spec, a, old(Now()), created, Now());
      CreatedThenShrinks(spec, a, old(Now()), created, Now());
      ghost var started := decommissions;
      assert TurnServed(spec, a, created.sts, old(decommissions), started) ==>
             TurnServed(spec, a, old(sts), old(decommissions), started);
      if !ok || inProgress {
        return false;
      }
      ghost var scaled := Now();
      settled := false;
      if ready {
        settled := UpdateKeyspaces(spec, false);
        KeyspacesLast(spec, a, old(Now()), scaled, Now());
        SameShrinks(spec, old(Now()), scaled, Now());
      }
    }
  }

  lemma AllAsSpecified(spec: Spec)
    ensures forall k :: Managed(spec.settings, k) <==> TakenCareOf(spec, k)
    ensures DistinctDCs(spec.dcs) ==> forall k :: AsSpecified(spec, k, Wanted(spec, k))
  {
    hide Managed, TakenCareOf, AsSpecified, Wanted;
    forall k ensures Managed(spec.settings, k) <==> TakenCareOf(spec, k) {
      ManagedMeans(spec, k);
    }
    forall k ensures DistinctDCs(spec.dcs) ==> AsSpecified(spec, k, Wanted(spec, k)) {
      if DistinctDCs(spec.dcs) {
        WantedIsAsSpecified(spec, k);
      }
    }
  }

  /** What was started since `before`, and on which statefulsets. */
  ghost predicate NewlyStarted(spec: Spec, a: Answers, sts: map<string, Sts>, before: seq<string>, after: seq<string>) {
    before <= after && StartedRightly(spec, a, sts, after[|before|..])
  }

  lemma NothingStarted(spec: Spec, a: Answers, sts: map<string, Sts>, started: seq<string>)
    ensures NewlyStarted(spec, a, sts, started, started)
  {
  }

  lemma StartedOneMore(spec: Spec, a: Answers, sts: map<string, Sts>, before: seq<string>, now: seq<string>, n: string)
    requires NewlyStarted(spec, a, sts, before, now) && n in sts && sts[n].replicas > 0
    requires Desired(spec, sts[n].dc) ==> DcsMap(spec.dcs)[sts[n].dc] < sts[n].replicas
    ensures var pod := PodName(n, sts[n].replicas - 1);
            pod in a.modes && a.modes[pod] != Leaving ==> NewlyStarted(spec, a, sts, before, now + [pod])
  {
    hide PodName, DcsMap;
    var pod := PodName(n, sts[n].replicas - 1);
    assert (now + [pod])[|before|..] == now[|before|..] + [pod];
    if pod in a.modes && a.modes[pod] != Leaving {
      assert MayDecommission(spec, a, n, sts[n], pod);
      assert LastPodToGo(spec, a, sts, pod);
    }
  }

  /** A statefulset that is too large was not raised before. */
  lemma TooLargeIsOld(spec: Spec, before: map<string, Sts>, now: map<string, Sts>, name: string)
    requires RaisedOnly(spec, before, now) && name in now && Desired(spec, now[name].dc)
    requires now[name].replicas > DcsMap(spec.dcs)[now[name].dc]
    ensures name in before && before[name] == now[name]
  {
  }

  lemma TooLargeStays(spec: Spec, before: map<string, Sts>, now: map<string, Sts>, name: string)
    requires RaisedOnly(spec, before, now) && name in now && Desired(spec, now[name].dc)
    ensures TooLarge(spec, before, name) <==> now[name].replicas > DcsMap(spec.dcs)[now[name].dc]
  {
  }

  ghost predicate AllDesired(spec: Spec, sts: map<string, Sts>, names: seq<string>) {
    forall n :: n in names <==> n in sts && Desired(spec, sts[n].dc)
  }

  lemma SameLastPod(a: Answers, before: map<string, Sts>, now: map<string, Sts>, n: string)
    requires n in before && n in now && before[n] == now[n]
    ensures LastPod(now, n) == LastPod(before, n) && LastPodAnswers(a, now, n) == LastPodAnswers(a, before, n)
  {
  }

  /** The statefulset was lowered, or a decommission of its last pod was started. */
  ghost predicate IsServed(spec: Spec, a: Answers, before: map<string, Sts>, started: seq<string>, now: map<string, Sts>,
                              startedNow: seq<string>, n: string) {
    && n in before && before[n].replicas > 0
    && (Ready(spec, a, before, n) ==> LoweredIn(before, now, n))
    && (LastPodAnswers(a, before, n) ==> StartedOn(started, startedNow, LastPod(before, n)))
  }

  lemma AllUnmoved(spec: Spec, a: Answers, sts: map<string, Sts>)
    ensures AllMoved(spec, a, sts, sts)
  {
  }

  lemma ServedFirst(spec: Spec, a: Answers, before: map<string, Sts>, now: map<string, Sts>, started: seq<string>,
                    startedNow: seq<string>, n: string, reliable: bool)
    requires n in before && before[n].replicas > 0 && started <= startedNow
    requires reliable && HighestPodGone(spec, a, n, before[n].replicas - 1) ==> LoweredIn(before, now, n)
    requires reliable && LastPodAnswers(a, before, n) ==> startedNow == started + [LastPod(before, n)]
    ensures reliable ==> IsServed(spec, a, before, started, now, startedNow, n)
  {
    hide HighestPodGone, LastPod, LastPodAnswers, StartedOn;
    StartedStays(started, started, startedNow, LastPod(before, n));
  }

  lemma ServedStays(spec: Spec, a: Answers, before: map<string, Sts>, started: seq<string>, now: map<string, Sts>,
                    startedNow: seq<string>, after: map<string, Sts>, startedAfter: seq<string>, n: string)
    requires startedNow <= startedAfter && n in now && n in after && after[n] == now[n]
    ensures IsServed(spec, a, before, started, now, startedNow, n) ==> IsServed(spec, a, before, started, after, startedAfter, n)
  {
    hide Ready, LastPod, LastPodAnswers, StartedOn;
    StartedStays(started, startedNow, startedAfter, LastPod(before, n));
  }

  /** The last pod of the statefulset is there, and its node answers or has gone for its peers. */
  ghost predicate Serviceable(spec: Spec, a: Answers, sts: map<string, Sts>, n: string) {
    && n in sts && sts[n].replicas > 0
    && ((LastPod(sts, n) in a.modes && exists i :: 0 <= i < |a.pods| && a.pods[i].name == LastPod(sts, n))
        || HighestPodGone(spec, a, n, sts[n].replicas - 1))
  }

  ghost predicate AllServiceable(spec: Spec, a: Answers, sts: map<string, Sts>, names: seq<string>) {
    forall n :: n in names ==> Serviceable(spec, a, sts, n)
  }

  ghost predicate AllServed(spec: Spec, a: Answers, before: map<string, Sts>, started: seq<string>, now: map<string, Sts>,
                            startedNow: seq<string>, names: seq<string>) {
    forall n :: n in names ==> IsServed(spec, a, before, started, now, startedNow, n)
  }

  lemma NobodyServed(spec: Spec, a: Answers, sts: map<string, Sts>, started: seq<string>)
    ensures AllServed(spec, a, sts, started, sts, started, [])
  {
  }

  lemma SameServiceable(spec: Spec, a: Answers, before: map<string, Sts>, now: map<string, Sts>, n: string)
    requires n in before && n in now && before[n] == now[n]
    ensures Serviceable(spec, a, now, n) == Serviceable(spec, a, before, n)
  {
    hide HighestPodGone, PodName;
  }

  lemma AllServedStay(spec: Spec, a: Answers, before: map<string, Sts>, started: seq<string>, now: map<string, Sts>,
                      startedNow: seq<string>, after: map<string, Sts>, startedAfter: seq<string>, names: seq<string>)
    requires startedNow <= startedAfter && forall n :: n in names ==> n in now && n in after && after[n] == now[n]
    requires AllServed(spec, a, before, started, now, startedNow, names)
    ensures AllServed(spec, a, before, started, after, startedAfter, names)
  {
    hide IsServed;
    forall n | n in names ensures IsServed(spec, a, before, started, after, startedAfter, n) {
      ServedStays(spec, a, before, started, now, startedNow, after, startedAfter, n);
    }
  }

  /** What was done since `now` was done since `before`, too. */
  lemma SameServed(spec: Spec, a: Answers, before: map<string, Sts>, started: seq<string>, now: map<string, Sts>,
                   startedNow: seq<string>, after: map<string, Sts>, startedAfter: seq<string>, n: string)
    requires n in before && n in now && before[n] == now[n] && started <= startedNow
    ensures IsServed(spec, a, now, startedNow, after, startedAfter, n) ==> IsServed(spec, a, before, started, after, startedAfter, n)
  {
    hide HighestPodGone, PodName, LastPodAnswers;
    SameLastPod(a, before, now, n);
    if startedNow <= startedAfter {
      assert startedAfter[|startedNow|..] == startedAfter[|started|..][|startedNow| - |started|..];
    }
  }

  lemma OneMoreServed(spec: Spec, a: Answers, before: map<string, Sts>, started: seq<string>, now: map<string, Sts>,
                      startedNow: seq<string>, names: seq<string>, i: nat)
    requires i < |names| && AllServed(spec, a, before, started, now, startedNow, names[..i])
    requires IsServed(spec, a, before, started, now, startedNow, names[i])
    ensures AllServed(spec, a, before, started, now, startedNow, names[..i + 1])
  {
    hide IsServed;
    assert names[..i + 1] == names[..i] + [names[i]];
  }

  /** All before the first that cannot be served were served. */
  lemma ServedUpTo(spec: Spec, a: Answers, before: map<string, Sts>, started: seq<string>, now: map<string, Sts>,
                   startedNow: seq<string>, names: seq<string>, i: nat)
    requires i <= |names| && AllServed(spec, a, before, started, now, startedNow, names[..i])
    requires i < |names| ==> !Serviceable(spec, a, before, names[i])
    ensures forall k :: 0 <= k <= |names| && AllServiceable(spec, a, before, names[..k]) ==>
              AllServed(spec, a, before, started, now, startedNow, names[..k])
  {
    hide IsServed, Serviceable;
    forall k | i < k <= |names| ensures AllServiceable(spec, a, before, names[..k]) ==> Serviceable(spec, a, before, names[i]) {
      assert names[..k][i] == names[i];
    }
    forall k | 0 <= k <= |names| && AllServiceable(spec, a, before, names[..k])
      ensures AllServed(spec, a, before, started, now, startedNow, names[..k])
    {
      if k <= i {
        forall n | n in names[..k] ensures n in names[..i] {
          var j :| 0 <= j < k && names[..k][j] == n;
          assert names[..i][j] == n;
        }
      }
    }
  }

  lemma FirstOfAll(spec: Spec, a: Answers, before: State, after: State, started: seq<string>, startedNow: seq<string>,
                   names: seq<string>, i: nat)
    requires i <= |names| && AllServed(spec, a, before.sts, started, after.sts, startedNow, names[..i])
    ensures i > 0 ==>
              && (Ready(spec, a, before.sts, names[0]) ==> Shrinks(spec, before, after, names[0]))
              && (LastPodAnswers(a, before.sts, names[0]) ==> StartedOn(started, startedNow, LastPod(before.sts, names[0])))
  {
    hide IsServed, Ready, Shrinks, LastPodAnswers, StartedOn, LastPod;
    if i > 0 {
      assert names[..i][0] == names[0];
      ServedMeans(spec, a, before, after, started, startedNow, names[0]);
    }
  }

  lemma EmptyServed(spec: Spec, a: Answers, before: State, after: State, n: string)
    requires LeavingSts(spec, before.sts, n) && before.sts[n].replicas == 0
    ensures !LastPodAnswers(a, before.sts, n)
    ensures n !in after.sts || (n in before.services && n !in after.services) ==> Shrinks(spec, before, after, n)
  {
  }

  lemma ServedMeans(spec: Spec, a: Answers, before: State, after: State, started: seq<string>, startedNow: seq<string>, n: string)
    ensures IsServed(spec, a, before.sts, started, after.sts, startedNow, n) ==>
              && (Ready(spec, a, before.sts, n) ==> Shrinks(spec, before, after, n))
              && (LastPodAnswers(a, before.sts, n) ==> StartedOn(started, startedNow, LastPod(before.sts, n)))
  {
    hide Ready, LastPod, LastPodAnswers, StartedOn;
    if LoweredIn(before.sts, after.sts, n) {
      LoweredShrinks(spec, before, after, n);
    }
  }

  lemma StartedStays(before: seq<string>, started: seq<string>, after: seq<string>, pod: string)
    requires started <= after
    ensures StartedOn(before, started, pod) ==> StartedOn(before, after, pod)
    ensures before <= started && after == started + [pod] ==> StartedOn(before, after, pod)
  {
    if StartedOn(before, started, pod) {
      assert after[|before|..] == started[|before|..] + after[|started|..];
    }
    if before <= started && after == started + [pod] {
      assert after[|after| - 1] == pod && after[|before|..][|after| - 1 - |before|] == pod;
    }
  }

  lemma TurnStarted(spec: Spec, a: Answers, sts: map<string, Sts>, name: string, before: seq<string>, after: seq<string>)
    requires LastPodAnswers(a, sts, name) ==> after == before + [LastPod(sts, name)]
    ensures InTurn(spec, sts, name) ==>
              forall n :: InTurn(spec, sts, n) && LastPodAnswers(a, sts, n) ==> StartedOn(before, after, LastPod(sts, n))
  {
    hide InTurn, LastPodAnswers, LastPod;
    forall n | InTurn(spec, sts, name) && InTurn(spec, sts, n) && LastPodAnswers(a, sts, n)
      ensures StartedOn(before, after, LastPod(sts, n))
    {
      OnlyOneInTurn(spec, sts, n, name);
      StartedStays(before, before, after, LastPod(sts, n));
    }
  }

  /** The first statefulset that is found too large is the one in turn. */
  lemma FirstTooLarge(spec: Spec, a: Answers, sts: map<string, Sts>, names: seq<string>, i: nat)
    requires i < |names| && TooLarge(spec, sts, names[i]) && forall j :: 0 <= j < i ==> !TooLarge(spec, sts, names[j])
    ensures Sorted(names) && AllDesired(spec, sts, names) ==>
              InTurn(spec, sts, names[i]) && (TurnGone(spec, a, sts) ==> HighestPodGone(spec, a, names[i], sts[names[i]].replicas - 1))
  {
    hide LexLe, HighestPodGone, DcsMap, Sorted, TooLarge, LeavingSts;
    TooLargeMeans(spec, sts);
    if Sorted(names) && AllDesired(spec, sts, names) {
      forall m | TooLarge(spec, sts, m) ensures LexLe(names[i], m) {
        assert m in names;
        var j :| 0 <= j < |names| && names[j] == m;
        SortedAt(names, i, j);
      }
      assert InTurn(spec, sts, names[i]);
    }
  }

  lemma TooLargeMeans(spec: Spec, sts: map<string, Sts>)
    ensures forall n :: TooLarge(spec, sts, n) ==> n in sts && Desired(spec, sts[n].dc) && sts[n].replicas > 0
  {
  }

  lemma NoneTooLarge(spec: Spec, sts: map<string, Sts>, names: seq<string>)
    ensures AllDesired(spec, sts, names) && (forall i :: 0 <= i < |names| ==> !TooLarge(spec, sts, names[i])) ==>
              forall n :: !TooLarge(spec, sts, n)
  {
  }

  lemma LoweredShrinks(spec: Spec, before: State, after: State, n: string)
    requires LoweredIn(before.sts, after.sts, n)
    ensures Shrinks(spec, before, after, n)
  {
  }

  /** There is something to take away, no keyspace is in the way, and the node in turn has gone. */
  ghost predicate CanShrink(spec: Spec, a: Answers, s: State) {
    SomethingToTake(spec, s.sts) && TurnGone(spec, a, s.sts) && LeavingDCsUnused(spec, s.sts, s.keyspaces)
  }

  lemma CanShrinkMeans(spec: Spec, a: Answers, s: State)
    ensures CanShrink(spec, a, s) ==>
              && s.sts != map[] && TurnGone(spec, a, s.sts) && LeavingDCsUnused(spec, s.sts, s.keyspaces)
              && ((forall n :: !TooLarge(spec, s.sts, n)) ==> SomeLeaving(spec, s.sts))
              && (forall n :: TooLarge(spec, s.sts, n) ==> a.pods != [])
  {
    hide LeavingDCsUnused, HighestPodGone, InTurn;
  }

  /** If the node whose turn it is answers, its decommission was started. */
  ghost predicate TurnServed(spec: Spec, a: Answers, sts: map<string, Sts>, before: seq<string>, after: seq<string>) {
    forall n :: InTurn(spec, sts, n) && LastPodAnswers(a, sts, n) ==> StartedOn(before, after, LastPod(sts, n))
  }

  lemma NobodyInTurn(spec: Spec, a: Answers, sts: map<string, Sts>)
    ensures forall n :: LastPodAnswers(a, sts, n) ==> a.pods != []
    ensures sts == map[] ==> forall n :: !InTurn(spec, sts, n)
    ensures !SomethingToTake(spec, sts) ==> (forall n :: !TooLarge(spec, sts, n)) && (forall n :: !LeavingSts(spec, sts, n))
    ensures (forall n :: !LeavingSts(spec, sts, n)) && (forall n :: !TooLarge(spec, sts, n)) ==> forall n :: !InTurn(spec, sts, n)
  {
    hide LexLe, DcsMap;
  }

  /** With no desired statefulset too large the first leaving one is in turn. */
  lemma LeavingInTurn(spec: Spec, a: Answers, before: map<string, Sts>, raised: map<string, Sts>, names: seq<string>)
    requires RaisedOnly(spec, before, raised) && names != [] && Sorted(names) && forall n :: n in names <==> LeavingSts(spec, before, n)
    ensures forall n :: InTurn(spec, before, n) ==> n == names[0] || TooLarge(spec, before, n)
    ensures LastPodAnswers(a, raised, names[0]) == LastPodAnswers(a, before, names[0])
    ensures LastPod(raised, names[0]) == LastPod(before, names[0])
  {
    hide LexLe, DcsMap, Sorted, TooLarge, LastPodAnswers, LastPod;
    assert names[0] in names;
    SameLastPod(a, before, raised, names[0]);
    forall n | InTurn(spec, before, n) && !TooLarge(spec, before, n) ensures n == names[0] {
      assert n in names;
      var j :| 0 <= j < |names| && names[j] == n;
      SortedAt(names, 0, j);
      LexLeAntisymmetric(names[0], n);
    }
  }

  lemma LoweredTakesAway(spec: Spec, before: State, after: State)
    ensures (exists n :: LoweredIn(before.sts, after.sts, n)) ==> TakesAway(spec, before, after)
  {
    if n :| LoweredIn(before.sts, after.sts, n) {
      LoweredShrinks(spec, before, after, n);
    }
  }

  lemma SameShrinks(spec: Spec, before: State, now: State, after: State)
    requires after == now.(keyspaces := after.keyspaces)
    ensures TakesAway(spec, before, now) ==> TakesAway(spec, before, after)
  {
    if n :| Shrinks(spec, before, now, n) {
      assert Shrinks(spec, before, after, n);
    }
  }

  /** Raising others first takes nothing away from the turn of the first leaving statefulset. */
  lemma RaisedIsReady(spec: Spec, a: Answers, before: State, raised: State, names: seq<string>)
    requires raised == before.(sts := raised.sts) && RaisedOnly(spec, before.sts, raised.sts)
    requires names != [] && Sorted(names) && forall n :: n in names <==> LeavingSts(spec, before.sts, n)
    ensures TurnGone(spec, a, before.sts) && (forall m :: !TooLarge(spec, before.sts, m)) ==> Ready(spec, a, raised.sts, names[0])
    ensures LeavingDCsUnused(spec, before.sts, before.keyspaces) ==> LeavingDCsUnused(spec, raised.sts, raised.keyspaces)
  {
    hide HighestPodGone, DcsMap, TooLarge, TurnGone;
    assert names[0] in names;
    forall n ensures LeavingSts(spec, raised.sts, n) == LeavingSts(spec, before.sts, n)
      && (LeavingSts(spec, before.sts, n) ==> raised.sts[n] == before.sts[n]) {
    }
    if TurnGone(spec, a, before.sts) && forall m :: !TooLarge(spec, before.sts, m) {
      FirstLeaving(spec, a, before.sts, names);
    }
  }

  lemma RaisedThenShrinks(spec: Spec, before: State, raised: State, after: State, n: string)
    requires raised == before.(sts := raised.sts) && RaisedOnly(spec, before.sts, raised.sts) && LeavingSts(spec, before.sts, n)
    ensures Shrinks(spec, raised, after, n) ==> TakesAway(spec, before, after)
  {
    hide DcsMap;
    assert raised.sts[n] == before.sts[n];
    if Shrinks(spec, raised, after, n) {
      assert Shrinks(spec, before, after, n);
    }
  }

  /** Created statefulsets are neither too large nor leaving, so the turn stays the same. */
  lemma CreatedCanShrink(spec: Spec, a: Answers, before: State, created: State)
    requires Created(spec, before, created)
    ensures CanShrink(spec, a, before) ==> CanShrink(spec, a, created)
  {
    hide HighestPodGone, Created, TooLarge, InTurn;
    CreatedKeeps(spec, before, created);
    SameTurn(spec, before, created);
  }

  lemma CreatedTurn(spec: Spec, a: Answers, before: State, created: State)
    requires Created(spec, before, created)
    ensures LeavingDCsUnused(spec, before.sts, before.keyspaces) ==> LeavingDCsUnused(spec, created.sts, created.keyspaces)
    ensures SomethingToTake(spec, created.sts) == SomethingToTake(spec, before.sts)
    ensures forall x, y :: TurnServed(spec, a, created.sts, x, y) ==> TurnServed(spec, a, before.sts, x, y)
  {
    hide Created, TooLarge, InTurn, LastPodAnswers, LastPod, StartedOn;
    CreatedKeeps(spec, before, created);
    SameTurn(spec, before, created);
    forall n | n in before.sts ensures LastPodAnswers(a, created.sts, n) == LastPodAnswers(a, before.sts, n)
                                       && LastPod(created.sts, n) == LastPod(before.sts, n) {
      SameLastPod(a, before.sts, created.sts, n);
    }
  }

  lemma CreatedThenShrinks(spec: Spec, a: Answers, before: State, created: State, after: State)
    requires Created(spec, before, created) && ScalingStep(spec, a, created, after)
    ensures Named(spec, before) && TakesAway(spec, created, after) ==> TakesAway(spec, before, after)
  {
    hide HighestPodGone, DcsMap, DCName, KeyspacesMoved, KeyspacesMovedAway, TouchedAreUnused, OneDesiredLowered;
    if Named(spec, before) && TakesAway(spec, created, after) {
      var n :| Shrinks(spec, created, after, n);
      assert n in after.sts ==> Moved(spec, a, n, created.sts[n], after.sts[n]);
      assert n in before.sts;
      if LeavingSts(spec, before.sts, n) && n in created.services {
        LeavingServiceNotNew(spec, before, created, n);
      }
      assert Shrinks(spec, before, after, n);
    }
  }

  lemma SameTurn(spec: Spec, before: State, created: State)
    requires Created(spec, before, created)
    ensures forall n :: TooLarge(spec, created.sts, n) == TooLarge(spec, before.sts, n)
    ensures forall n :: LeavingSts(spec, created.sts, n) == LeavingSts(spec, before.sts, n)
    ensures forall n :: InTurn(spec, created.sts, n) == InTurn(spec, before.sts, n)
    ensures forall n :: InTurn(spec, before.sts, n) ==> n in before.sts
    ensures forall n :: n in before.sts ==> n in created.sts && created.sts[n] == before.sts[n]
  {
    hide DcsMap, DCName, LexLe;
  }

  /** What makes the first leaving statefulset shrink. */
  ghost predicate Ready(spec: Spec, a: Answers, sts: map<string, Sts>, n: string) {
    n in sts && (sts[n].replicas == 0 || HighestPodGone(spec, a, n, sts[n].replicas - 1))
  }

  lemma FirstLeaving(spec: Spec, a: Answers, sts: map<string, Sts>, names: seq<string>)
    requires names != [] && Sorted(names) && TurnGone(spec, a, sts) && forall m :: !TooLarge(spec, sts, m)
    requires forall n :: n in names <==> LeavingSts(spec, sts, n)
    ensures Ready(spec, a, sts, names[0])
  {
    hide LexLe, HighestPodGone, TooLarge, Sorted;
    forall m | LeavingSts(spec, sts, m) ensures LexLe(names[0], m) {
      assert m in names;
      var j :| 0 <= j < |names| && names[j] == m;
      SortedAt(names, 0, j);
    }
    assert names[0] in names;
    assert InTurn(spec, sts, names[0]);
  }

  lemma StartedBefore(spec: Spec, a: Answers, sts: map<string, Sts>, raised: map<string, Sts>, before: seq<string>, after: seq<string>)
    requires RaisedOnly(spec, sts, raised) && NewlyStarted(spec, a, raised, before, after)
    ensures NewlyStarted(spec, a, sts, before, after)
  {
    hide PodName, DcsMap;
    var pods := after[|before|..];
    forall i | 0 <= i < |pods| ensures LastPodToGo(spec, a, sts, pods[i]) {
      assert LastPodToGo(spec, a, raised, pods[i]);
      var n :| n in raised && MayDecommission(spec, a, n, raised[n], pods[i]);
      assert MayDecommission(spec, a, n, sts[n], pods[i]);
    }
  }

  lemma CreatedAreNotStarted(spec: Spec, a: Answers, s: State, created: State, before: seq<string>, after: seq<string>)
    requires Created(spec, s, created) && NewlyStarted(spec, a, created.sts, before, after)
    ensures NewlyStarted(spec, a, s.sts, before, after)
  {
    hide PodName, DcsMap, DCName;
    var pods := after[|before|..];
    forall i | 0 <= i < |pods| ensures LastPodToGo(spec, a, s.sts, pods[i]) {
      assert LastPodToGo(spec, a, created.sts, pods[i]);
      var n :| n in created.sts && MayDecommission(spec, a, n, created.sts[n], pods[i]);
      assert n in s.sts;
      assert MayDecommission(spec, a, n, s.sts[n], pods[i]);
    }
  }

  lemma DcsMapAt(dcs: seq<DC>, i: nat)
    requires DistinctDCs(dcs) && i < |dcs|
    ensures dcs[i].name in DcsMap(dcs) && DcsMap(dcs)[dcs[i].name] == dcs[i].replicas
  {
    if i < |dcs| - 1 {
      DcsMapAt(dcs[..|dcs| - 1], i);
    }
  }

  lemma SortedStaysDistinct(xs: seq<string>, ys: seq<string>)
    requires Distinct(xs) && multiset(xs) == multiset(ys)
    ensures Distinct(ys)
  {
    forall i, j | 0 <= i < j < |ys| ensures ys[i] != ys[j] {
      if ys[i] == ys[j] {
        assert ys == ys[..i] + [ys[i]] + ys[i + 1..j] + [ys[j]] + ys[j + 1..];
        assert multiset(ys)[ys[i]] >= 2;
        DistinctCounts(xs, ys[i]);
      }
    }
  }

  lemma {:induction false} DistinctCounts(xs: seq<string>, x: string)
    requires Distinct(xs)
    ensures multiset(xs)[x] <= 1
  {
    if xs != [] {
      DistinctCounts(xs[1..], x);
      assert xs == [xs[0]] + xs[1..];
      assert xs[0] == x ==> x !in xs[1..];
    }
  }

  lemma CreatedNothing(spec: Spec, s: State)
    ensures Created(spec, s, s)
  {
  }

  lemma CreatedOneMore(spec: Spec, before: State, now: State, i: nat)
    requires DistinctDCs(spec.dcs) && Created(spec, before, now) && i < |spec.dcs|
    ensures var name := DCName(spec.cluster, spec.dcs[i].name);
            var more := now.(services := now.services + {name});
            && Created(spec, before, more)
            && (name !in now.sts ==> Created(spec, before, more.(sts := now.sts[name := Sts(spec.dcs[i].name, spec.dcs[i].replicas)])))
  {
    hide DcsMap, DCNames, DCName;
    DcsMapAt(spec.dcs, i);
    assert Desired(spec, spec.dcs[i].name);
  }

  ghost predicate Raised(spec: Spec, before: Sts, after: Sts) {
    before.dc == after.dc && Desired(spec, before.dc) && before.replicas < after.replicas == DcsMap(spec.dcs)[before.dc]
  }

  ghost predicate RaisedOnly(spec: Spec, before: map<string, Sts>, after: map<string, Sts>) {
    after.Keys == before.Keys && forall n :: n in before ==> after[n] == before[n] || Raised(spec, before[n], after[n])
  }

  /** Some raised, one desired lowered. */
  ghost predicate OneLowered(spec: Spec, a: Answers, before: map<string, Sts>, after: map<string, Sts>) {
    exists name :: name in before && name in after && Lowered(before[name], after[name]) && Desired(spec, before[name].dc)
                   && Moved(spec, a, name, before[name], after[name]) && RaisedOnly(spec, before, after[name := before[name]])
  }

  lemma RaisedNothing(spec: Spec, sts: map<string, Sts>)
    ensures RaisedOnly(spec, sts, sts)
  {
  }

  lemma RaisedMeans(spec: Spec, before: map<string, Sts>, after: map<string, Sts>, name: string)
    requires RaisedOnly(spec, before, after) && name in before && Desired(spec, before[name].dc)
    ensures name in after && after[name].dc == before[name].dc
  {
  }

  lemma RaisedKeepsDCs(spec: Spec, before: map<string, Sts>, after: map<string, Sts>)
    requires RaisedOnly(spec, before, after)
    ensures after.Keys == before.Keys && forall n :: n in before ==> after[n].dc == before[n].dc
  {
  }

  lemma RaisedOneMore(spec: Spec, before: map<string, Sts>, after: map<string, Sts>, name: string)
    requires RaisedOnly(spec, before, after) && name in before && Desired(spec, before[name].dc)
    ensures name in after && after[name].dc == before[name].dc
    ensures var want := DcsMap(spec.dcs)[before[name].dc];
            after[name].replicas < want ==> RaisedOnly(spec, before, after[name := after[name].(replicas := want)])
  {
  }

  lemma LoweredOneMore(spec: Spec, a: Answers, before: map<string, Sts>, now: map<string, Sts>, name: string)
    requires RaisedOnly(spec, before, now) && name in before && Desired(spec, before[name].dc)
    requires now[name].replicas > DcsMap(spec.dcs)[before[name].dc]
    ensures HighestPodGone(spec, a, name, now[name].replicas - 1) ==>
              OneLowered(spec, a, before, now[name := now[name].(replicas := now[name].replicas - 1)])
  {
    hide HighestPodGone;
    var after := now[name := now[name].(replicas := now[name].replicas - 1)];
    assert after[name := before[name]] == now;
    assert Lowered(before[name], after[name]);
  }

  lemma DesiredScaled(spec: Spec, a: Answers, before: State, after: State)
    requires OneLowered(spec, a, before.sts, after.sts) || RaisedOnly(spec, before.sts, after.sts)
    requires after == before.(sts := after.sts)
    ensures ScalingStep(spec, a, before, after)
  {
    hide HighestPodGone, KeyspacesMovedAway, LeavingDCsUnused, Moved, DcsMap;
    if OneLowered(spec, a, before.sts, after.sts) {
      var name :| name in before.sts && name in after.sts && Lowered(before.sts[name], after.sts[name])
                  && Desired(spec, before.sts[name].dc) && Moved(spec, a, name, before.sts[name], after.sts[name])
                  && RaisedOnly(spec, before.sts, after.sts[name := before.sts[name]]);
      var others := after.sts[name := before.sts[name]];
      RaisedOnlyMoves(spec, a, before.sts, others);
      forall n | n in before.sts && n in after.sts && n != name ensures after.sts[n] == others[n] {
      }
    } else {
      RaisedOnlyMoves(spec, a, before.sts, after.sts);
    }
  }

  lemma RaisedOnlyMoves(spec: Spec, a: Answers, before: map<string, Sts>, after: map<string, Sts>)
    requires RaisedOnly(spec, before, after)
    ensures AllMoved(spec, a, before, after)
    ensures forall n :: !LoweredIn(before, after, n)
    ensures forall n :: LeavingSts(spec, before, n) ==> after[n] == before[n]
  {
    hide HighestPodGone, DcsMap;
  }

  lemma CreatedKeeps(spec: Spec, before: State, created: State)
    requires Created(spec, before, created)
    ensures before.sts.Keys <= created.sts.Keys && created.keyspaces == before.keyspaces
  {
  }

  lemma NothingMoved(spec: Spec, a: Answers, s: State)
    ensures ScalingStep(spec, a, s, s)
  {
    hide HighestPodGone, DcsMap;
  }

  /** Only keyspaces were altered. */
  lemma KeyspacesOnly(spec: Spec, a: Answers, before: State, after: State)
    requires after == before.(keyspaces := after.keyspaces) && KeyspacesMoved(spec, before.keyspaces, after.keyspaces)
    requires AuthKept(before.keyspaces, after.keyspaces)
    ensures ScalingStep(spec, a, before, after)
  {
    hide HighestPodGone, DcsMap, KeyspacesMoved;
  }

  /** The keyspaces were prepared, then nodes of leaving DCs decommissioned. */
  lemma DecommissionedAfter(spec: Spec, a: Answers, before: State, prepared: State, after: State)
    requires ScalingStep(spec, a, before, prepared) && prepared == before.(keyspaces := prepared.keyspaces)
    requires after.keyspaces == prepared.keyspaces
    requires LeavingDCsUnused(spec, before.sts, before.keyspaces) && KeyspacesMovedAway(spec, prepared.keyspaces)
    requires AllMoved(spec, a, before.sts, after.sts) && after.sts.Keys <= before.sts.Keys && after.services <= before.services
    requires forall n :: n in before.sts && n !in after.sts ==> LeavingSts(spec, before.sts, n) && before.sts[n].replicas == 0
    requires forall n :: n in after.sts && !LeavingSts(spec, before.sts, n) ==> after.sts[n] == before.sts[n]
    ensures ScalingStep(spec, a, before, after)
  {
    hide Moved, LeavingDCsUnused, KeyspacesMoved, KeyspacesMovedAway, Desired;
    forall n | LoweredIn(before.sts, after.sts, n) ensures LeavingSts(spec, before.sts, n) {
    }
  }

  lemma RaisedThenDecommissioned(spec: Spec, a: Answers, before: State, raised: State, after: State)
    requires raised == before.(sts := raised.sts) && RaisedOnly(spec, before.sts, raised.sts)
    requires ScalingStep(spec, a, raised, after)
    requires forall n :: n in after.sts && Desired(spec, after.sts[n].dc) ==> n in raised.sts && after.sts[n] == raised.sts[n]
    ensures ScalingStep(spec, a, before, after)
  {
    hide Moved, KeyspacesMovedAway, KeyspacesMoved, DcsMap, Desired;
    RaisedOnlyMoves(spec, a, before.sts, raised.sts);
    RaisedKeepsDCs(spec, before.sts, raised.sts);
    MovedKeepsDC(spec, a, raised.sts, after.sts);
    forall n ensures LeavingSts(spec, raised.sts, n) == LeavingSts(spec, before.sts, n)
      && (LeavingSts(spec, before.sts, n) ==> raised.sts[n] == before.sts[n]) {
    }
    forall n | LoweredIn(before.sts, after.sts, n) ensures LoweredIn(raised.sts, after.sts, n) && LeavingSts(spec, before.sts, n) {
      assert !LoweredIn(before.sts, raised.sts, n);
    }
    assert AllMoved(spec, a, before.sts, after.sts);
  }

  lemma MovedKeepsDC(spec: Spec, a: Answers, before: map<string, Sts>, after: map<string, Sts>)
    requires AllMoved(spec, a, before, after)
    ensures forall n :: n in before && n in after ==> after[n].dc == before[n].dc
  {
    hide HighestPodGone;
    forall n | n in before && n in after ensures after[n].dc == before[n].dc {
      assert Moved(spec, a, n, before[n], after[n]);
    }
  }

  lemma CreatedThenScaled(spec: Spec, a: Answers, before: State, created: State, after: State)
    requires Created(spec, before, created) && ScalingStep(spec, a, created, after)
    ensures PassStep(spec, a, before, after)
  {
    hide HighestPodGone, KeyspacesMovedAway, DcsMap, DCName, Desired;
    forall n | LeavingSts(spec, before.sts, n) ensures LeavingSts(spec, created.sts, n) {
    }
    forall n | LoweredIn(before.sts, after.sts, n) ensures LoweredIn(created.sts, after.sts, n) {
    }
    NewStayWanted(spec, a, before, created, after);
    assert AllMoved(spec, a, before.sts, after.sts) && RemovedWereEmpty(spec, before.sts, after.sts);
    assert OneDesiredLowered(spec, before.sts, after.sts);
    assert KeyspacesMoved(spec, before.keyspaces, after.keyspaces);
    assert TouchedAreUnused(spec, before, after);
  }

  lemma NewStayWanted(spec: Spec, a: Answers, before: State, created: State, after: State)
    requires Created(spec, before, created) && AllMoved(spec, a, created.sts, after.sts) && after.sts.Keys <= created.sts.Keys
    ensures NewAreWanted(spec, before.sts, after.sts)
  {
    hide HighestPodGone, DcsMap, DCName;
  }

  lemma KeyspacesLast(spec: Spec, a: Answers, before: State, scaled: State, after: State)
    requires PassStep(spec, a, before, scaled) && KeyspacesMoved(spec, scaled.keyspaces, after.keyspaces)
    requires scaled.keyspaces == before.keyspaces && before.sts.Keys <= scaled.sts.Keys
    requires forall n :: n in scaled.sts ==> Desired(spec, scaled.sts[n].dc)
    requires after == scaled.(keyspaces := after.keyspaces)
    ensures PassStep(spec, a, before, after)
  {
    hide HighestPodGone, DcsMap, Desired, KeyspacesMovedAway, LeavingDCsUnused;
    MovedKeepsDC(spec, a, before.sts, scaled.sts);
    forall n ensures !LeavingSts(spec, before.sts, n) {
    }
  }
}
