/** Maintenance mode: the status and the one-at-a-time updates of controllers/maintenance.go. */
module Maintenance {
  import opened Text

  /** `maintenance` and `cassandra` say which of the two containers runs. */
  datatype Pod = Pod(name: string, dc: string, maintenance: bool, cassandra: bool)

  datatype Entry = Entry(dc: string, pods: seq<string>)

  /******* The status *******/

  /** The pods of a DC that run maintenance, in the order of the list. */
  function RunningIn(pods: seq<Pod>, dc: string): seq<string> {
    if pods == [] then []
    else
      var last := pods[|pods| - 1];
      RunningIn(pods[..|pods| - 1], dc) + if last.maintenance && last.dc == dc then [last.name] else []
  }

  ghost predicate DistinctEntries(status: seq<Entry>) {
    forall i, j :: 0 <= i < j < |status| ==> status[i].dc != status[j].dc
  }

  /** Each DC with running maintenance has one entry, with all of its pods. */
  ghost predicate Grouped(pods: seq<Pod>, status: seq<Entry>) {
    && DistinctEntries(status)
    && (forall i :: 0 <= i < |status| ==> status[i].pods == RunningIn(pods, status[i].dc) != [])
    && (forall dc :: RunningIn(pods, dc) != [] ==> HasEntry(status, dc))
  }

  ghost predicate HasEntry(status: seq<Entry>, dc: string) {
    exists i :: 0 <= i < |status| && status[i].dc == dc
  }

  /** The status of the whole list: grouped, with the pods of each entry in order. */
  ghost predicate IsStatus(pods: seq<Pod>, status: seq<Entry>) {
    && DistinctEntries(status)
    && (forall i :: 0 <= i < |status| ==> status[i].pods == SortStrings(RunningIn(pods, status[i].dc)) != [])
    && (forall dc :: RunningIn(pods, dc) != [] ==> HasEntry(status, dc))
  }

  lemma {:induction false} RunningInCounts(pods: seq<Pod>, dc: string, name: string)
    ensures multiset(RunningIn(pods, dc))[name] == RunningCount(pods, dc, name)
  {
    if pods != [] {
      RunningInCounts(pods[..|pods| - 1], dc, name);
    }
  }

  /** How often a pod of this name and DC occurs in the list running maintenance. */
  function RunningCount(pods: seq<Pod>, dc: string, name: string): nat {
    if pods == [] then 0
    else
      var last := pods[|pods| - 1];
      RunningCount(pods[..|pods| - 1], dc, name) + if last.maintenance && last.dc == dc && last.name == name then 1 else 0
  }

  /** The status is a partition: a pod that runs maintenance occurs in the entry of its DC as often
      as in the list, a pod that does not occurs nowhere, and every entry is in order. */
  lemma StatusIsPartition(pods: seq<Pod>, status: seq<Entry>, i: nat, name: string)
    requires IsStatus(pods, status) && i < |status|
    ensures Sorted(status[i].pods) && multiset(status[i].pods)[name] == RunningCount(pods, status[i].dc, name)
    ensures forall dc :: RunningCount(pods, dc, name) > 0 ==> HasEntry(status, dc)
  {
    SortStringsSorts(RunningIn(pods, status[i].dc));
    RunningInCounts(pods, status[i].dc, name);
    forall dc | RunningCount(pods, dc, name) > 0 ensures HasEntry(status, dc) {
      RunningInCounts(pods, dc, name);
      assert multiset(RunningIn(pods, dc))[name] > 0;
    }
  }

  /** Two statuses of one list differ in the order of their entries at most. */
  lemma StatusIsUnique(pods: seq<Pod>, one: seq<Entry>, other: seq<Entry>)
    requires IsStatus(pods, one) && IsStatus(pods, other)
    ensures forall e :: e in one <==> e in other
  {
    StatusIncluded(pods, one, other);
    StatusIncluded(pods, other, one);
  }

  lemma StatusIncluded(pods: seq<Pod>, one: seq<Entry>, other: seq<Entry>)
    requires IsStatus(pods, one) && IsStatus(pods, other)
    ensures forall e :: e in one ==> e in other
  {
    forall e | e in one ensures e in other {
      var i :| 0 <= i < |one| && one[i] == e;
      SortStringsSorts(RunningIn(pods, e.dc));
      assert HasEntry(other, e.dc);
      var j :| 0 <= j < |other| && other[j].dc == e.dc;
      assert other[j] == e;
    }
  }

  method ContainsDc(status: seq<Entry>, dc: string) returns (found: bool)
    ensures found <==> HasEntry(status, dc)
  {
    for i := 0 to |status|
      invariant forall k :: 0 <= k < i ==> status[k].dc != dc
    {
      if status[i].dc == dc {
        return true;
      }
    }
    return false;
  }

  method GenerateMaintenanceStatus(pods: seq<Pod>) returns (status: seq<Entry>)
    ensures IsStatus(pods, status)
  {
    hide Grouped, SortStrings;
    status := [];
    NothingGrouped(pods);
    for i := 0 to |pods|
      invariant Grouped(pods[..i], status)
    {
      var pod := pods[i];
      assert pods[..i + 1][..i] == pods[..i];
      if !pod.maintenance {
        GroupedSkip(pods[..i + 1], status);
        continue;
      }
      var found := ContainsDc(status, pod.dc);
      if found {
        var k := 0;
        while status[k].dc != pod.dc
          invariant 0 <= k < |status|
          invariant forall j :: 0 <= j < k ==> status[j].dc != pod.dc
          decreases |status| - k
        {
          k := k + 1;
        }
        GroupedAppend(pods[..i + 1], status, k);
        status := status[k := status[k].(pods := status[k].pods + [pod.name])];
      } else {
        GroupedNew(pods[..i + 1], status);
        status := status + [Entry(pod.dc, [pod.name])];
      }
    }
    assert pods[..|pods|] == pods;
    status := SortEntries(pods, status);
  }

  /** The last loop: the pods of every entry are sorted in place. */
  method SortEntries(ghost pods: seq<Pod>, grouped: seq<Entry>) returns (status: seq<Entry>)
    requires Grouped(pods, grouped)
    ensures IsStatus(pods, status)
  {
    hide SortStrings, RunningIn;
    status := grouped;
    for i := 0 to |status|
      invariant |status| == |grouped|
      invariant forall k :: 0 <= k < i ==> status[k] == grouped[k].(pods := SortStrings(grouped[k].pods)) && status[k].pods != []
      invariant forall k :: i <= k < |status| ==> status[k] == grouped[k]
    {
      SortStringsSorts(status[i].pods);
      status := status[i := status[i].(pods := SortStrings(status[i].pods))];
    }
    SameDCs(grouped, status);
  }

  lemma SameDCs(one: seq<Entry>, other: seq<Entry>)
    requires |one| == |other| && forall i :: 0 <= i < |one| ==> one[i].dc == other[i].dc
    ensures DistinctEntries(one) <==> DistinctEntries(other)
    ensures forall dc :: HasEntry(one, dc) <==> HasEntry(other, dc)
  {
    forall dc ensures HasEntry(one, dc) <==> HasEntry(other, dc) {
      if i :| 0 <= i < |one| && one[i].dc == dc {
        assert other[i].dc == dc;
      }
      if i :| 0 <= i < |other| && other[i].dc == dc {
        assert one[i].dc == dc;
      }
    }
  }

  lemma NothingGrouped(pods: seq<Pod>)
    ensures Grouped(pods[..0], [])
  {
  }

  lemma GroupedSkip(pods: seq<Pod>, status: seq<Entry>)
    requires pods != [] && !pods[|pods| - 1].maintenance && Grouped(pods[..|pods| - 1], status)
    ensures Grouped(pods, status)
  {
    forall dc ensures RunningIn(pods, dc) == RunningIn(pods[..|pods| - 1], dc) {
    }
  }

  lemma GroupedAppend(pods: seq<Pod>, status: seq<Entry>, k: nat)
    requires pods != [] && pods[|pods| - 1].maintenance && Grouped(pods[..|pods| - 1], status)
    requires k < |status| && status[k].dc == pods[|pods| - 1].dc
    ensures Grouped(pods, status[k := status[k].(pods := status[k].pods + [pods[|pods| - 1].name])])
  {
    var after := status[k := status[k].(pods := status[k].pods + [pods[|pods| - 1].name])];
    SameDCs(status, after);
    forall dc | dc != status[k].dc ensures RunningIn(pods, dc) == RunningIn(pods[..|pods| - 1], dc) {
    }
    assert HasEntry(status, status[k].dc);
  }

  lemma GroupedNew(pods: seq<Pod>, status: seq<Entry>)
    requires pods != [] && pods[|pods| - 1].maintenance && Grouped(pods[..|pods| - 1], status)
    requires !HasEntry(status, pods[|pods| - 1].dc)
    ensures Grouped(pods, status + [Entry(pods[|pods| - 1].dc, [pods[|pods| - 1].name])])
  {
    var last := pods[|pods| - 1];
    var after := status + [Entry(last.dc, [last.name])];
    assert RunningIn(pods[..|pods| - 1], last.dc) == [];
    assert after[|status|].dc == last.dc;
    forall dc ensures RunningIn(pods, dc) != [] ==> HasEntry(after, dc) {
      if dc != last.dc && RunningIn(pods, dc) != [] {
        assert HasEntry(status, dc);
        var i :| 0 <= i < |status| && status[i].dc == dc;
        assert after[i].dc == dc;
      }
    }
    forall i | 0 <= i < |status| ensures status[i].dc != last.dc {
      assert HasEntry(status, status[i].dc);
    }
  }

  /******* Processing a request *******/

  /** inMaintenanceSpec */
  predicate Asked(spec: seq<Entry>, pod: string) {
    exists i :: 0 <= i < |spec| && pod in spec[i].pods
  }

  /** The pod is not where the spec wants it. */
  predicate Off(spec: seq<Entry>, p: Pod) {
    Asked(spec, p.name) != p.maintenance
  }

  class ConfigMap {
    var data: map<string, string>
    /** Pods whose phase was set to failed, so that they restart into maintenance. */
    var failed: set<string>
    /** Whether all requests succeed. */
    const reliable: bool

    constructor (data: map<string, string>, reliable: bool)
      ensures this.data == data && failed == {} && this.reliable == reliable
    {
      this.reliable := reliable;
      this.data, failed := data, {};
    }

    method Request() returns (ok: bool)
      ensures reliable ==> ok
    {
      ok := *;
      ok := ok || reliable;
    }

    /** processMaintenanceRequest serves the first pod that is off, and no other: its key is set
        or deleted as the spec says. */
    method ProcessMaintenanceRequest(spec: seq<Entry>, pods: seq<Pod>) returns (ok: bool, ghost first: nat)
      modifies this
      ensures first <= |pods| && forall k :: 0 <= k < first ==> !Off(spec, pods[k])
      ensures first < |pods| ==> Off(spec, pods[first])
      ensures first == |pods| ==> ok && data == old(data) && failed == old(failed)
      ensures first < |pods| ==>
                var name := pods[first].name;
                var served := if Asked(spec, name) then old(data)[name := "true"] else old(data) - {name};
                data in {old(data), served} && (ok ==> data == served)
      ensures failed != old(failed) ==> first < |pods| && Asked(spec, pods[first].name) && pods[first].cassandra
                                        && failed == old(failed) + {pods[first].name} && data == old(data)[pods[first].name := "true"]
      ensures ok && first < |pods| && Asked(spec, pods[first].name) && pods[first].cassandra ==> pods[first].name in failed
      ensures reliable ==> ok
    {
      for i := 0 to |pods|
        invariant forall k :: 0 <= k < i ==> !Off(spec, pods[k])
        invariant data == old(data) && failed == old(failed)
      {
        if Asked(spec, pods[i].name) && !pods[i].maintenance {
          ok := UpdateMaintenanceMode(true, pods[i]);
          return ok, i;
        } else if !Asked(spec, pods[i].name) && pods[i].maintenance {
          ok := UpdateMaintenanceMode(false, pods[i]);
          return ok, i;
        }
      }
      return true, |pods|;
    }

    method UpdateMaintenanceMode(enabled: bool, pod: Pod) returns (ok: bool)
      modifies this
      ensures var served := if enabled then old(data)[pod.name := "true"] else old(data) - {pod.name};
              data in {old(data), served} && (ok ==> data == served)
      ensures failed != old(failed) ==> enabled && pod.cassandra && failed == old(failed) + {pod.name}
                                        && data == old(data)[pod.name := "true"]
      ensures ok && enabled && pod.cassandra ==> pod.name in failed
      ensures reliable ==> ok
    {
      ok := Request();
      if !ok {
        return;
      }
      data := if enabled then data[pod.name := "true"] else data - {pod.name};
      if enabled && pod.cassandra {
        ok := Request();
        if ok {
          failed := failed + {pod.name};
        }
      }
    }
  }
}
