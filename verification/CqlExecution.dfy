/** Running the scripts of the CQL config maps: controllers/cql_configmaps.go:25-101. */
module CqlExecution {
  import opened CqlKeys
  import opened CqlScript

  const CHECKSUM := "cql-checksum"
  const REPAIR_KEYSPACE := "cql-repairKeyspace"

  function Get(annotations: map<string, string>, key: string): string {
    if key in annotations then annotations[key] else ""
  }

  /******* The order of execution *******/

  function QueriesOf(keys: seq<string>, data: map<string, string>): seq<string>
    requires forall k :: k in keys ==> k in data
  {
    if keys == [] then [] else QueriesOf(keys[..|keys| - 1], data) + Parsed(data[keys[|keys| - 1]])
  }

  /** The queries of all scripts in the order of their keys. */
  ghost function DataQueries(data: map<string, string>): seq<string> {
    QueriesOf(OrderedKeys(data), data)
  }

  lemma {:induction false} QueriesOfPrefix(keys: seq<string>, data: map<string, string>, i: nat)
    requires i <= |keys| && forall k :: k in keys ==> k in data
    ensures QueriesOf(keys[..i], data) <= QueriesOf(keys, data)
  {
    if i < |keys| {
      QueriesOfPrefix(keys[..|keys| - 1], data, i);
      assert keys[..|keys| - 1][..i] == keys[..i];
    } else {
      assert keys[..i] == keys;
    }
  }

  /** One script after the other. */
  lemma {:induction false} QueriesInOrder(keys: seq<string>, more: seq<string>, data: map<string, string>)
    requires (forall k :: k in keys ==> k in data) && (forall k :: k in more ==> k in data)
    ensures QueriesOf(keys + more, data) == QueriesOf(keys, data) + QueriesOf(more, data)
    ensures |keys| == 1 ==> QueriesOf(keys, data) == Parsed(data[keys[0]])
  {
    hide Parsed, QueriesOf;
    QueriesOfEnds(keys, data);
    QueriesOfEnds(more, data);
    QueriesOfEnds(keys + more, data);
    if more == [] {
      assert keys + more == keys;
    } else {
      QueriesInOrder(keys, more[..|more| - 1], data);
      assert (keys + more)[..|keys + more| - 1] == keys + more[..|more| - 1];
    }
  }

  lemma QueriesOfEnds(keys: seq<string>, data: map<string, string>)
    requires forall k :: k in keys ==> k in data
    ensures keys == [] ==> QueriesOf(keys, data) == []
    ensures keys != [] ==> QueriesOf(keys, data) == QueriesOf(keys[..|keys| - 1], data) + Parsed(data[keys[|keys| - 1]])
    ensures |keys| == 1 ==> QueriesOf(keys, data) == Parsed(data[keys[0]])
  {
    hide Parsed;
    if |keys| == 1 {
      assert keys[..0] == [];
    }
  }

  /******* Execution *******/

  /** What stays of the annotations after an execution: an empty checksum makes the
      code start from an empty map (cql_configmaps.go:64-67). */
  function Annotated(annotations: map<string, string>, checksum: string): map<string, string> {
    (if Get(annotations, CHECKSUM) == "" then map[] else annotations)[CHECKSUM := checksum]
  }

  /** The keyspace to repair survives exactly the executions after the first one. */
  lemma RepairKeyspaceSurvives(annotations: map<string, string>, checksum: string)
    ensures Get(Annotated(annotations, checksum), REPAIR_KEYSPACE) == Get(annotations, REPAIR_KEYSPACE)
            <==> Get(annotations, CHECKSUM) != "" || Get(annotations, REPAIR_KEYSPACE) == ""
  {
    assert CHECKSUM[4] != REPAIR_KEYSPACE[4];
  }

  lemma PrefixChain(start: seq<string>, done: seq<string>, next: seq<string>, all: seq<string>, now: seq<string>)
    requires done + next <= all && start + done <= now <= start + done + next
    ensures start <= now <= start + all
  {
  }

  datatype ConfigMap = ConfigMap(data: map<string, string>, annotations: map<string, string>)

  /** The scripts were executed as they are now. */
  predicate Settled(sum: map<string, string> -> string, cm: ConfigMap) {
    Get(cm.annotations, CHECKSUM) == sum(cm.data)
  }

  function Settle(sum: map<string, string> -> string, cm: ConfigMap): (settled: ConfigMap)
    ensures Settled(sum, settled) && settled.data == cm.data
  {
    if Settled(sum, cm) then cm else cm.(annotations := Annotated(cm.annotations, sum(cm.data)))
  }

  /** The annotation says that these scripts were executed; a missing annotation is an empty one. */
  predicate Executed(cm: ConfigMap, checksum: string) {
    if "cql-checksum" in cm.annotations then cm.annotations["cql-checksum"] == checksum else checksum == ""
  }

  /** The keyspace the config map names for repair, if it does. */
  function Named(cm: ConfigMap): seq<string> {
    if "cql-repairKeyspace" in cm.annotations && cm.annotations["cql-repairKeyspace"] != "" then [cm.annotations["cql-repairKeyspace"]]
    else []
  }

  /** The checksum is written down; the other annotations stay if there was one before. */
  predicate Marked(cm: ConfigMap, checksum: string, marked: ConfigMap) {
    && marked.data == cm.data && "cql-checksum" in marked.annotations && marked.annotations["cql-checksum"] == checksum
    && if "cql-checksum" in cm.annotations && cm.annotations["cql-checksum"] != ""
       then marked.annotations == cm.annotations["cql-checksum" := checksum]
       else marked.annotations.Keys == {"cql-checksum"}
  }

  lemma ConfigMapMeans(sum: map<string, string> -> string, cm: ConfigMap)
    ensures Executed(cm, sum(cm.data)) <==> Settled(sum, cm)
    ensures Settled(sum, cm) ==> Settle(sum, cm) == cm && RepairOf(sum, cm) == []
    ensures !Settled(sum, cm) ==> Marked(cm, sum(cm.data), Settle(sum, cm))
    ensures !Settled(sum, cm) ==> RepairOf(sum, cm) == Named(cm)
  {
  }

  lemma PendingOfMeans(sum: map<string, string> -> string, cm: ConfigMap)
    ensures PendingOf(sum, cm) == if Settled(sum, cm) then [] else DataQueries(cm.data)
  {
  }

  lemma RepairOfMeans(sum: map<string, string> -> string, cm: ConfigMap)
    ensures !Settled(sum, cm) ==>
              RepairOf(sum, cm) == if Get(cm.annotations, REPAIR_KEYSPACE) == "" then [] else [Get(cm.annotations, REPAIR_KEYSPACE)]
  {
  }

  /** The keyspaces to repair: those named by the config maps that are not settled. */
  function ToRepair(sum: map<string, string> -> string, configMaps: seq<ConfigMap>): seq<string> {
    if configMaps == [] then []
    else
      var last := configMaps[|configMaps| - 1];
      ToRepair(sum, configMaps[..|configMaps| - 1]) + RepairOf(sum, last)
  }

  function RepairOf(sum: map<string, string> -> string, cm: ConfigMap): seq<string> {
    if !Settled(sum, cm) && Get(cm.annotations, REPAIR_KEYSPACE) != "" then [Get(cm.annotations, REPAIR_KEYSPACE)] else []
  }

  lemma {:induction false} SettledNeedNothing(sum: map<string, string> -> string, configMaps: seq<ConfigMap>)
    ensures (forall i :: 0 <= i < |configMaps| ==> Settled(sum, configMaps[i])) ==>
              ToRepair(sum, configMaps) == [] && Pending(sum, configMaps) == []
  {
    if configMaps != [] {
      SettledNeedNothing(sum, configMaps[..|configMaps| - 1]);
    }
  }

  /** What a pass has to execute: the queries of the config maps that are not settled, in order. */
  ghost function Pending(sum: map<string, string> -> string, configMaps: seq<ConfigMap>): seq<string> {
    if configMaps == [] then []
    else Pending(sum, configMaps[..|configMaps| - 1]) + PendingOf(sum, configMaps[|configMaps| - 1])
  }

  ghost function PendingOf(sum: map<string, string> -> string, cm: ConfigMap): seq<string> {
    if Settled(sum, cm) then [] else DataQueries(cm.data)
  }

  lemma {:induction false} PendingPrefix(sum: map<string, string> -> string, configMaps: seq<ConfigMap>, i: nat)
    requires i <= |configMaps|
    ensures Pending(sum, configMaps[..i]) <= Pending(sum, configMaps)
  {
    hide PendingOf;
    if i < |configMaps| {
      PendingPrefix(sum, configMaps[..|configMaps| - 1], i);
      assert configMaps[..|configMaps| - 1][..i] == configMaps[..i];
    } else {
      assert configMaps[..i] == configMaps;
    }
  }

  class Scripts {
    /** The hash of the printed data. */
    const sum: map<string, string> -> string
    var configMaps: seq<ConfigMap>
    /** The queries Cassandra has accepted, in order. */
    var executed: seq<string>
    /** The keyspaces a repair was run for. */
    var repaired: seq<string>
    /** Whether all queries and requests succeed. */
    const reliable: bool

    constructor (sum: map<string, string> -> string, configMaps: seq<ConfigMap>, reliable: bool)
      ensures this.sum == sum && this.configMaps == configMaps && executed == [] && repaired == [] && this.reliable == reliable
    {
      this.reliable := reliable;
      this.sum, this.configMaps, executed, repaired := sum, configMaps, [], [];
    }

    method Request() returns (ok: bool)
      ensures reliable ==> ok
    {
      ok := *;
      ok := ok || reliable;
    }

    /** Queries run in the order of the keys and of each script; the first failure ends it. */
    method ExecuteCQLCMScripts(data: map<string, string>) returns (ok: bool)
      modifies `executed
      ensures old(executed) <= executed <= old(executed) + DataQueries(data)
      ensures ok ==> executed == old(executed) + DataQueries(data)
      ensures reliable ==> ok
    {
      hide InOrder, Parsed;
      var names := SortedKeys(data);
      for i := 0 to |names|
        invariant executed == old(executed) + QueriesOf(names[..i], data)
      {
        assert names[..i + 1][..i] == names[..i];
        QueriesOfPrefix(names, data, i + 1);
        ok := ExecuteScript(data[names[i]]);
        assert QueriesOf(names[..i + 1], data) == QueriesOf(names[..i], data) + Parsed(data[names[i]]);
        if !ok {
          PrefixChain(old(executed), QueriesOf(names[..i], data), Parsed(data[names[i]]), QueriesOf(names, data), executed);
          return;
        }
      }
      assert names[..|names|] == names;
      ok := true;
    }

    method ExecuteScript(script: string) returns (ok: bool)
      modifies `executed
      ensures old(executed) <= executed <= old(executed) + Parsed(script)
      ensures ok ==> executed == old(executed) + Parsed(script)
      ensures reliable ==> ok
    {
      hide Parsed;
      var queries := ParseCQLQueries(script);
      for j := 0 to |queries|
        invariant executed == old(executed) + queries[..j]
      {
        ok := Request();
        if !ok {
          return;
        }
        executed := executed + [queries[j]];
      }
      ok := true;
    }

    /** The body of the loop over the config maps. */
    method ExecuteConfigMap(cm: ConfigMap) returns (ok: bool, cm': ConfigMap)
      modifies `executed, `repaired
      ensures old(executed) <= executed <= old(executed) + PendingOf(sum, cm)
      ensures repaired in {old(repaired), old(repaired) + RepairOf(sum, cm)}
      ensures repaired != old(repaired) ==> executed == old(executed) + PendingOf(sum, cm)
      ensures ok ==> executed == old(executed) + PendingOf(sum, cm) && repaired == old(repaired) + RepairOf(sum, cm)
      ensures cm' == if ok then Settle(sum, cm) else cm
      ensures Settled(sum, cm) || reliable ==> ok
      ensures ok && Executed(cm, sum(cm.data)) ==> cm' == cm && executed == old(executed) && repaired == old(repaired)
      ensures ok && !Executed(cm, sum(cm.data)) ==>
                && executed == old(executed) + DataQueries(cm.data)
                && repaired == old(repaired) + Named(cm)
                && Marked(cm, sum(cm.data), cm')
    {
      hide Executed, Named, Marked, PendingOf, DataQueries, Settled, Settle, RepairOf;
      ConfigMapMeans(sum, cm);
      PendingOfMeans(sum, cm);
      if Settled(sum, cm) {
        return true, cm;
      }
      cm' := cm;
      ok := ExecuteCQLCMScripts(cm.data);
      if !ok {
        return;
      }
      var keyspace := Get(cm.annotations, REPAIR_KEYSPACE);
      RepairOfMeans(sum, cm);
      if keyspace != "" {
        ok := Request();
        if !ok {
          return;
        }
        repaired := repaired + [keyspace];
      }
      ok := Request();
      if ok {
        cm' := Settle(sum, cm);
      }
    }

    /** The scripts of the config maps that are not settled are executed in order; a failure leaves a
        prefix. After a pass without errors every config map is settled and what they name is
        repaired; settled ones are left alone, and a pass over settled ones does nothing. */
    method ReconcileCQLConfigMaps() returns (ok: bool)
      modifies `configMaps, `executed, `repaired
      ensures |configMaps| == |old(configMaps)|
      ensures old(executed) <= executed <= old(executed) + Pending(sum, old(configMaps))
      ensures ok ==> executed == old(executed) + Pending(sum, old(configMaps))
      ensures forall i :: 0 <= i < |configMaps| ==> configMaps[i] in {old(configMaps)[i], Settle(sum, old(configMaps)[i])}
      ensures ok ==> forall i :: 0 <= i < |configMaps| ==> configMaps[i] == Settle(sum, old(configMaps)[i])
      ensures ok ==> repaired == old(repaired) + ToRepair(sum, old(configMaps))
      ensures reliable ==> ok
      ensures (forall i :: 0 <= i < |old(configMaps)| ==> Settled(sum, old(configMaps)[i])) ==>
                ok && executed == old(executed) && repaired == old(repaired)
    {
      hide Settle, RepairOf, Settled, PendingOf, Pending, ToRepair, Executed, Named, Marked, DataQueries;
      ghost var given := configMaps;
      NothingPending(sum, given);
      for i := 0 to |configMaps|
        invariant |configMaps| == |given|
        invariant forall k :: i <= k < |configMaps| ==> configMaps[k] == given[k]
        invariant forall k :: 0 <= k < i ==> configMaps[k] == Settle(sum, given[k])
        invariant executed == old(executed) + Pending(sum, given[..i])
        invariant repaired == old(repaired) + ToRepair(sum, given[..i])
      {
        OneMorePending(sum, given, i);
        var cm;
        ok, cm := ExecuteConfigMap(configMaps[i]);
        configMaps := configMaps[i := cm];
        if !ok {
          PrefixChain(old(executed), Pending(sum, given[..i]), PendingOf(sum, given[i]), Pending(sum, given), executed);
          return;
        }
      }
      assert given[..|configMaps|] == given;
      SettledNeedNothing(sum, given);
      ok := true;
    }
  }

  lemma NothingPending(sum: map<string, string> -> string, configMaps: seq<ConfigMap>)
    ensures Pending(sum, configMaps[..0]) == [] && ToRepair(sum, configMaps[..0]) == []
  {
  }

  lemma OneMorePending(sum: map<string, string> -> string, configMaps: seq<ConfigMap>, i: nat)
    requires i < |configMaps|
    ensures Pending(sum, configMaps[..i + 1]) == Pending(sum, configMaps[..i]) + PendingOf(sum, configMaps[i])
    ensures ToRepair(sum, configMaps[..i + 1]) == ToRepair(sum, configMaps[..i]) + RepairOf(sum, configMaps[i])
    ensures Pending(sum, configMaps[..i + 1]) <= Pending(sum, configMaps)
  {
    hide PendingOf, RepairOf;
    assert configMaps[..i + 1][..i] == configMaps[..i];
    PendingPrefix(sum, configMaps, i + 1);
  }
}
