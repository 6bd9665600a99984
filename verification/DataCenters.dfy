/** DCs as the spec lists them, and the names derived from them
    (controllers/names/names.go, cassandra_scaling.go:328-335). */
module DataCenters {
  import opened Text

  datatype DC = DC(name: string, replicas: nat)

  /** names.DC: the statefulset and the service of a DC. */
  function DCName(cluster: string, dc: string): string {
    cluster + "-cassandra-" + dc
  }

  /** Kubernetes names the pods of a statefulset by their ordinals. */
  function PodName(sts: string, ordinal: nat): string {
    sts + "-" + Itoa(ordinal)
  }

  lemma DCNameInjective(cluster: string, a: string, b: string)
    requires DCName(cluster, a) == DCName(cluster, b)
    ensures a == b
  {
    var prefix := cluster + "-cassandra-";
    assert a == DCName(cluster, a)[|prefix|..] && b == DCName(cluster, b)[|prefix|..];
  }

  /** An ordinal holds no dash, so a pod's name tells its statefulset and its ordinal. */
  lemma PodNameInjective(s: string, m: nat, t: string, n: nat)
    requires PodName(s, m) == PodName(t, n)
    ensures s == t && m == n
  {
    var x := PodName(s, m);
    LastDash(s, m);
    LastDash(t, n);
    assert s == x[..|s|] == t;
    assert Itoa(m) == x[|s| + 1..] == Itoa(n);
    ItoaInjective(m, n);
  }

  lemma LastDash(s: string, m: nat)
    ensures var x := PodName(s, m);
            |s| < |x| && x[|s|] == '-' && forall k :: |s| < k < |x| ==> x[k] != '-'
  {
    var x := PodName(s, m);
    forall k | |s| < k < |x| ensures x[k] != '-' {
      assert x[k] == Itoa(m)[k - |s| - 1];
    }
  }

  ghost predicate DistinctDCs(dcs: seq<DC>) {
    forall i, j :: 0 <= i < j < |dcs| ==> dcs[i].name != dcs[j].name
  }

  function DCNames(dcs: seq<DC>): set<string> {
    set i | 0 <= i < |dcs| :: dcs[i].name
  }

  /** dcsMap: the last entry of a name counts. */
  function DcsMap(dcs: seq<DC>): (m: map<string, nat>)
    ensures m.Keys == DCNames(dcs)
  {
    if dcs == [] then map[]
    else
      var last := dcs[|dcs| - 1];
      assert DCNames(dcs) == DCNames(dcs[..|dcs| - 1]) + {last.name};
      DcsMap(dcs[..|dcs| - 1])[last.name := last.replicas]
  }
}
