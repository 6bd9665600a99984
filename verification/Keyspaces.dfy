/** Replication settings of the system keyspaces: controllers/keyspaces.go. */
module Keyspaces {
  import opened Option
  import opened Text

  /** A DC of any region; one that tells no replica count gets the default factor. */
  datatype Site = Site(name: string, replicas: Option<nat>)

  datatype Override = Override(name: string, rf: nat)

  /** `spec.systemKeyspaces` and the keyspace of Reaper. */
  datatype Settings = Settings(reaperKeyspace: string, keyspaces: seq<string>, dcs: seq<Override>)

  type Replication = map<string, string>

  const SYSTEM_AUTH := "system_auth"
  const DEFAULT_RF := 3
  const CLASS := "class"
  const NETWORK_TOPOLOGY := "org.apache.cassandra.locator.NetworkTopologyStrategy"

  /** The user decides about this keyspace. */
  predicate Overridden(settings: Settings, keyspace: string) {
    settings.dcs != [] && keyspace in settings.keyspaces
  }

  function Factor(site: Site): string {
    if site.replicas.Some? && site.replicas.value < DEFAULT_RF then Itoa(site.replicas.value) else Itoa(DEFAULT_RF)
  }

  function FromSites(sites: seq<Site>): Replication {
    if sites == [] then map[]
    else FromSites(sites[..|sites| - 1])[sites[|sites| - 1].name := Factor(sites[|sites| - 1])]
  }

  function FromOverrides(dcs: seq<Override>): Replication {
    if dcs == [] then map[]
    else FromOverrides(dcs[..|dcs| - 1])[dcs[|dcs| - 1].name := Itoa(dcs[|dcs| - 1].rf)]
  }

  function DesiredOptions(settings: Settings, keyspace: string, sites: seq<Site>): Replication {
    (if Overridden(settings, keyspace) then FromOverrides(settings.dcs) else FromSites(sites))[CLASS := NETWORK_TOPOLOGY]
  }

  method DesiredReplicationOptions(settings: Settings, keyspace: string, sites: seq<Site>) returns (options: Replication)
    ensures options == DesiredOptions(settings, keyspace, sites)
  {
    options := map[];
    if |settings.dcs| > 0 && keyspace in settings.keyspaces {
      for i := 0 to |settings.dcs|
        invariant options == FromOverrides(settings.dcs[..i])
      {
        assert settings.dcs[..i + 1][..i] == settings.dcs[..i];
        options := options[settings.dcs[i].name := Itoa(settings.dcs[i].rf)];
      }
      assert settings.dcs[..|settings.dcs|] == settings.dcs;
    } else {
      for i := 0 to |sites|
        invariant options == FromSites(sites[..i])
      {
        var rf := Itoa(DEFAULT_RF);
        if sites[i].replicas.Some? && sites[i].replicas.value < DEFAULT_RF {
          rf := Itoa(sites[i].replicas.value);
        }
        assert sites[..i + 1][..i] == sites[..i];
        options := options[sites[i].name := rf];
      }
      assert sites[..|sites|] == sites;
    }
    options := options[CLASS := NETWORK_TOPOLOGY];
  }

  lemma {:induction false} FromSitesKeys(sites: seq<Site>, x: string)
    ensures x in FromSites(sites) <==> exists i :: 0 <= i < |sites| && sites[i].name == x
  {
    if sites != [] {
      FromSitesKeys(sites[..|sites| - 1], x);
    }
  }

  /** Unless the user overrides it, a keyspace is replicated to every DC, and no others. */
  lemma DesiredOptionsCover(settings: Settings, keyspace: string, sites: seq<Site>, x: string)
    requires !Overridden(settings, keyspace)
    ensures x in DesiredOptions(settings, keyspace, sites) <==> x == CLASS || exists i :: 0 <= i < |sites| && sites[i].name == x
  {
    FromSitesKeys(sites, x);
  }

  /** The last entry of a name counts. */
  ghost predicate LastSite(sites: seq<Site>, i: nat) {
    i < |sites| && forall k :: i < k < |sites| ==> sites[k].name != sites[i].name
  }

  ghost predicate LastOverride(dcs: seq<Override>, i: nat) {
    i < |dcs| && forall k :: i < k < |dcs| ==> dcs[k].name != dcs[i].name
  }

  /** A DC is given three replicas, or as many as it has nodes if these are fewer; what the user overrides
      is given the user's factor. */
  lemma DesiredFactors(settings: Settings, keyspace: string, sites: seq<Site>, i: nat)
    ensures !Overridden(settings, keyspace) && LastSite(sites, i) && sites[i].name != CLASS ==>
              var options, replicas := DesiredOptions(settings, keyspace, sites), sites[i].replicas;
              && sites[i].name in options
              && (replicas.Some? && replicas.value <= 3 ==> options[sites[i].name] == Itoa(replicas.value))
              && (replicas.None? || replicas.value >= 3 ==> options[sites[i].name] == "3")
    ensures Overridden(settings, keyspace) && LastOverride(settings.dcs, i) && settings.dcs[i].name != CLASS ==>
              var options := DesiredOptions(settings, keyspace, sites);
              settings.dcs[i].name in options && options[settings.dcs[i].name] == Itoa(settings.dcs[i].rf)
  {
    if Overridden(settings, keyspace) {
      if LastOverride(settings.dcs, i) {
        FromOverridesAt(settings.dcs, i);
      }
    } else if LastSite(sites, i) {
      FromSitesAt(sites, i);
      assert Itoa(3) == "3";
    }
  }

  lemma {:induction false} FromSitesAt(sites: seq<Site>, i: nat)
    requires LastSite(sites, i)
    ensures sites[i].name in FromSites(sites) && FromSites(sites)[sites[i].name] == Factor(sites[i])
  {
    var init := sites[..|sites| - 1];
    if i < |init| {
      assert init[i] == sites[i] && sites[|init|].name != sites[i].name;
      FromSitesAt(init, i);
    }
  }

  lemma {:induction false} FromOverridesAt(dcs: seq<Override>, i: nat)
    requires LastOverride(dcs, i)
    ensures dcs[i].name in FromOverrides(dcs) && FromOverrides(dcs)[dcs[i].name] == Itoa(dcs[i].rf)
  {
    var init := dcs[..|dcs| - 1];
    if i < |init| {
      assert init[i] == dcs[i] && dcs[|init|].name != dcs[i].name;
      FromOverridesAt(init, i);
    }
  }

  lemma {:induction false} FromOverridesKeys(dcs: seq<Override>, x: string)
    ensures x in FromOverrides(dcs) <==> exists i :: 0 <= i < |dcs| && dcs[i].name == x
  {
    if dcs != [] {
      FromOverridesKeys(dcs[..|dcs| - 1], x);
    }
  }

  /** An overridden keyspace is replicated where the user says, and nowhere else. */
  lemma OverriddenCover(settings: Settings, keyspace: string, sites: seq<Site>, x: string)
    requires Overridden(settings, keyspace)
    ensures x in DesiredOptions(settings, keyspace, sites)
            <==> x == CLASS || exists i :: 0 <= i < |settings.dcs| && settings.dcs[i].name == x
  {
    FromOverridesKeys(settings.dcs, x);
  }

  function BaseKeyspaces(settings: Settings): seq<string> {
    [SYSTEM_AUTH, "system_distributed", "system_traces", settings.reaperKeyspace]
  }

  predicate Managed(settings: Settings, keyspace: string) {
    keyspace in BaseKeyspaces(settings) || keyspace in settings.keyspaces
  }

  method DesiredKeyspacesToReconcile(settings: Settings) returns (keyspaces: seq<string>)
    ensures forall x :: x in keyspaces <==> Managed(settings, x)
    ensures BaseKeyspaces(settings) <= keyspaces
    ensures forall i, j :: |BaseKeyspaces(settings)| <= i < |keyspaces| && 0 <= j < i ==> keyspaces[j] != keyspaces[i]
  {
    keyspaces := BaseKeyspaces(settings);
    for i := 0 to |settings.keyspaces|
      invariant BaseKeyspaces(settings) <= keyspaces
      invariant forall x :: x in keyspaces <==> x in BaseKeyspaces(settings) || x in settings.keyspaces[..i]
      invariant forall m, n :: |BaseKeyspaces(settings)| <= m < |keyspaces| && 0 <= n < m ==> keyspaces[n] != keyspaces[m]
    {
      assert settings.keyspaces[..i + 1] == settings.keyspaces[..i] + [settings.keyspaces[i]];
      if settings.keyspaces[i] !in keyspaces {
        keyspaces := keyspaces + [settings.keyspaces[i]];
      }
    }
    assert settings.keyspaces[..|settings.keyspaces|] == settings.keyspaces;
  }
}
