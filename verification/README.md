# The Cassandra operator's control logic, modelled and proved in Dafny

The operator keeps a Cassandra cluster in step with a `CassandraCluster` resource. Each reconcile pass
reads stores it does not own (Kubernetes objects, Cassandra's roles and keyspaces, Reaper's schedules, the
flags and node states of the probers), changes them one effect at a time, and may stop after any effect. This
project models the parts of that logic whose correctness is not visible from a single function body.

| area | modules | shape |
|---|---|---|
| bootstrap order of regions, DCs and nodes | `Bootstrap`, `BootstrapProtocol`, `BootstrapSafety`, `BootstrapProgress`, `BootstrapLiveness`, `BootstrapLabels`, `BootstrapSeeds`, `SeedNames` | decision functions and loops; a state machine of regions, pods and probers over all interleavings |
| scaling and DC removal | `DataCenters`, `Keyspaces`, `Scaling`, `ScalingReconciler`, `ScalingRuns`, `ScalingTermination`, `ScalingProgress` | a class with the pass's methods proved against a relation on the stores; runs of passes with changing specs |
| admin credential rotation | `AdminCredentials`, `AdminReconciler`, `AdminRotation`, `AdminEdits`, `AdminSuperusers` | a state machine of effects; a class whose methods extend its history by runs of that machine |
| CQL scripts | `CqlScript`, `CqlConservation`, `CqlRefinement`, `CqlAlignment`, `CqlRoundTrip`, `CqlRoundTripLists`, `CqlKeys`, `CqlExecution`, `CqlChecksum` | the scanner loop against a fold over lines; execution order and checksums |
| repairs | `RepairSchedules`, `Reschedule` | a class for Reaper's store; calendar arithmetic |
| prober | `ProberNodes` | a class with loops over maps in arbitrary order |
| seeds, maintenance, backups | `SeedLabels`, `Maintenance`, `Backup` | loops against order-free specifications |
| strings | `Text`, `TextLemmas`, `Option` | Go's string order, `sort.Strings`, `strings` and `bufio` helpers |

`dafny verify dfyconfig.toml` checks everything.

## How the world is modelled

Requests to Kubernetes, Cassandra, Reaper, Icarus or a prober are operations on explicit stores. Each may
fail, and then the method returns what the source returns. A request that took effect but was reported as
failed is covered too: the stores are those of a pass that stopped right after it. Failures, connection
outcomes and map iteration orders are nondeterministic choices. A constant of each class says whether all
requests succeed (`reliable`; `calm`, where nobody else acts either), so that contracts also say what the code
does when nothing fails. Where the source's guarantees rest on assumptions about the outside, they are stated
as named predicates:

* `BootstrapProtocol.Agreed`: regions list each other, a region that is alone uses no host ports, node names
  are unique in a region, a DC's replica count is the number of its nodes, and the set of nodes is fixed, so
  no scaling interrupts a pass. Readiness of a node is never lost during a run.
* `BootstrapProtocol.Init`: a run starts with any labels, except that a pod that is not ready carries no seed
  label its number does not give it (one left over from a larger `numSeeds`, say).
* `BootstrapProtocol.Observed` describes a pod list: complete, possibly out of date, with any labels set by
  then, and a listed seed reports its containers (a pass writes nothing while a pod has no address). Labels
  are part of the state: a pass labels pods one at a time after it has written the configuration, and may stop
  before, between and after. It announces readiness only in its last step.
* `BootstrapSafety.SeedsComeFirst`: in every DC the names of the seeds come before those of the other nodes.
  `BootstrapSeeds` says for which `numSeeds` and replica counts this is so.
* `BootstrapProgress.HasSeeds`: every region has a seed.
* `AdminCredentials.Init`: a run starts between passes with the user's credentials, or the active ones, or
  without an active secret the default ones, in force. Where storage or another region may tell that the
  cluster existed, the default ones do not count, since the code stores the user's credentials without a
  login; there the user's must work, or their role must still be free (`Creatable`: a region that joins others
  before these have created the role). This is assumed of the first state only. Which regions
  there are and whether storage is wanted does not change during a run; volume claims appear while there is
  an active secret, and stay.
* `AdminCredentials.EditSafe`: when users may edit their secret. Between passes this is: the active secret still
  logs in, or without one the default role does and nothing tells that the cluster existed.
  `AdminEdits.EditSafeExactlyWhen` shows that no weaker condition will do, between passes or under one.
* `AdminSuperusers.OthersKeepAdmins`: users name no existing role that is no superuser, the roles they provide
  leave those of the operator alone, and other regions make their role a superuser.
* `ScalingRuns.Step`: between passes users may alter any keyspace but `system_auth`, and other regions may set
  the keyspaces they manage; statefulsets are changed by the operator only. DC names of a spec are distinct, and so are pod names and broadcast addresses.
* `RepairSchedules.DistinctKeys`: Reaper starts with one operator schedule for a keyspace and its tables, and
  reports the settings it was sent. `DistinctWanted`, the same of the spec, is needed: from a store that has
  none of the wanted schedules a pass converges exactly when it holds.

## What came out differently from the documentation or the obvious expectation

* The lifecycle guide says that nodes boot one at a time and that only one DC at a time is scaled down. The
  code starts all seeds of a DC together (`OneJoinsAtATime` states exactly what is exclusive), and when
  several DCs leave one pass may shrink each of them by a node (`Scaling.OneDesiredLowered` limits desired
  DCs only).
* A pass writes the configuration before it labels the seeds. With three seeds and eleven pods the pod with
  ordinal 10 comes before the unlabelled seed with ordinal 2, and both can join together
  (`LateLabelBreaksOrder`). The order is kept exactly when the seeds' names come first
  (`OrderKeptExactlyWhenSeedsComeFirst`); that all joining nodes are of one DC holds in any case
  (`JoiningNodesShareDC`).
* A region announces itself only in a pass that got through the seed gate, so a restart of all probers takes
  two rounds of passes to undo (`FirstRoundOpensGates`, `SecondRoundAnnounces`).
* A seed whose pod does not exist puts an empty entry into the list that other regions read
  (`SeedListHoldsTheSeedAddresses`).
* The splitter does not treat a script as its lines joined and cut at semicolons: a query ended by a semicolon
  on a line of its own swallows the next query (`LoneSemicolonMergesQueries`). `Aligned` is the exact condition.
* A region with host ports and no managed regions imposes no order at all (`HostPortsAloneImposeNoOrder`).
* The seed gate counts a seed that reports no container as ready (`SeedGateExact`).
* Other regions learn a region's DCs from its spec, so they drop a leaving DC from `system_auth` while it still
  has nodes (`LeavingDCIsForgotten`). It stays there through all runs exactly when all other regions want it
  (`StaysExactlyWhenPeersWant`).
* An edit of the admin secret can lock the operator out although the default role works: when a pass stops
  between deletion and creation of the active secret, the next one stores the edited credentials without a
  login (`EditWithoutActiveSecretLocksOut`). The guide does not mention a time at which edits are unsafe.
* Two repairs of the spec with the same keyspace and tables are given two schedules, since the listing is from
  before the first was created (`ReconcileRepairSchedules`).
* A role named `cassandra` can never be given a new password through the secret of a fresh cluster
  (`DefaultRoleCannotBeRekeyed`).
* The checksum of a CQL config map is taken over a text that different scripts share as soon as there are two
  of them, or a single one that holds what reads as a later entry (`AmbiguousExactlyWhen`), and the first
  execution forgets the keyspace to repair (`RepairKeyspaceSurvives`).
* A backup resource is given the backups of another whose name ends with its own, and of some others
  (`NamesAreConfusedExactlyWhen`); several records without readable times are found as an empty one
  (`UnreadableTimesFindNothing`).
* With an unnamed DC in the spec the prober's nodes would depend on the order of a map walk
  (`OrderMattersExactlyWhen`); the resource definition requires names.

## Model

| member | source | states |
|---|---|---|
| BootstrapSafety.OneJoinsAtATime | controllers/cassandra_pods_config.go:129-226 | In every reachable state of any number of regions, with stale reads, late labels, crashes and prober restarts: where the seeds' names come first, two nodes past their pause and not ready are the same node or seeds of one DC, and a node that is no seed joins only when the seeds of its DC are ready. |
| BootstrapSafety.JoiningNodesShareDC | controllers/cassandra_pods_config.go:129-226 | Cross-region and cross-DC mutual exclusion for any names and labels: two joining nodes are of one DC, and the one with the larger name is a seed. |
| BootstrapSafety.JoinsInOrder | controllers/cassandra_pods_config.go:368-400 | Nobody overtakes, for any names and labels: in every reachable state everything that precedes a joining node (nodes of earlier regions in host order and of earlier DCs in spec order; for one that is no seed, the smaller names of its DC) is ready. |
| BootstrapLabels.OrderKeptExactlyWhenSeedsComeFirst | controllers/controller.go:240-264 | Over all reachable states: one node joins at a time, and seeds before others, exactly when in every DC the seeds' names come before the others'. |
| BootstrapSeeds.OrderKeptExactlyWhenNumbersFit | controllers/cassandra_pods_config.go:323-358 | The same in the numbers of the spec: the order is kept exactly when in every DC the number of seeds, as derived from `numSeeds` and the replicas, fits the replicas. |
| BootstrapSeeds.SeedsComeFirstExactlyWhen | controllers/cassandra_pod_labels.go:23-30 | For nodes that are the pods of the statefulsets and seeds that the label loop names, the seeds come first exactly when the numbers fit. |
| BootstrapSeeds.ThreeSeedsOfElevenDoNotFit | controllers/cassandra_pods_config.go:348-358 | Three seeds fit ten pods but not eleven; two seeds fit eleven. |
| BootstrapLabels.LateLabelBreaksOrder | controllers/cassandra_pod_labels.go:32-52 | For any seed named after another node of its DC, a run in which that node overtakes the unlabelled seed, and one in which both join together. |
| SeedNames.SeedNamesComeFirst | controllers/cassandra_pod_labels.go:23-30 | The names of a DC's seeds come first exactly when there are at most two seeds, no other pods, or only the last ten ordinals of their length are left for the others (at most ten pods, or ninety seeds of a hundred pods). |
| BootstrapSafety.RunKeepsInvariant | controllers/readiness.go:17-67 | In every reachable state, whatever labels the pods carried when they were listed, a region ever announced ready is ready, what running passes have read is sound, and it is every allowed node's turn. |
| BootstrapProtocol.OrderIsSound | controllers/cassandra_pods_config.go:129-178 | Whatever the age of the counts and answers a pass has read: the region is paused, or it is ready, or all earlier regions and all earlier DCs are ready. |
| BootstrapProtocol.ReleasedIsCleared | controllers/cassandra_pods_config.go:368-400 | A pod that a configuration does not pause is ready already or it is its turn, whichever seeds are labelled. |
| BootstrapProtocol.CountedIsReady | controllers/readiness.go:49-67 | A DC whose statefulset reported as many ready pods as the spec wants has all of its nodes ready. |
| BootstrapProtocol.HostsAgree | controllers/cassandra_pods_config.go:195-206 | All regions that list each other sort the same hosts. |
| BootstrapLiveness.BootstrapCanAlwaysFinish | controllers/cassandra_pods_config.go:228-258 | No deadlock: from every reachable state a continuation makes all nodes ready. |
| BootstrapLiveness.FirstRoundOpensGates | controllers/cassandra_pods_config.go:228-258 | One run of every region, each as far as the gates let it, publishes all DCs and seeds and so opens the gates. |
| BootstrapLiveness.SecondRoundAnnounces | controllers/readiness.go:17-47 | A second run of every region, through the open gates to its end, announces every ready region. |
| BootstrapLiveness.OneMoreNode | controllers/cassandra_init_containers.go:26-39 | While a node is unready, some continuation makes one more node ready; the number of unready nodes is the measure. |
| BootstrapProgress.CurrentPassReleases | controllers/cassandra_pods_config.go:368-400 | While it is a region's turn, a pass that sees things as they are leaves some unready node unpaused. |
| BootstrapLiveness.SeedlessRegionHoldsOthersBack | controllers/cassandra_pods_config.go:234-250 | If one region has no seed, no node of any other region is ever allowed to start. |
| Bootstrap.NextNonSeedPodToInit | controllers/cassandra_pods_config.go:300-321 | Finds the least-named unready non-seed pod of the DC at hand, or nothing. |
| Bootstrap.NextNonSeedIsLeast | controllers/cassandra_pods_config.go:300-321 | The choice means: a candidate no candidate precedes; nothing is chosen exactly when there is no candidate. |
| Bootstrap.PodsConfig | controllers/cassandra_pods_config.go:73-110 | One entry for each pod with its exact pause flag, and nothing while a pod has no address: all pods of a region that waits are paused, none when no DC is in turn; otherwise exactly those of the DC in turn run that are labelled seeds, or, once the gate is open, are initialized already or first in line. |
| Bootstrap.GetInitOrderInfo | controllers/cassandra_pods_config.go:129-193 | The order in terms of counts and answers: a region with host ports that is alone or ready pauses nobody, one with a listed smaller host not told ready waits, any other starts its first DC that is not ready; it fails exactly when a managed region does not answer. |
| Bootstrap.NextLocalDCIsFirst | controllers/cassandra_pods_config.go:208-216 | The DC to start is the first unready one in spec order, or none. |
| Bootstrap.FirstUnreadyIsFirst | controllers/cassandra_pods_config.go:218-226 | The region to start is the least host that is not known ready, or none. |
| Bootstrap.HostPortsAloneImposeNoOrder | controllers/cassandra_pods_config.go:143-145 | With host ports and no managed region no pod is ever paused. |
| Bootstrap.SeedGateExact | controllers/cassandra_pods_config.go:112-127 | When the seed gate is open the seeds are all ready exactly when each of them reports a container. |
| Bootstrap.SeedWithoutStatusesOpensTheGate | controllers/cassandra_pods_config.go:112-127 | A concrete pod list in which an unready seed lets a non-seed start. |
| Scaling.PodDecommissioned | controllers/cassandra_scaling.go:260-297 | Peer agreement: true exactly when all asked peers answered and at most one (none if the pod's DC is desired) still sees the pod live; a failed query gives no answer. |
| ScalingReconciler.Region.HandlePodDecommission | controllers/cassandra_scaling.go:178-257 | Replicas fall by one exactly when the last pod did not answer and is gone and the update succeeds; a last pod that answers and is not leaving has its decommission started, and one that leaves is awaited, when requests succeed; otherwise an error is returned. |
| ScalingReconciler.Region.RemoveDC | controllers/cassandra_scaling.go:299-326 | Removes the service or the statefulset, never both in one call; when requests succeed an existing service goes first, and the Reaper deployment with it. |
| ScalingReconciler.Region.DecommissionDCs | controllers/cassandra_scaling.go:157-175 | Leaving statefulsets shrink by confirmed nodes only and are removed only when empty; the others are untouched; the first one is served when requests succeed. |
| ScalingReconciler.Region.HandleDCsDecommission | controllers/cassandra_scaling.go:101-176 | Leaving DCs are touched only when no unmanaged keyspace uses them and the managed ones, `system_auth` aside, are moved away. |
| ScalingReconciler.Region.InUse | controllers/cassandra_scaling.go:120-133 | Blocks exactly when an unmanaged keyspace is replicated to a leaving DC. |
| ScalingReconciler.Region.UpdateKeyspaces | controllers/cassandra_scaling.go:135-155 | Changes managed keyspaces only; without errors each has the replication the spec asks for, stated of the spec itself: the smaller of three and its replicas for an own DC, the last told for DCs of others, the user's factors for an overridden keyspace, and no other DC; when told to, never `system_auth`. |
| ScalingReconciler.Region.ScaleDesiredDCs | controllers/cassandra_scaling.go:49-87 | Desired statefulsets are raised to the spec, at most one is lowered, by one; the first that is too large has the decommission of its last pod started or, once that is gone, is lowered, when requests succeed. |
| ScalingReconciler.Region.ReconcileCassandraScaling | controllers/cassandra_scaling.go:28-99 | What a scaling step may do to the stores, complete or cut short; it reports no scaling only when every statefulset is desired and, if pods are listed, at its spec count. |
| ScalingReconciler.Region.ReconcileDCStatefulSet | controllers/cassandra_statefulset.go:53-82 | Creates a missing statefulset with the spec's replicas and never changes the replicas of an existing one. |
| ScalingReconciler.Region.ReconcileCassandra | controllers/cassandra.go:23-34 | Creates what is missing and changes nothing else. |
| ScalingReconciler.Region.Reconcile | controllers/controller.go:264-377 | A whole pass stays within `PassStep` and starts decommissions only on last pods that are one too many or leave; one that gets to its end leaves nothing to scale and the managed keyspaces as the spec asks. When requests succeed it starts the decommission of the node in turn or takes it away once it has left, and gets to its end when nothing is left to scale. |
| ScalingRuns.ShrinksByOne | controllers/cassandra_scaling.go:210-234 | A step lowers a replica count by at most one, never below the spec, and only when the pod Kubernetes will delete did not answer and is gone. |
| ScalingRuns.EveryLostNodeWasGone | controllers/cassandra_scaling.go:178-234 | Over every run, each ordinal a statefulset has lost was confirmed gone in some pass as its last pod. |
| ScalingRuns.AtMostOneAPass | controllers/cassandra_scaling.go:49-87 | Over every run a replica count falls by at most the number of passes. |
| ScalingRuns.NeverBelowSpec | controllers/cassandra_scaling.go:49-87 | Over every run a replica count stays at or above any floor all specs want. |
| ScalingRuns.SystemAuthOutlivesNodes | controllers/controller.go:280-377 | Through all spec changes a DC of the region keeps its place in `system_auth` while its statefulset exists, unless a spec overrides `system_auth` or a pass of another region does not want the DC there. |
| ScalingRuns.WantedCoversLocalDC | controllers/keyspaces.go:72-91 | A spec keeps a local DC in `system_auth` exactly when it does not override the keyspace or its override names the DC. |
| ScalingRuns.PeersForgetLeavingDCs | controllers/helpers.go:133-167 | What another region wants for `system_auth` contains a DC leaving here, once no region tells it of that DC, exactly when it has a DC of this name itself, whatever other DCs third regions have. |
| ScalingRuns.StaysExactlyWhenPeersWant | controllers/keyspaces.go:26-59 | Over all runs with given specs of the other regions, a DC with nodes keeps its place in `system_auth` exactly when all of them want it there. |
| ScalingRuns.LeavingDCIsForgotten | controllers/helpers.go:133-167 | A leaving DC with nodes is lost to one pass of another region that has no such DC. |
| ScalingRuns.LeavingNodesAreUnused | controllers/cassandra_scaling.go:120-155 | When a leaving DC loses a node, no unmanaged keyspace uses it and the managed ones are as wanted. |
| ScalingTermination.PassNeverRaises | controllers/cassandra_scaling.go:49-98 | The measure (excess nodes, and for leaving DCs nodes, service and statefulset) never rises and falls with everything taken away. |
| ScalingTermination.ScaleDownTerminates | controllers/cassandra_scaling.go:299-326 | With a fixed spec at most as many passes take something away as the measure says at the start. |
| ScalingProgress.ScaleDown | controllers/cassandra_scaling.go:28-99 | Progress: from every state whose leaving DCs no unmanaged keyspace uses, passes of the code shrink the region to its spec, when requests succeed and a node leaves once a pass has started its decommission; the number of passes is bounded. |
| Scaling.WantedIsAsSpecified | controllers/keyspaces.go:72-91 | What is wanted of a keyspace is what the spec asks for, DC by DC. |
| ScalingTermination.MeasureZero | controllers/cassandra_scaling.go:49-98 | The measure is zero exactly when every statefulset is desired and none is too large. |
| Keyspaces.DesiredReplicationOptions | controllers/keyspaces.go:72-91 | The loop computes the desired options. |
| Keyspaces.DesiredOptionsCover | controllers/keyspaces.go:72-91 | Without an override a keyspace is replicated to every known DC and to no other. |
| Keyspaces.DesiredFactors | controllers/keyspaces.go:72-91 | A known DC gets three replicas or as many as it has nodes, if fewer; an overridden keyspace the factors of the override; the last entry of a name counts. |
| Keyspaces.DesiredKeyspacesToReconcile | controllers/keyspaces.go:93-112 | Starts with the base keyspaces and adds each configured one once. |
| AdminCredentials.NeverLockedOut | controllers/admin_auth.go:30-289 | In every state of every run Cassandra accepts the desired credentials or those of the active secret, or the defaults when there is none; only in a region that joined others before the role existed may the desired credentials be still to be created. |
| AdminCredentials.RunKeepsInvariant | controllers/admin_auth.go:36-289 | In every reachable state the credentials that must work do, and the running pass stands where its reads allow, although the first active secret is stored without a login. |
| AdminEdits.EditSafeExactlyWhen | controllers/admin_auth.go:81-289 | In any state between or under passes: every edit of the user's secret is safe over all continuations exactly when `EditSafe` holds; otherwise some edit and this region's passes alone lock everyone out. |
| AdminEdits.IdleEditSafeExactlyWhen | controllers/admin_auth.go:81-203 | Between passes every edit is safe exactly when the active secret still logs in, or without one the default role does and neither storage nor another region tells that the cluster existed. |
| AdminRotation.DropFollowsLogin | controllers/default_role.go:14-56 | The default role is dropped only in a pass that has logged in with the desired credentials, and somebody can still log in afterwards. |
| AdminSuperusers.DropLeavesSuperuser | controllers/role_admin.go:73-84 | Whenever a pass drops the default role a superuser is left that accepts the user's or the active credentials, and the desired ones unless the secret was edited since. |
| AdminSuperusers.SuperuserIsKnown | controllers/admin_auth.go:205-243 | In every state of every run some known credentials are those of a superuser. |
| AdminRotation.FinishesExactlyWhenItCan | controllers/role_admin.go:12-102 | Left alone a region brings the user's credentials into force exactly when they work already, their role is free, or it is the role of other credentials that are active. |
| AdminRotation.EditUnderAPassLocksOut | controllers/admin_auth.go:64-76 | A run in which editing the secret under a running pass locks everyone out. |
| AdminRotation.EditWhileUnsettledLocksOut | controllers/admin_auth.go:164-203 | A run in which editing the secret between role change and new active secret locks everyone out. |
| AdminRotation.EditWithoutActiveSecretLocksOut | controllers/admin_auth.go:115-141 | A run in which the active secret is missing after a stopped pass, the default role and the user's credentials work, and an edit locks everyone out, since the next pass finds storage or another region and stores the edited credentials unseen. |
| AdminRotation.DefaultRoleCannotBeRekeyed | controllers/admin_auth.go:53-62 | On a cluster that still has the default role another password for it can never come into force. |
| AdminReconciler.Cluster.ReconcileAdminAuth | controllers/admin_auth.go:30-79 | Extends the history by a run of the protocol; on success the active secret holds the desired credentials or the defaults are still in use. |
| AdminReconciler.Cluster.ExistingCluster | controllers/admin_auth.go:93-123 | Says that the cluster existed exactly when there are volume claims or an unmanaged region or a managed one said that it is ready; no login is made. |
| AdminReconciler.Cluster.CreateClusterAdminSecrets | controllers/admin_auth.go:81-144 | The first active secret holds the desired credentials exactly when claims, an unmanaged region or a ready managed one tell of an earlier cluster, else the defaults; the listing and the creation may fail, the creation also after it took effect. |
| AdminReconciler.Cluster.HandleAdminRoleChange | controllers/admin_auth.go:164-203 | Extends the history by a run of the protocol; on success the active secret holds the desired credentials. |
| AdminReconciler.Cluster.UpdateAdminRoleInCassandra | controllers/admin_auth.go:205-243 | Extends the history by a run of the protocol; on its own step an existing role is given the desired password and keeps login and superuser, a new one has both; left alone it succeeds exactly when the desired credentials work, or the active ones do and the desired role is theirs or free. |
| AdminReconciler.Cluster.ReconcileActiveAdminSecret | controllers/admin_auth.go:245-289 | Deletes and recreates the immutable secret; on success it holds the given credentials. |
| AdminReconciler.Cluster.ReconcileAdminRole | controllers/role_admin.go:12-59 | Extends the history by a run of the protocol; on success the active secret holds the desired credentials, with or without a session. |
| AdminReconciler.Cluster.CreateAdminRoleInCassandra | controllers/role_admin.go:61-89 | Creates the desired role, with the desired password, login and superuser, in a session of the default role; left alone it succeeds exactly when the default role works and the desired one is free. |
| AdminReconciler.Cluster.RemoveDefaultRoleIfExists | controllers/default_role.go:14-56 | The method's only own step is the drop of the default role, as its last and only while the secret asks for another role; left alone it drops the role exactly when its default password works and the secret asks for another. |
| AdminReconciler.Cluster.Reconcile | controllers/controller.go:184-390 | A pass is a run of the protocol; one that reports success has logged in with what the active secret then holds. Left alone it succeeds exactly when the user's credentials can come into force at all, and then they are active and work and the default credentials do not. |
| AdminReconciler.RunPasses | controllers/admin_auth.go:30-289 | Any number of passes, failing anywhere, with users and other regions in between, never locks out, from every start that `Init` admits. |
| CqlScript.ParseCQLQueries | controllers/cql_configmaps.go:103-183 | The scanner loop computes the fold over lines that the results below are about. |
| CqlScript.CommentsAreSkipped | controllers/cql_configmaps.go:108-118 | Blank lines and lines that begin with two dashes count for nothing, wherever they stand. |
| CqlConservation.ParsedConserves | controllers/cql_configmaps.go:103-183 | For every script the queries, spaces erased, are the code lines with spaces and semicolons erased, in order; every query is visible and free of semicolons. |
| CqlAlignment.ParsedMeetsSpecExactlyWhenAligned | controllers/cql_configmaps.go:103-183 | The queries, trimmed, are those of the simple specification (drop blank and comment lines, join, cut at semicolons, drop blank pieces) exactly when the script is aligned. |
| CqlAlignment.NoLeadingSemicolonIsAligned | controllers/cql_configmaps.go:103-183 | A script in which every line with a semicolon has visible text before the first one is aligned. |
| CqlAlignment.LoneSemicolonMergesQueries | controllers/cql_configmaps.go:103-183 | A script of three lines for which the splitter and the specification differ. |
| CqlRoundTrip.PrintThenParse | controllers/cql_configmaps.go:103-183 | Printing printable queries, each with a semicolon and a newline, and parsing returns the same list. |
| CqlRoundTrip.SurvivesExactlyWhenPrintable | controllers/cql_configmaps.go:103-183 | A single query survives printing and parsing exactly when it is printable. |
| CqlRoundTripLists.ListSurvivesExactlyWhenPrintable | controllers/cql_configmaps.go:103-183 | A list of queries survives printing and parsing exactly when every query in it is printable. |
| CqlExecution.Scripts.ExecuteCQLCMScripts | controllers/cql_configmaps.go:77-101 | Executes the queries in the order of the sorted keys and of each script; a failure leaves a prefix executed. |
| CqlExecution.QueriesInOrder | controllers/cql_configmaps.go:85-101 | The queries of one script follow those of the one before. |
| CqlKeys.OrderIsUnique | controllers/cql_configmaps.go:78-84 | The order of execution does not depend on the order in which the map is walked. |
| CqlKeys.SortedKeys | controllers/cql_configmaps.go:78-84 | Gathering the keys in any order and sorting them gives that one order. |
| CqlExecution.Scripts.ExecuteConfigMap | controllers/cql_configmaps.go:38-70 | A config map whose checksum annotation does not match has its queries executed and the named keyspace repaired, and only then is its checksum written; a failure leaves a prefix executed and the map as it was. |
| CqlExecution.Scripts.ReconcileCQLConfigMaps | controllers/cql_configmaps.go:26-75 | Executes the queries of exactly the unsettled config maps, in order, and a prefix of them on failure; without errors every map is settled and the named keyspaces are repaired; a pass over settled ones does nothing. |
| CqlExecution.RepairKeyspaceSurvives | controllers/cql_configmaps.go:63-67 | The keyspace to repair survives an execution exactly when there was a checksum before. |
| CqlChecksum.AmbiguousExactlyWhen | controllers/cql_configmaps.go:41-46 | Other scripts have the same checksum text exactly when there are two scripts or more, or the only one holds what reads as an entry with a later key. |
| CqlChecksum.DifferentScriptsSameChecksum | controllers/cql_configmaps.go:41-46 | Two such sets of scripts: an edit from one to the other is never executed. |
| RepairSchedules.Reaper.ReconcileRepairSchedules | controllers/repair_schedules.go:20-78 | Wherever a pass stops other owners' schedules are as they were, no repair has two schedules and each deletion follows a pause; without errors schedules and repairs correspond; once they do a pass writes nothing; disabled, all operator schedules go. From a store with none of the wanted schedules an error-free pass converges exactly when no two repairs have one keyspace and the same tables. |
| RepairSchedules.ConvergedIsBijection | controllers/repair_schedules.go:20-78 | Each repair has exactly one schedule, which is the schedule of no other repair. |
| RepairSchedules.ConvergedFits | controllers/repair_schedules.go:147-169 | In a converged store every repair has a schedule with all of its settings, and every schedule of the operator has those of a repair. |
| RepairSchedules.ConvergedSettingsAgree | controllers/repair_schedules.go:51-69 | Repairs with one key and another interval, datacenters, mode, threads, parallelism or intensity can never be converged. |
| RepairSchedules.Reaper.ReconcileRepair | controllers/repair_schedules.go:51-75 | Serves one repair by keeping, replacing or creating its schedule, and touches no other; what the listing does not hold is created once more. |
| RepairSchedules.Reaper.RepairsToDelete | controllers/repair_schedules.go:80-96 | Exactly the schedules no wanted repair matches. |
| RepairSchedules.Reaper.RemoveRepairSchedule | controllers/repair_schedules.go:98-109 | Pauses, then deletes; on success both happened in this order. |
| RepairSchedules.Reaper.CreateRepairSchedule | controllers/repair_schedules.go:111-122 | Stores a schedule with the settings of the repair, field by field, under a fresh id with the prepared trigger, which can be read and does not lie in the past. |
| RepairSchedules.Reaper.OperatorSchedules | controllers/repair_schedules.go:124-133 | Lists exactly the operator's schedules, in any order. |
| RepairSchedules.SameRepair | controllers/repair_schedules.go:139-145 | True exactly for one keyspace and the same tables counted with multiplicity; both table lists end up sorted. |
| RepairSchedules.SortedEqualIsMatches | controllers/repair_schedules.go:135-169 | Comparing the sorted records decides whether the schedule is the one wanted, whatever the table order. |
| Reschedule.Repair.RescheduleTimestamp | controllers/repair_schedules.go:189-224 | A past trigger becomes the instant not before now and less than a week from now that is whole weeks away from it, any other is unchanged; it fails exactly on a malformed one. |
| Reschedule.ShiftIsNext | controllers/repair_schedules.go:203-221 | The shift in days lies between 0 and 7 and, with the trigger's time of day, gives the next occurrence. |
| Reschedule.NextOccurrenceIsLeast | controllers/repair_schedules.go:171-188 | The next occurrence is the least instant from now on that is whole weeks away from the trigger. |
| Reschedule.HmsOrder | controllers/repair_schedules.go:201-217 | Comparing the texts of two times of day compares the times. |
| Reschedule.RescheduleIdempotent | controllers/repair_schedules.go:171-188 | Rescheduling again at the same moment changes nothing, and future triggers are unchanged. |
| Reschedule.Repair.PrepareForReaper | controllers/repair_schedules.go:111-116 | Reaper is sent a rescheduled trigger, or none when it is malformed. |
| Reschedule.PreparedIsDue | controllers/repair_schedules.go:111-116 | Reaper gets no trigger that is malformed or past, and gets one exactly when a readable one was given. |
| ProberNodes.Prober.UpdateNodeStates | prober/prober/node_states.go:72-147 | The nodes after a poll are those left by a walk over all answers in some order; with named DCs these are, for every order, the nodes that answered for themselves and the unpolled nodes of own DCs named in an answer. |
| ProberNodes.ReadyAfterPoll | prober/prober/node_states.go:32-70 | After a poll a node is ready exactly when the healthy answers are not empty and all report it up. |
| ProberNodes.Prober.IsNodeReady | prober/prober/node_states.go:32-70 | The counting loop decides readiness as defined without order, and reports every node's view. |
| ProberNodes.HealthyMeans | prober/prober/node_states.go:32-70 | A node is healthy when gossip says it is normal and it says itself that it is up, in letters of either case. |
| ProberNodes.Prober.ProcessReadinessProbe | prober/prober/node_states.go:20-29 | Registering an unknown node does not change the verdict. |
| ProberNodes.RegisteringKeepsVerdicts | prober/prober/node_states.go:20-29 | Registering an unknown node changes nobody's verdict. |
| ProberNodes.Prober.AllNodesStates | prober/prober/node_states.go:127-147 | One answer for each known node; a failed request counts as a server error. |
| ProberNodes.FailedPollForgets | prober/prober/node_states.go:104-121 | A polled node that fails to answer is forgotten, whoever names it. |
| ProberNodes.OrderMattersExactlyWhen | prober/prober/node_states.go:91-121 | Over all walk orders: some keep an unpolled node and some lose it exactly when one answer places it in a named DC of ours and another in an unnamed one. |
| SeedLabels.ReconcileCassandraPodLabels | controllers/cassandra_pod_labels.go:13-55 | Without errors exactly the seeds are labelled, new labels with the pod's name; correct labels cause no update; it succeeds when updates do. |
| SeedLabels.GetLocalSeedsHostnames | controllers/cassandra_pods_config.go:323-366 | The seed list has one entry for each seed pod, in the same order: its address, or with host ports off its name in its service and namespace, spelled out. |
| SeedLabels.SeedPodNames | controllers/cassandra_pod_labels.go:23-30 | The label loop names the same seed pods. |
| SeedLabels.SeedPodsMembers | controllers/cassandra_pod_labels.go:23-30 | A pod's name is a seed's exactly when its ordinal is below the number of seeds of its own DC. |
| SeedLabels.EveryDCHasSeedAndOther | controllers/cassandra_pods_config.go:348-358 | Every DC with pods has a seed, every DC with two or more keeps a pod that is not. |
| SeedLabels.HostTellsPod | controllers/cassandra_pods_config.go:360-366 | Without host ports an entry of the seed list belongs to one pod only. |
| SeedLabels.SeedListNamesTheSeeds | controllers/cassandra_pods_config.go:323-366 | Without host ports a pod is named by the seed list exactly when the label loop labels it. |
| SeedLabels.SeedListHoldsTheSeedAddresses | controllers/cassandra_pods_config.go:323-366 | With host ports an existing pod's address is in the list exactly when the label loop labels it, and an entry is empty exactly when its seed pod does not exist. |
| SeedLabels.NumberOfSeeds | controllers/cassandra_pods_config.go:348-358 | The number of seeds of a DC: as wanted, but one pod of two and more is no seed. |
| Maintenance.GenerateMaintenanceStatus | controllers/maintenance.go:158-189 | One entry for each DC that runs maintenance, with all of its pods in order. |
| Maintenance.StatusIsPartition | controllers/maintenance.go:158-189 | Each pod running maintenance occurs in the entry of its DC as often as in the list; every such DC has an entry. |
| Maintenance.StatusIsUnique | controllers/maintenance.go:158-189 | The entries are determined by the pod list. |
| Maintenance.ConfigMap.ProcessMaintenanceRequest | controllers/maintenance.go:114-156 | Serves the first pod that is not where the spec wants it, toward the spec, and changes no other key; on success a running Cassandra pod that enters maintenance was set to failed; it succeeds when requests do. |
| Backup.FindRelatedBackup | controllers/cassandrabackup/backup.go:49-103 | Found exactly when a coordinator record bears the backup's tag, or the resource's name without one, or holds it with the schema version; the record found is one of these and the latest of them, the first of equals; a single one is returned as it is. |
| Backup.UnreadableTimesFindNothing | controllers/cassandrabackup/backup.go:77-103 | Of several related records the answer is empty exactly when no creation time parses. |
| Backup.NamesAreConfusedExactlyWhen | controllers/cassandrabackup/backup.go:60-63 | Exactly when a coordinator record counts as related that is tagged with another name, or with it, the schema version and any further text, in terms of the two names, the version and that text. |
| Backup.UuidsDoNotOverlap | controllers/cassandrabackup/backup.go:60-63 | A schema version in the form of a UUID never overlaps itself, and runs on into further text only when it stands there once more. |
| Backup.SuffixNamesAreConfused | controllers/cassandrabackup/backup.go:60-63 | A record of another resource whose name ends with this one's counts as related. |

## Left out

- ScaleDown: that nodes whose decommission was started do leave in the end is assumed of the answers; statefulsets are taken to carry the names of their DCs.
- ReconcileRepairSchedules: nothing is said of a spec with repeated repairs over a store that has some of them already.
- Reconcile: the pass over statefulsets and keyspaces is atomic with respect to changes of the spec, since a pass works on one copy of it; nil replica counts are taken as defaulted by Kubernetes.
- PodDecommissioned: pods are told apart by name; distinct pods are taken to have distinct broadcast addresses.
- UpdateNodeStates: polls and probes are atomic, since the source does not synchronize them.
- OperatorSchedules: the settings Reaper reports are those it was sent; a Reaper that reports a segment count or reorders the datacenters makes every pass replace the schedule.
- RescheduleTimestamp: instants are numbers of seconds in UTC; the text of calendar dates and other time zones are not modelled.
- ParseCQLQueries: lines are of any length (the scanner of the source stops at 64 KiB), and a semicolon always separates, as in the source, also inside quotes.
- Init: wrong seed labels on pods that are not ready, and changes of the spec's regions or storage during credential rotation, are not modelled.
- ReconcileAdminRole: a login that fails after the role was created leaves the pass without a session, and the pass ends there (role_admin.go:42-53); roles of the user are assumed not to name an admin role.
- HTTP, CQL, JMX and Jolokia clients, and the retries around them.
- Kubernetes objects other than those named above: builders, comparers, RBAC, ingress, monitors, network policies, volumes, TLS material and webhooks.
- The at-most-once bookkeeping of decommission jobs: jobs are never recorded, so a decommission may be started again in every pass.
- The Reaper gate between regions (readiness.go:87-110) and the reconciliation of user roles: single decisions about one flag or one row.
- Restores, and the detection of changed backup settings.
- Logging, events, metrics and delays.
