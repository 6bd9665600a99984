/** Admin credential rotation: controllers/admin_auth.go, role_admin.go, default_role.go.
    Cassandra's role table, the user's secret and the operator's immutable
    active-admin secret, changed one effect at a time by a reconcile pass that
    may stop after any of them, while users and other regions act in between. */
module AdminCredentials {
  import opened Option

  datatype Credentials = Credentials(role: string, password: string)

  /** The role a fresh Cassandra cluster is born with. */
  const DEFAULT_ROLE := "cassandra"
  const DEFAULT := Credentials(DEFAULT_ROLE, "cassandra")

  datatype Role = Role(password: string, login: bool, superuser: bool)

  /** What follows once the active secret holds the desired credentials. */
  datatype Stage = AfterRotation | AfterLogin(session: bool)

  /** Where a pass stands; `d` is the desired credentials it read from the user's secret. */
  datatype Pass =
    | Idle
    | Started(d: Credentials)
    | Rotating(d: Credentials, was: Credentials)
    | Verifying(d: Credentials)
    | Rewriting(d: Credentials, stage: Stage)
    | Recreating(d: Credentials, stage: Stage)
    | Settled(d: Credentials)
    | Bootstrapping(d: Credentials)
    | InSession(d: Credentials, session: bool)
    | Dropping(d: Credentials)

  /** The volume claims of the region: none are wanted, none are there yet, or some are. */
  datatype Storage = Disabled | Unclaimed | Claimed

  /** What may tell a pass that the cluster existed before. */
  datatype Traces = Traces(storage: Storage, unmanaged: bool, managed: nat)

  datatype State = State(
    roles: map<string, Role>,
    user: Credentials,
    active: Option<Credentials>,
    traces: Traces,
    pass: Pass)

  /** Storage or an unmanaged region: every pass finds these. */
  predicate SurelyExists(t: Traces) {
    t.storage.Claimed? || t.unmanaged
  }

  /** Of the managed regions any may be found ready, or none may answer. */
  predicate MayExist(t: Traces) {
    SurelyExists(t) || t.managed > 0
  }

  /** No pass will ever find anything. */
  predicate Traceless(t: Traces) {
    !MayExist(t) && t.storage.Disabled?
  }

  predicate Accepts(s: State, c: Credentials) {
    c.role in s.roles && s.roles[c.role].login && s.roles[c.role].password == c.password
  }

  function Superuser(password: string): Role {
    Role(password, true, true)
  }

  /** The credentials a pass falls back on: those of the active secret, or the defaults without one. */
  function LastKnown(s: State): Credentials {
    if s.active.Some? then s.active.value else DEFAULT
  }

  function Advance(d: Credentials, stage: Stage): Pass {
    match stage
    case AfterRotation => Settled(d)
    case AfterLogin(session) => InSession(d, session)
  }

  /******* Steps of a pass *******/

  ghost predicate Crash(s: State, s': State) {
    s' == s.(pass := Idle)
  }

  /** controller.go:167-192: an invalid secret starts no pass. */
  ghost predicate ReadSecret(s: State, s': State) {
    s.pass.Idle? && s.user.role != "" && s.user.password != "" && s' == s.(pass := Started(s.user))
  }

  /** admin_auth.go:36-47, 81-144. `provided` is: storage, an unmanaged region or a ready managed region
      was found; then the user's credentials are stored as they are, without a login. */
  ghost predicate FirstSecret(s: State, s': State, provided: bool) {
    && s.pass.Started? && s.active.None?
    && (if provided then MayExist(s.traces) else !SurelyExists(s.traces))
    && s' == s.(active := Some(if provided then s.pass.d else DEFAULT), pass := Settled(s.pass.d))
  }

  /** admin_auth.go:50-78. */
  ghost predicate CompareSecrets(s: State, s': State) {
    && s.pass.Started? && s.active.Some?
    && var d, a := s.pass.d, s.active.value;
       s' == s.(pass := if a == DEFAULT || a == d then Settled(d) else Rotating(d, a))
  }

  /** admin_auth.go:206-212. */
  ghost predicate AlreadyRotated(s: State, s': State) {
    s.pass.Rotating? && Accepts(s, s.pass.d) && s' == s.(pass := Verifying(s.pass.d))
  }

  /** admin_auth.go:214-240: CREATE ROLE fails when the role exists. */
  ghost predicate ChangeRole(s: State, s': State) {
    && s.pass.Rotating?
    && var d, a := s.pass.d, s.pass.was;
       && Accepts(s, a)
       && (a.role != d.role ==> d.role !in s.roles)
       && var role := if a.role == d.role then s.roles[a.role].(password := d.password) else Superuser(d.password);
          s' == s.(roles := s.roles[d.role := role], pass := Verifying(d))
  }

  /** admin_auth.go:176-197. */
  ghost predicate VerifyLogin(s: State, s': State) {
    s.pass.Verifying? && Accepts(s, s.pass.d) && s' == s.(pass := Rewriting(s.pass.d, AfterRotation))
  }

  /** admin_auth.go:264-286: create, leave alone, or delete in order to recreate. */
  ghost predicate RewriteActive(s: State, s': State) {
    && s.pass.Rewriting?
    && var d, stage := s.pass.d, s.pass.stage;
       s' == match s.active {
         case None => s.(active := Some(d), pass := Advance(d, stage))
         case Some(a) =>
           if a == d then s.(pass := Advance(d, stage))
           else s.(active := None, pass := Recreating(d, stage))
       }
  }

  /** admin_auth.go:279-282. */
  ghost predicate RecreateActive(s: State, s': State) {
    s.pass.Recreating? && s' == s.(active := Some(s.pass.d), pass := Advance(s.pass.d, s.pass.stage))
  }

  /** role_admin.go:14-27. */
  ghost predicate DesiredLogin(s: State, s': State) {
    s.pass.Settled? && Accepts(s, s.pass.d) && s' == s.(pass := Rewriting(s.pass.d, AfterLogin(true)))
  }

  /** role_admin.go:29-36. */
  ghost predicate DefaultLogin(s: State, s': State) {
    s.pass.Settled? && Accepts(s, DEFAULT) && s' == s.(pass := Bootstrapping(s.pass.d))
  }

  /** role_admin.go:61-89, then 41-52: the login that follows may fail unnoticed. */
  ghost predicate CreateAdminRole(s: State, s': State, session: bool) {
    && s.pass.Bootstrapping? && Accepts(s, DEFAULT) && s.pass.d.role !in s.roles
    && var d := s.pass.d;
       s' == s.(roles := s.roles[d.role := Superuser(d.password)],
                pass := Rewriting(d, AfterLogin(session)))
  }

  /** roles.go:101-128: user-provided roles, none of which names an admin role. */
  ghost predicate ApplyUserRoles(s: State, s': State) {
    && s.pass.InSession? && s.pass.session
    && s' == s.(roles := s'.roles, pass := Dropping(s.pass.d))
    && SameRole(s, s', s.pass.d.role) && SameRole(s, s', s.user.role)
  }

  ghost predicate SameRole(s: State, s': State, name: string) {
    (name in s.roles <==> name in s'.roles) && (name in s.roles ==> s.roles[name] == s'.roles[name])
  }

  /** default_role.go:14-55: the user's secret is read again here. */
  ghost predicate DropDefault(s: State, s': State) {
    && s.pass.Dropping? && Accepts(s, DEFAULT) && s.user != DEFAULT
    && s' == s.(roles := s.roles - {DEFAULT_ROLE}, pass := Idle)
  }

  ghost predicate PassStep(s: State, s': State) {
    || Crash(s, s')
    || ReadSecret(s, s')
    || (exists provided :: FirstSecret(s, s', provided))
    || CompareSecrets(s, s')
    || AlreadyRotated(s, s')
    || ChangeRole(s, s')
    || VerifyLogin(s, s')
    || RewriteActive(s, s')
    || RecreateActive(s, s')
    || DesiredLogin(s, s')
    || DefaultLogin(s, s')
    || (exists session :: CreateAdminRole(s, s', session) && (session ==> Accepts(s', s.pass.d)))
    || ApplyUserRoles(s, s')
    || DropDefault(s, s')
  }

  /******* Steps of the environment *******/

  /** The last known credentials log in, and no pass will replace them unseen: there is an active
      secret, or the next pass will put the defaults into it. */
  predicate LastKnownWorks(s: State) {
    Accepts(s, LastKnown(s)) && (s.active.None? ==> !MayExist(s.traces))
  }

  /** What is left of the running pass can do no harm on behalf of the secret it has read, whatever the
      user's secret says by now. It must not be on its way to a session with the default credentials,
      since it would drop the default role in the end. It must not change the password of the active
      role. And it must not delete the active secret: if it stops there, the next pass will store
      the user's credentials unseen, unless nothing can ever tell it that the cluster existed. */
  predicate Harmless(s: State) {
    var deletable := Traceless(s.traces) && Accepts(s, DEFAULT);
    match s.pass
    case Idle => true
    case Started(d) =>
      if s.active.Some? && s.active.value !in {DEFAULT, d} then RotationHarmless(s, d, s.active.value) else LoginHarmless(s, d)
    case Rotating(d, a) => RotationHarmless(s, d, a)
    case Verifying(d) => !Accepts(s, d) || (d != DEFAULT && deletable)
    case Rewriting(d, stage) =>
      (d != DEFAULT || stage == AfterLogin(false)) && (s.active == Some(d) || (Accepts(s, d) && deletable))
    case Recreating(d, stage) => (d != DEFAULT || stage == AfterLogin(false)) && Accepts(s, d)
    case Settled(d) => LoginHarmless(s, d)
    case Bootstrapping(d) => d.role in s.roles || Traceless(s.traces)
    case InSession(d, session) => d != DEFAULT || !session
    case Dropping(d) => d != DEFAULT
  }

  predicate RotationHarmless(s: State, d: Credentials, a: Credentials) {
    a.role != d.role
    && ((d.role in s.roles && !Accepts(s, d)) || (d != DEFAULT && Traceless(s.traces) && Accepts(s, DEFAULT)))
  }

  predicate LoginHarmless(s: State, d: Credentials) {
    d != DEFAULT && (s.active == Some(d) || Traceless(s.traces) || (d.role in s.roles && !Accepts(s, d)))
  }

  /** When users may edit their secret. Between passes it is enough that the last known credentials
      still log in. */
  predicate EditSafe(s: State) {
    LastKnownWorks(s) && Harmless(s)
  }

  predicate UserEdit(s: State, s': State) {
    EditSafe(s) && s' == s.(user := s'.user)
  }

  /** Another region, holding the same user secret, rotates or bootstraps first. */
  predicate PeerChangesRole(s: State, s': State) {
    && !Accepts(s, s.user) && Accepts(s', s.user)
    && s' == s.(roles := s.roles[s.user.role := s'.roles[s.user.role]])
  }

  /** Another region finishes its bootstrap and drops the default role. */
  predicate PeerDropsDefault(s: State, s': State) {
    && Accepts(s, s.user) && Accepts(s, DEFAULT) && s.user != DEFAULT
    && s' == s.(roles := s.roles - {DEFAULT_ROLE})
  }

  /** The first volume claim of a statefulset, which a pass creates only with the active secret in
      place (controller.go:192-264). Claims are never given up. */
  predicate StorageAppears(s: State, s': State) {
    s.active.Some? && s.traces.storage.Unclaimed? && s' == s.(traces := s.traces.(storage := Claimed))
  }

  predicate EnvironmentStep(s: State, s': State) {
    UserEdit(s, s') || PeerChangesRole(s, s') || PeerDropsDefault(s, s') || StorageAppears(s, s')
  }

  ghost predicate Next(s: State, s': State) {
    PassStep(s, s') || EnvironmentStep(s, s')
  }

  /** No pass runs, and the user's or the last known credentials work, or the user's are still to be
      created: a fresh cluster, one recreated over storage that knows the user's credentials, a region
      that joins others before or after these have created the role, or a region a pass has left. */
  ghost predicate Init(s: State) {
    s.pass.Idle? && (Accepts(s, s.user) || LastKnownWorks(s) || Creatable(s))
  }

  ghost predicate IsRun(run: seq<State>) {
    run != [] && Init(run[0]) && forall i :: 0 <= i < |run| - 1 ==> Next(run[i], run[i + 1])
  }

  /******* Safety *******/

  /** Somebody the operator knows of can still log in. */
  predicate NotLockedOut(s: State) {
    || Accepts(s, s.user)
    || (s.active.Some? && Accepts(s, s.active.value))
    || (s.active.None? && Accepts(s, DEFAULT))
  }

  /** The user's role does not exist yet, and passes are on their way to create it. A region that joins
      another one before that holds credentials in its active secret that do not work yet. */
  predicate Creatable(s: State) {
    && s.user.role !in s.roles && Accepts(s, DEFAULT) && s.active in {None, Some(DEFAULT), Some(s.user)}
    && (s.pass.Idle? || s.pass in {Started(s.user), Settled(s.user), Bootstrapping(s.user)})
  }

  /** Where the active secret stands at each point of a pass. */
  predicate Shape(s: State) {
    match s.pass
    case Rotating(d, a) => s.active == Some(a) && a !in {DEFAULT, d}
    case Verifying(d) => s.active.Some? && s.active.value !in {DEFAULT, d}
    case Rewriting(_, _) => s.active.Some?
    case Recreating(_, _) => s.active.None?
    case Settled(d) => s.active in {Some(DEFAULT), Some(d)}
    case Bootstrapping(d) => s.active in {Some(DEFAULT), Some(d)}
    case InSession(d, _) => s.active == Some(d)
    case Dropping(d) => s.active == Some(d)
    case _ => true
  }

  /** The pass serves the user's secret as it is. */
  predicate Own(s: State) {
    && !s.pass.Idle? && s.pass.d == s.user
    && (Accepts(s, s.user) || (LastKnownWorks(s) && !s.pass.Rewriting? && !s.pass.Recreating?))
  }

  /** The user's credentials work and the pass cannot change their password. */
  predicate UserWorks(s: State) {
    Accepts(s, s.user) && (s.pass.Rotating? ==> s.pass.was.role != s.pass.d.role)
    && (s.pass.Started? && s.active.Some? && s.active.value !in {DEFAULT, s.pass.d} ==> s.active.value.role != s.pass.d.role)
  }

  predicate Secured(s: State) {
    Shape(s) && (Own(s) || UserWorks(s) || EditSafe(s))
  }

  predicate Invariant(s: State) {
    Secured(s) || (Shape(s) && Creatable(s))
  }

  lemma SecretStepKeeps(s: State, s': State)
    requires Invariant(s)
    requires ReadSecret(s, s') || (exists provided :: FirstSecret(s, s', provided)) || CompareSecrets(s, s')
          || RewriteActive(s, s') || RecreateActive(s, s') || Crash(s, s')
    ensures Invariant(s') && (Secured(s) ==> Secured(s'))
  {
  }

  lemma LoginStepKeeps(s: State, s': State)
    requires Invariant(s)
    requires AlreadyRotated(s, s') || VerifyLogin(s, s') || DesiredLogin(s, s') || DefaultLogin(s, s')
    ensures Invariant(s') && (Secured(s) ==> Secured(s'))
  {
  }

  lemma RoleStepKeeps(s: State, s': State)
    requires Invariant(s)
    requires ChangeRole(s, s') || ApplyUserRoles(s, s') || DropDefault(s, s')
          || exists session :: CreateAdminRole(s, s', session)
    ensures Invariant(s') && (Secured(s) ==> Secured(s'))
  {
    if ChangeRole(s, s') {
    } else if ApplyUserRoles(s, s') {
    } else if DropDefault(s, s') {
    } else {
      var session :| CreateAdminRole(s, s', session);
    }
  }

  lemma EnvironmentStepKeeps(s: State, s': State)
    requires Invariant(s) && EnvironmentStep(s, s')
    ensures Invariant(s') && (Secured(s) ==> Secured(s'))
  {
    if UserEdit(s, s') {
    } else if PeerChangesRole(s, s') {
    } else if PeerDropsDefault(s, s') {
    } else {
    }
  }

  lemma StepKeepsInvariant(s: State, s': State)
    requires Invariant(s) && Next(s, s')
    ensures Invariant(s') && (Secured(s) ==> Secured(s'))
  {
    hide Invariant, Secured, Crash, ReadSecret, FirstSecret, CompareSecrets, AlreadyRotated, ChangeRole, VerifyLogin,
      RewriteActive, RecreateActive, DesiredLogin, DefaultLogin, CreateAdminRole, ApplyUserRoles, DropDefault;
    if EnvironmentStep(s, s') {
      EnvironmentStepKeeps(s, s');
    } else if AlreadyRotated(s, s') || VerifyLogin(s, s') || DesiredLogin(s, s') || DefaultLogin(s, s') {
      LoginStepKeeps(s, s');
    } else if ChangeRole(s, s') || ApplyUserRoles(s, s') || DropDefault(s, s')
      || (exists session :: CreateAdminRole(s, s', session)) {
      RoleStepKeeps(s, s');
    } else {
      SecretStepKeeps(s, s');
    }
  }

  lemma {:induction false} RunKeepsInvariant(run: seq<State>, i: nat)
    requires IsRun(run) && i < |run|
    ensures Invariant(run[i]) && (Secured(run[0]) ==> Secured(run[i]))
  {
    hide Invariant, Secured, Next, Init;
    if i > 0 {
      RunKeepsInvariant(run, i - 1);
      StepKeepsInvariant(run[i - 1], run[i]);
    } else {
      InitInvariant(run[0]);
    }
  }

  lemma InitInvariant(s: State)
    requires Init(s)
    ensures Invariant(s)
    ensures Accepts(s, s.user) || LastKnownWorks(s) ==> Secured(s)
  {
  }

  lemma SecuredMeans(s: State)
    requires Secured(s)
    ensures NotLockedOut(s)
  {
  }

  /** No lock-out: in every state of every run some known credentials work, or the user's are still to be
      created and can be. Unless a run starts with the latter, some known credentials always work. */
  lemma NeverLockedOut(run: seq<State>, i: nat)
    requires IsRun(run) && i < |run|
    ensures NotLockedOut(run[i]) || Creatable(run[i])
    ensures Accepts(run[0], run[0].user) || LastKnownWorks(run[0]) ==> NotLockedOut(run[i])
  {
    hide Secured, Next, Creatable, NotLockedOut;
    InitInvariant(run[0]);
    RunKeepsInvariant(run, i);
    if Secured(run[i]) {
      SecuredMeans(run[i]);
    }
  }
}
