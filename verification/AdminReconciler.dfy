/** One reconcile pass over the admin credentials, effect by effect, as
    controllers/admin_auth.go, role_admin.go and default_role.go perform them.
    Every method may fail before or after any effect and lets others act between
    effects; each one extends the history by a run of the credential protocol,
    so whatever holds of all runs holds of the code. */
module AdminReconciler {
  import opened AdminCredentials
  import opened AdminRotation
  import opened Option

  /** From position `from` on, all steps are those of users and other regions. */
  ghost predicate OnlyOthers(run: seq<State>, from: int) {
    forall k :: 0 <= k && from <= k < |run| - 1 ==> EnvironmentStep(run[k], run[k + 1])
  }

  lemma OthersKeepPass(s: State, s': State)
    requires EnvironmentStep(s, s')
    ensures s'.pass == s.pass && s'.active == s.active && Next(s, s')
  {
  }

  datatype Auth = Auth(active: Credentials, desired: Credentials)

  class Cluster {
    var roles: map<string, Role>
    var user: Credentials
    var active: Option<Credentials>
    var traces: Traces
    var pass: Pass
    ghost var run: seq<State>
    /** Whether all requests succeed and nobody else acts. */
    const calm: bool

    function Now(): State
      reads this
    {
      State(roles, user, active, traces, pass)
    }

    ghost predicate Valid()
      reads this
    {
      IsRun(run) && run[|run| - 1] == Now()
    }

    constructor (s: State, calm: bool)
      requires Init(s)
      ensures Valid() && Now() == s && run == [s] && this.calm == calm
    {
      this.calm := calm;
      roles, user, active, traces, pass := s.roles, s.user, s.active, s.traces, s.pass;
      run := [s];
    }

    method Become(s: State)
      requires Valid() && Next(Now(), s)
      modifies this
      ensures Valid() && Now() == s && run == old(run) + [s]
    {
      roles, user, active, traces, pass := s.roles, s.user, s.active, s.traces, s.pass;
      run := run + [s];
    }

    /** Users and other regions take any number of steps. */
    method Interfere()
      requires Valid()
      modifies this
      ensures Valid() && old(run) <= run && pass == old(pass) && active == old(active)
      ensures OnlyOthers(run, |old(run)| - 1)
      ensures calm ==> run == old(run) && Now() == old(Now())
    {
      hide EnvironmentStep, PassStep, Init;
      var steps: int := *;
      if calm {
        return;
      }
      for i := 0 to if steps > 0 then steps else 0
        invariant Valid() && old(run) <= run && pass == old(pass) && active == old(active)
        invariant OnlyOthers(run, |old(run)| - 1)
      {
        var s: State := *;
        if EnvironmentStep(Now(), s) {
          OthersKeepPass(Now(), s);
          Become(s);
        }
      }
    }

    method Request() returns (ok: bool)
      ensures calm ==> ok
    {
      ok := *;
      ok := ok || calm;
    }

    /** A login may fail although the credentials are right. */
    method Login(c: Credentials) returns (ok: bool)
      ensures ok ==> Accepts(Now(), c)
      ensures calm ==> (ok <==> Accepts(Now(), c))
    {
      var reachable := Request();
      return reachable && Accepts(Now(), c);
    }

    /** What the managed regions say when they are asked; one that does not answer counts as not ready. */
    method AskRegions() returns (answers: seq<bool>)
      ensures |answers| == traces.managed
    {
      answers := [];
      for k := 0 to traces.managed
        invariant |answers| == k
      {
        var ready := *;
        answers := answers + [ready];
      }
    }

    /** Volume claims, an unmanaged region or a ready managed region tell that the cluster existed. */
    method ExistingCluster(answers: seq<bool>) returns (found: bool, ok: bool)
      ensures ok ==> (found <==> SurelyExists(traces) || true in answers)
      ensures calm ==> ok
    {
      var storageExists := false;
      if !traces.storage.Disabled? {
        ok := Request();
        if !ok {
          return false, false;
        }
        storageExists := traces.storage.Claimed?;
      }
      var joiningManaged := false;
      for k := 0 to |answers|
        invariant !joiningManaged && forall i :: 0 <= i < k ==> !answers[i]
      {
        if answers[k] {
          joiningManaged := true;
          break;
        }
      }
      return storageExists || traces.unmanaged || joiningManaged, true;
    }

    method ReconcileAdminAuth() returns (auth: Auth, ok: bool)
      requires Valid() && pass.Started?
      modifies this
      ensures Valid() && old(run) <= run
      ensures ok ==> pass == Settled(auth.desired) && auth.desired == old(pass.d) && active.Some?
      ensures ok && auth.active != DEFAULT ==> active == Some(auth.desired) && auth.active == auth.desired
      ensures calm ==> (ok <==> AuthSucceeds(old(Now()))) && user == old(user)
      ensures calm && ok ==>
                if old(active).None? || old(active).value in {DEFAULT, auth.desired} then roles == old(roles)
                else Accepts(Now(), auth.desired)
    {
      hide AlreadyRotated, ApplyUserRoles, ChangeRole, Crash, CreateAdminRole, DefaultLogin, DesiredLogin, DropDefault,
        EnvironmentStep, FirstSecret, Init, OnlyOthers, ReadSecret, RecreateActive, RewriteActive, VerifyLogin;
      var desired := pass.d;
      Interfere();
      match active {
        case None =>
          var created;
          ghost var answers;
          created, ok, answers := CreateClusterAdminSecrets(desired);
          auth := Auth(created, desired);
        case Some(stored) =>
          auth := Auth(stored, desired);
          if auth.active == DEFAULT || auth.active == auth.desired {
            Become(Now().(pass := Settled(desired)));
            return auth, true;
          }
          Become(Now().(pass := Rotating(desired, stored)));
          ok := HandleAdminRoleChange(auth);
          auth := auth.(active := desired);
      }
    }

    /** The listing of the storage and the creation of the secret may fail; the creation may also take
        effect and be reported as failed. */
    method CreateClusterAdminSecrets(desired: Credentials) returns (created: Credentials, ok: bool, ghost answers: seq<bool>)
      requires Valid() && pass == Started(desired) && active.None?
      modifies this
      ensures Valid() && old(run) <= run && created in {Credentials("cassandra", "cassandra"), desired}
      ensures active.None? ==> pass == Started(desired) && run == old(run)
      ensures active.Some? ==> pass == Settled(desired) && active == Some(created)
      ensures active.Some? ==>
                created == if SurelyExists(traces) || true in answers then desired else Credentials("cassandra", "cassandra")
      ensures |answers| == traces.managed
      ensures ok ==> active.Some?
      ensures roles == old(roles) && user == old(user) && (calm ==> ok)
    {
      var told := AskRegions();
      answers := told;
      var existing;
      existing, ok := ExistingCluster(told);
      if !ok {
        created := DEFAULT;
        return;
      }
      created := if existing then desired else DEFAULT;
      ok := Request();
      if !ok {
        return;
      }
      assert FirstSecret(Now(), Now().(active := Some(created), pass := Settled(desired)), existing);
      Become(Now().(active := Some(created), pass := Settled(desired)));
      ok := Request();
    }

    method HandleAdminRoleChange(auth: Auth) returns (ok: bool)
      requires Valid() && pass == Rotating(auth.desired, auth.active)
      modifies this
      ensures Valid() && old(run) <= run
      ensures ok ==> pass == Settled(auth.desired) && active == Some(auth.desired)
      ensures calm ==> (ok <==> RotationSucceeds(old(Now()), auth.desired, auth.active)) && user == old(user)
      ensures calm && ok ==> Accepts(Now(), auth.desired)
    {
      hide AlreadyRotated, ApplyUserRoles, ChangeRole, CompareSecrets, Crash, CreateAdminRole, DefaultLogin, DesiredLogin,
        DropDefault, EnvironmentStep, FirstSecret, Init, OnlyOthers, ReadSecret, RecreateActive, RewriteActive;
      ok := UpdateAdminRoleInCassandra(auth);
      if !ok {
        return;
      }
      Interfere();
      ok := Login(auth.desired);
      if !ok {
        return;
      }
      Become(Now().(pass := Rewriting(auth.desired, AfterRotation)));
      ok := ReconcileActiveAdminSecret(auth.(active := auth.desired));
    }

    method UpdateAdminRoleInCassandra(auth: Auth) returns (ok: bool)
      requires Valid() && pass == Rotating(auth.desired, auth.active)
      modifies this
      ensures Valid() && old(run) <= run
      ensures ok ==> pass == Verifying(auth.desired)
      ensures pass.Verifying? ==> |run| > |old(run)| && Rekeyed(run[|run| - 2].roles, roles, auth)
      ensures calm ==> (ok <==> RotationSucceeds(old(Now()), auth.desired, auth.active)) && user == old(user) && active == old(active)
      ensures calm && ok ==> Accepts(Now(), auth.desired)
    {
      hide ApplyUserRoles, CompareSecrets, Crash, CreateAdminRole, DefaultLogin, DesiredLogin, DropDefault, EnvironmentStep,
        FirstSecret, Init, OnlyOthers, ReadSecret, RecreateActive, RewriteActive, VerifyLogin;
      Interfere();
      var session := Login(auth.desired);
      if session {
        Become(Now().(pass := Verifying(auth.desired)));
        return true;
      }
      Interfere();
      session := Login(auth.active);
      if !session {
        return false;
      }
      var role;
      if auth.active.role == auth.desired.role {
        role := roles[auth.active.role].(password := auth.desired.password);
      } else if auth.desired.role in roles {
        return false;
      } else {
        role := Superuser(auth.desired.password);
      }
      Become(Now().(roles := roles[auth.desired.role := role], pass := Verifying(auth.desired)));
      ok := Request();
    }

    /** The active secret is immutable: it is deleted, then created anew. */
    method ReconcileActiveAdminSecret(auth: Auth) returns (ok: bool)
      requires Valid() && pass.Rewriting? && pass.d == auth.desired == auth.active
      modifies this
      ensures Valid() && old(run) <= run
      ensures ok ==> active == Some(auth.active) && pass == Advance(auth.desired, old(pass.stage))
      ensures calm ==> ok && roles == old(roles) && user == old(user)
    {
      hide AlreadyRotated, ApplyUserRoles, ChangeRole, CompareSecrets, Crash, CreateAdminRole, DefaultLogin, DesiredLogin,
        DropDefault, EnvironmentStep, FirstSecret, Init, OnlyOthers, ReadSecret, VerifyLogin;
      var stage := pass.stage;
      Interfere();
      if active.None? {
        Become(Now().(active := Some(auth.active), pass := Advance(auth.desired, stage)));
        return true;
      }
      if active.value == auth.active {
        Become(Now().(pass := Advance(auth.desired, stage)));
        return true;
      }
      Become(Now().(active := None, pass := Recreating(auth.desired, stage)));
      Interfere();
      ok := Request();
      if ok {
        Become(Now().(active := Some(auth.active), pass := Advance(auth.desired, stage)));
      }
    }

    method ReconcileAdminRole(auth: Auth) returns (session: bool, ok: bool)
      requires Valid() && pass == Settled(auth.desired)
      modifies this
      ensures Valid() && old(run) <= run
      ensures ok ==> active == Some(auth.desired) && pass == InSession(auth.desired, session)
      ensures calm ==> (ok <==> LoginSucceeds(old(Now()), auth.desired)) && user == old(user)
      ensures calm && ok ==> session && Accepts(Now(), auth.desired)
    {
      hide AlreadyRotated, ApplyUserRoles, ChangeRole, CompareSecrets, Crash, CreateAdminRole, DropDefault, EnvironmentStep,
        FirstSecret, Init, OnlyOthers, ReadSecret, RecreateActive, RewriteActive, VerifyLogin;
      Interfere();
      session := Login(auth.desired);
      if session {
        Become(Now().(pass := Rewriting(auth.desired, AfterLogin(true))));
        ok := ReconcileActiveAdminSecret(auth.(active := auth.desired));
        return;
      }
      Interfere();
      var bootstrap := Login(DEFAULT);
      if !bootstrap {
        return false, false;
      }
      Become(Now().(pass := Bootstrapping(auth.desired)));
      session, ok := CreateAdminRoleInCassandra(auth);
      if !ok {
        return;
      }
      ok := ReconcileActiveAdminSecret(auth.(active := auth.desired));
    }

    /** The outcome of the verifying login is not looked at (role_admin.go:42-53):
        the pass goes on with or without a session. */
    method CreateAdminRoleInCassandra(auth: Auth) returns (session: bool, ok: bool)
      requires Valid() && pass == Bootstrapping(auth.desired)
      modifies this
      ensures Valid() && old(run) <= run
      ensures ok ==> pass == Rewriting(auth.desired, AfterLogin(session))
      ensures pass.Rewriting? ==>
                && |run| > |old(run)| && auth.desired.role !in run[|run| - 2].roles
                && roles == run[|run| - 2].roles[auth.desired.role := Role(auth.desired.password, true, true)]
      ensures calm ==> (ok <==> Accepts(old(Now()), DEFAULT) && auth.desired.role !in old(roles)) && user == old(user)
      ensures calm && ok ==> session
    {
      hide AlreadyRotated, ApplyUserRoles, ChangeRole, CompareSecrets, Crash, DefaultLogin, DesiredLogin, DropDefault,
        EnvironmentStep, FirstSecret, Init, OnlyOthers, ReadSecret, RecreateActive, RewriteActive, VerifyLogin;
      Interfere();
      var bootstrap := Login(DEFAULT);
      if !bootstrap || auth.desired.role in roles {
        return false, false;
      }
      session := Request();
      var s := Now().(roles := roles[auth.desired.role := Superuser(auth.desired.password)],
                      pass := Rewriting(auth.desired, AfterLogin(session)));
      assert CreateAdminRole(Now(), s, session);
      Become(s);
      ok := Request();
    }

    /** Drops the default role only while the user's secret, read again, asks for another one: the
        method's own step, if it takes one, is that drop, and it is the last. */
    method RemoveDefaultRoleIfExists() returns (ok: bool)
      requires Valid() && pass.Dropping?
      modifies this
      ensures Valid() && old(run) <= run && active == old(active)
      ensures if pass.Idle? then DropDefault(run[|run| - 2], run[|run| - 1]) && |run| > |old(run)|
                                 && OnlyOthers(run[..|run| - 1], |old(run)| - 1)
              else pass == old(pass) && OnlyOthers(run, |old(run)| - 1)
      ensures DEFAULT_ROLE !in old(roles) ==> ok && run == old(run)
      ensures calm ==> ok && user == old(user)
      ensures calm && Accepts(old(Now()), DEFAULT) && user != DEFAULT ==> roles == old(roles) - {DEFAULT_ROLE}
      ensures calm && !(Accepts(old(Now()), DEFAULT) && user != DEFAULT) ==> roles == old(roles)
    {
      hide AlreadyRotated, ApplyUserRoles, ChangeRole, CompareSecrets, Crash, CreateAdminRole, DefaultLogin, DesiredLogin,
        FirstSecret, Init, ReadSecret, RecreateActive, RewriteActive, VerifyLogin;
      if DEFAULT_ROLE !in roles {
        return true;
      }
      Interfere();
      var session := Login(DEFAULT);
      if !session {
        return true;
      }
      ok := Request();
      if ok && user != DEFAULT {
        ghost var before := run;
        Become(Now().(roles := roles - {DEFAULT_ROLE}, pass := Idle));
        assert run[..|run| - 1] == before;
      }
    }

    /** reconcileWithContext, as far as credentials go. The roles applied in
        between are any that leave the admin roles alone. A pass that reports
        success has logged in with the credentials the active secret now holds. */
    method Reconcile(applied: map<string, Role>) returns (ok: bool)
      requires Valid() && pass.Idle?
      modifies this
      ensures Valid() && old(run) <= run && pass.Idle?
      ensures ok ==> active.Some? && Reached(run, |old(run)|, Dropping(active.value))
      ensures calm && user.role != "" && user.password != "" ==> (ok <==> CanFinish(old(Now()))) && user == old(user)
      ensures calm && ok ==> active == Some(user) && Accepts(Now(), user)
      ensures calm && ok && user != Credentials("cassandra", "cassandra") ==>
                "cassandra" in roles && roles["cassandra"].login ==> roles["cassandra"].password != "cassandra"
    {
      hide AlreadyRotated, ApplyUserRoles, ChangeRole, CompareSecrets, CreateAdminRole, DefaultLogin, DesiredLogin,
        DropDefault, EnvironmentStep, FirstSecret, Init, OnlyOthers, RecreateActive, RewriteActive, Succeeds, VerifyLogin;
      Interfere();
      if user.role == "" || user.password == "" {
        return false;
      }
      Become(Now().(pass := Started(user)));
      ghost var from := |run|;
      ghost var started := Now();
      SucceedsExactlyWhen(run, started);
      ok := ReconcileRead(applied);
      ghost var i: nat :| ok ==> from <= i < |run| && run[i].pass == Dropping(active.value);
      Interfere();
      Become(Now().(pass := Idle));
      assert ok ==> run[i].pass == Dropping(active.value);
    }

    method ReconcileRead(applied: map<string, Role>) returns (ok: bool)
      requires Valid() && pass.Started?
      modifies this
      ensures Valid() && old(run) <= run
      ensures ok ==> active.Some? && Reached(run, |old(run)|, Dropping(active.value))
      ensures calm && old(pass.d) == user ==> (ok <==> Succeeds(old(Now())))
      ensures calm ==> user == old(user)
      ensures calm && ok && old(pass.d) == user ==>
                active == Some(user) && Accepts(Now(), user) && (user == DEFAULT || !Accepts(Now(), DEFAULT))
    {
      hide AlreadyRotated, ApplyUserRoles, AuthSucceeds, ChangeRole, CompareSecrets, Crash, CreateAdminRole, DefaultLogin,
        DesiredLogin, DropDefault, EnvironmentStep, FirstSecret, Init, LoginSucceeds, OnlyOthers, ReadSecret, RecreateActive,
        RewriteActive, RotationSucceeds, VerifyLogin;
      var auth, session;
      ghost var before := Now();
      auth, ok := ReconcileAdminAuth();
      if !ok {
        return;
      }
      AuthThenLogin(before, Now(), auth.desired);
      session, ok := ReconcileAdminRole(auth);
      if !ok || !session {
        return false;
      }
      ApplyRoles(auth.desired, applied);
      assert run[|run| - 1].pass == Dropping(auth.desired);
      ok := RemoveDefaultRoleIfExists();
    }

    /** The roles the user provides, but for those that passes log in with. */
    method ApplyRoles(desired: Credentials, applied: map<string, Role>)
      requires Valid() && pass == InSession(desired, true)
      modifies this
      ensures Valid() && old(run) <= run && |run| > |old(run)| && pass == Dropping(desired) && active == old(active)
      ensures calm ==> user == old(user) && (Accepts(Now(), desired) <==> Accepts(old(Now()), desired))
      ensures calm ==> forall name :: name in applied && name != desired.role && name != user.role ==>
                         name in roles && roles[name] == applied[name]
    {
      hide AlreadyRotated, ChangeRole, CompareSecrets, Crash, CreateAdminRole, DefaultLogin, DesiredLogin, DropDefault,
        EnvironmentStep, FirstSecret, Init, OnlyOthers, ReadSecret, RecreateActive, RewriteActive, VerifyLogin;
      Interfere();
      var kept := {desired.role, user.role};
      Become(Now().(roles := WithRoles(roles, applied, kept), pass := Dropping(desired)));
    }
  }

  /******* What an undisturbed pass does *******/

  /** A role keeps what it is but its password; a new one may log in and is a superuser. */
  predicate Rekeyed(before: map<string, Role>, after: map<string, Role>, auth: Auth) {
    var d := auth.desired;
    || (after == before && d.role in before && before[d.role].login && before[d.role].password == d.password)
    || (auth.active.role == d.role && d.role in before
        && after == before[d.role := Role(d.password, before[d.role].login, before[d.role].superuser)])
    || (auth.active.role != d.role && d.role !in before && after == before[d.role := Role(d.password, true, true)])
  }

  predicate RotationSucceeds(s: State, d: Credentials, a: Credentials) {
    Accepts(s, d) || (Accepts(s, a) && (a.role == d.role || d.role !in s.roles))
  }

  predicate AuthSucceeds(s: State)
    requires s.pass.Started?
  {
    s.active.None? || s.active.value in {DEFAULT, s.pass.d} || RotationSucceeds(s, s.pass.d, s.active.value)
  }

  predicate LoginSucceeds(s: State, d: Credentials) {
    Accepts(s, d) || (Accepts(s, DEFAULT) && d.role !in s.roles)
  }

  /** A rotation makes the login that follows succeed; without one the roles are as before. */
  predicate Succeeds(s: State)
    requires s.pass.Started?
  {
    AuthSucceeds(s) && (LoginSucceeds(s, s.pass.d) || (s.active.Some? && s.active.value !in {DEFAULT, s.pass.d}))
  }

  lemma AuthThenLogin(s: State, t: State, d: Credentials)
    requires s.pass == Started(d)
    ensures AuthSucceeds(s)
              && (if s.active.None? || s.active.value in {DEFAULT, d} then t.roles == s.roles else Accepts(t, d)) ==>
            (Succeeds(s) <==> LoginSucceeds(t, d))
  {
  }

  /** Left alone, a pass succeeds exactly when the user's credentials can come into force at all. */
  lemma SucceedsExactlyWhen(run: seq<State>, s: State)
    requires IsRun(run) && run[|run| - 1] == s && s.pass == Started(s.user)
    ensures Succeeds(s) <==> CanFinish(s)
  {
    hide Next, Init;
    RunKeepsInvariant(run, |run| - 1);
  }

  ghost predicate Reached(run: seq<State>, from: nat, p: Pass) {
    exists i :: from <= i < |run| && run[i].pass == p
  }

  function WithRoles(roles: map<string, Role>, applied: map<string, Role>, kept: set<string>): (r: map<string, Role>)
    ensures forall name :: name in kept ==> (name in r <==> name in roles) && (name in roles ==> r[name] == roles[name])
    ensures forall name :: name in applied && name !in kept ==> name in r && r[name] == applied[name]
    ensures forall name :: name in roles && name !in applied ==> name in r && r[name] == roles[name]
  {
    roles + (map name | name in applied && name !in kept :: applied[name])
  }

  /** Whatever the interleaving and wherever passes fail, nobody is locked out. */
  method RunPasses(s: State, calm: bool, passes: nat, applied: map<string, Role>) returns (c: Cluster)
    requires Init(s)
    ensures c.Valid() && c.run[0] == s
    ensures forall i :: 0 <= i < |c.run| ==> NotLockedOut(c.run[i]) || Creatable(c.run[i])
    ensures Accepts(s, s.user) || LastKnownWorks(s) ==> forall i :: 0 <= i < |c.run| ==> NotLockedOut(c.run[i])
  {
    c := new Cluster(s, calm);
    for i := 0 to passes
      invariant c.Valid() && c.run[0] == s && c.pass.Idle?
      invariant fresh(c)
    {
      var ok := c.Reconcile(applied);
    }
    forall i | 0 <= i < |c.run|
      ensures NotLockedOut(c.run[i]) || Creatable(c.run[i])
      ensures Accepts(s, s.user) || LastKnownWorks(s) ==> NotLockedOut(c.run[i])
    {
      NeverLockedOut(c.run, i);
    }
  }
}
