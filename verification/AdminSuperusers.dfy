/** The operator's credentials are those of a superuser. */
module AdminSuperusers {
  import opened AdminCredentials

  /** The role, if there is one, may log in and is a superuser. */
  predicate Admin(roles: map<string, Role>, role: string) {
    role in roles ==> roles[role].login && roles[role].superuser
  }

  /** The roles that passes log in with are superusers. */
  predicate AdminsOnly(s: State) {
    && Admin(s.roles, s.user.role) && Admin(s.roles, DEFAULT_ROLE)
    && (s.active.Some? ==> Admin(s.roles, s.active.value.role))
    && (!s.pass.Idle? ==> Admin(s.roles, s.pass.d.role))
    && (s.pass.Rotating? ==> Admin(s.roles, s.pass.was.role))
  }

  /** What is assumed of others: users name no existing role that is no superuser, the roles they provide do
      not touch those of the operator, and another region makes its role a superuser. */
  ghost predicate OthersKeepAdmins(s: State, s': State) {
    && (UserEdit(s, s') ==> Admin(s.roles, s'.user.role))
    && (PeerChangesRole(s, s') ==> Admin(s'.roles, s.user.role))
    && (ApplyUserRoles(s, s') ==> Admin(s'.roles, DEFAULT_ROLE))
  }

  ghost predicate IsAdminRun(run: seq<State>) {
    && IsRun(run) && AdminsOnly(run[0])
    && forall i :: 0 <= i < |run| - 1 ==> OthersKeepAdmins(run[i], run[i + 1])
  }

  lemma OwnStepKeepsAdmins(s: State, s': State)
    requires Shape(s) && AdminsOnly(s)
    requires ChangeRole(s, s') || DropDefault(s, s') || exists session :: CreateAdminRole(s, s', session)
    ensures AdminsOnly(s')
  {
  }

  lemma SecretStepKeepsAdmins(s: State, s': State)
    requires Shape(s) && AdminsOnly(s)
    requires Crash(s, s') || ReadSecret(s, s') || (exists provided :: FirstSecret(s, s', provided)) || CompareSecrets(s, s')
          || AlreadyRotated(s, s') || VerifyLogin(s, s') || RewriteActive(s, s') || RecreateActive(s, s') || DesiredLogin(s, s')
          || DefaultLogin(s, s')
    ensures AdminsOnly(s')
  {
  }

  lemma OtherStepKeepsAdmins(s: State, s': State)
    requires Shape(s) && AdminsOnly(s) && OthersKeepAdmins(s, s') && (ApplyUserRoles(s, s') || EnvironmentStep(s, s'))
    ensures AdminsOnly(s')
  {
    if ApplyUserRoles(s, s') {
    } else if UserEdit(s, s') {
    } else if PeerChangesRole(s, s') {
    }
  }

  lemma StepKeepsAdmins(s: State, s': State)
    requires Shape(s) && AdminsOnly(s) && Next(s, s') && OthersKeepAdmins(s, s')
    ensures AdminsOnly(s')
  {
    hide Shape, AdminsOnly, OthersKeepAdmins, Crash, ReadSecret, FirstSecret, CompareSecrets, AlreadyRotated, ChangeRole, VerifyLogin,
      RewriteActive, RecreateActive, DesiredLogin, DefaultLogin, CreateAdminRole, ApplyUserRoles, DropDefault;
    if ApplyUserRoles(s, s') || EnvironmentStep(s, s') {
      OtherStepKeepsAdmins(s, s');
    } else if ChangeRole(s, s') || DropDefault(s, s') || (exists session :: CreateAdminRole(s, s', session)) {
      OwnStepKeepsAdmins(s, s');
    } else {
      SecretStepKeepsAdmins(s, s');
    }
  }

  lemma {:induction false} RunKeepsAdmins(run: seq<State>, i: nat)
    requires IsAdminRun(run) && i < |run|
    ensures AdminsOnly(run[i])
  {
    hide Next, AdminsOnly, OthersKeepAdmins, Init;
    if i > 0 {
      RunKeepsAdmins(run, i - 1);
      RunKeepsInvariant(run, i - 1);
      InvariantShape(run[i - 1]);
      StepKeepsAdmins(run[i - 1], run[i]);
    }
  }

  lemma InvariantShape(s: State)
    requires Invariant(s)
    ensures Shape(s)
  {
  }

  /** Cassandra accepts the credentials, as those of a superuser. */
  predicate SuperuserLogsIn(s: State, c: Credentials) {
    c.role in s.roles && s.roles[c.role] == Role(c.password, true, true)
  }

  /** Nobody is locked out of the administration: some known credentials are a superuser's, in every state. */
  lemma SuperuserIsKnown(run: seq<State>, i: nat)
    requires IsAdminRun(run) && i < |run| && (Accepts(run[0], run[0].user) || LastKnownWorks(run[0]))
    ensures var s := run[i];
            || SuperuserLogsIn(s, s.user)
            || SuperuserLogsIn(s, if s.active.Some? then s.active.value else DEFAULT)
  {
    RunKeepsAdmins(run, i);
    NeverLockedOut(run, i);
  }

  /** When the default role is dropped, a superuser is left that accepts the user's credentials or the
      active ones; and the desired ones, unless the user has edited the secret since. */
  lemma DropLeavesSuperuser(run: seq<State>, i: nat)
    requires IsAdminRun(run) && 0 < i < |run| && DropDefault(run[i - 1], run[i])
    ensures var s := run[i];
            DEFAULT_ROLE !in s.roles && (SuperuserLogsIn(s, s.user) || (s.active.Some? && SuperuserLogsIn(s, s.active.value)))
    ensures run[i].user == run[i - 1].pass.d ==> SuperuserLogsIn(run[i], run[i - 1].pass.d)
  {
    RunKeepsInvariant(run, i - 1);
    RunKeepsInvariant(run, i);
    RunKeepsAdmins(run, i);
    DroppedUnderAdmin(run[i - 1], run[i]);
  }

  lemma DroppedUnderAdmin(s: State, s': State)
    requires DropDefault(s, s') && Invariant(s) && Invariant(s') && AdminsOnly(s')
    ensures DEFAULT_ROLE !in s'.roles
    ensures SuperuserLogsIn(s', s'.user) || (s'.active.Some? && SuperuserLogsIn(s', s'.active.value))
    ensures s'.user == s.pass.d ==> SuperuserLogsIn(s', s.pass.d)
  {
  }
}
