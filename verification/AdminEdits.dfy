/** When an edit of the user's secret is safe: exactly when `EditSafe` says so. */
module AdminEdits {
  import opened AdminCredentials
  import opened AdminRotation
  import opened Option

  /******* Edits that are safe stay safe *******/

  /** Any steps of this region, other regions and users who go by EditSafe. */
  ghost predicate IsContinuation(path: seq<State>) {
    path != [] && forall i :: 0 <= i < |path| - 1 ==> Next(path[i], path[i + 1])
  }

  ghost predicate NeverLocks(s: State) {
    forall path, i :: IsContinuation(path) && path[0] == s && 0 <= i < |path| ==> NotLockedOut(path[i])
  }

  lemma {:induction false} ContinuationStaysSecured(path: seq<State>, i: nat)
    requires IsContinuation(path) && Secured(path[0]) && i < |path|
    ensures Secured(path[i])
  {
    hide Secured, Next;
    if i > 0 {
      ContinuationStaysSecured(path, i - 1);
      StepKeepsInvariant(path[i - 1], path[i]);
    }
  }

  lemma SecuredNeverLocks(s: State)
    requires Secured(s)
    ensures NeverLocks(s)
  {
    hide Secured, Next;
    forall path, i | IsContinuation(path) && path[0] == s && 0 <= i < |path| ensures NotLockedOut(path[i]) {
      ContinuationStaysSecured(path, i);
      SecuredMeans(path[i]);
    }
  }

  lemma SafeEditIsSecured(s: State, e: Credentials)
    requires Shape(s) && EditSafe(s)
    ensures Secured(s.(user := e))
  {
  }

  /******* Edits that are not safe *******/

  /** Nobody can log in, and the user's role is not about to be created either. */
  predicate LockedOut(s: State) {
    !NotLockedOut(s) && !Creatable(s)
  }

  /** Steps of this region's passes alone, and its storage, lead to a lock-out. */
  ghost predicate LocksOut(s: State) {
    exists path :: IsQuietRun(path) && path[0] == s && LockedOut(path[|path| - 1])
  }

  lemma LockedNow(s: State)
    requires LockedOut(s)
    ensures LocksOut(s)
  {
    hide QuietStep;
    assert IsQuietRun([s]);
  }

  lemma LocksAfter(s: State, path: seq<State>)
    requires IsQuietRun(path) && path[0] == s && LocksOut(path[|path| - 1])
    ensures LocksOut(s)
  {
    hide QuietStep, LockedOut;
    var rest :| IsQuietRun(rest) && rest[0] == path[|path| - 1] && LockedOut(rest[|rest| - 1]);
    Chain(path, rest);
    assert (path + rest[1..])[|path| + |rest| - 2] == rest[|rest| - 1];
  }

  lemma LocksAfterStep(s: State, s': State)
    requires QuietStep(s, s') && LocksOut(s')
    ensures LocksOut(s)
  {
    hide QuietStep;
    assert IsQuietRun([s, s']);
    LocksAfter(s, [s, s']);
  }

  /** The user's secret names the default role, with a password that neither the role nor the running
      pass knows. */
  predicate Stranger(s: State) {
    && s.user.role == DEFAULT_ROLE && s.user.password !in {"", DEFAULT.password}
    && (DEFAULT_ROLE in s.roles ==> s.roles[DEFAULT_ROLE].password != s.user.password)
    && (!s.pass.Idle? ==> s.pass.d.password != s.user.password)
  }

  lemma StrangerLocked(s: State)
    requires Stranger(s) && !Accepts(s, LastKnown(s))
    ensures LocksOut(s)
  {
    LockedNow(s);
  }

  lemma DroppingLocks(s: State)
    requires Stranger(s) && s.pass == Dropping(DEFAULT) && s.active == Some(DEFAULT) && Accepts(s, DEFAULT)
    ensures LocksOut(s)
  {
    var t := s.(roles := s.roles - {DEFAULT_ROLE}, pass := Idle);
    assert DropDefault(s, t);
    LockedNow(t);
    LocksAfterStep(s, t);
  }

  lemma SessionLocks(s: State)
    requires Stranger(s) && s.pass == InSession(DEFAULT, true) && s.active == Some(DEFAULT) && Accepts(s, DEFAULT)
    ensures LocksOut(s)
  {
    var t := s.(pass := Dropping(DEFAULT));
    assert ApplyUserRoles(s, t);
    DroppingLocks(t);
    LocksAfterStep(s, t);
  }

  lemma DefaultSettledLocks(s: State)
    requires Stranger(s) && s.active == Some(DEFAULT) && s.pass == Settled(DEFAULT) && Accepts(s, DEFAULT)
    ensures LocksOut(s)
  {
    var t := s.(pass := Rewriting(DEFAULT, AfterLogin(true)));
    assert DesiredLogin(s, t);
    var u := t.(pass := InSession(DEFAULT, true));
    assert RewriteActive(t, u);
    SessionLocks(u);
    LocksAfterStep(t, u);
    LocksAfterStep(s, t);
  }

  /** A pass that stores the default credentials goes on to drop the default role. */
  lemma AdvancedLocks(s: State, stage: Stage)
    requires Stranger(s) && stage != AfterLogin(false) && s.active == Some(DEFAULT) && s.pass == Advance(DEFAULT, stage)
    requires Accepts(s, DEFAULT)
    ensures LocksOut(s)
  {
    match stage {
      case AfterLogin(_) => SessionLocks(s);
      case AfterRotation => DefaultSettledLocks(s);
    }
  }

  /** Without an active secret, a pass that finds storage or another region stores the user's credentials. */
  lemma NextPassLocks(s: State)
    requires Stranger(s) && s.pass.Idle? && s.active.None? && MayExist(s.traces)
    ensures LocksOut(s)
  {
    var t := s.(pass := Started(s.user));
    assert ReadSecret(s, t);
    var u := t.(active := Some(s.user), pass := Settled(s.user));
    assert FirstSecret(t, u, true);
    LockedNow(u);
    LocksAfterStep(t, u);
    LocksAfterStep(s, t);
  }

  lemma StoppedLocks(s: State)
    requires Stranger(s) && s.active.None? && MayExist(s.traces)
    ensures LocksOut(s)
  {
    var t := s.(pass := Idle);
    assert Crash(s, t);
    NextPassLocks(t);
    LocksAfterStep(s, t);
  }

  /** A pass that stops after it has deleted the active secret. */
  lemma DeletionLocks(s: State)
    requires Stranger(s) && s.pass.Rewriting? && s.active.Some? && s.active != Some(s.pass.d) && !Traceless(s.traces)
    ensures LocksOut(s)
    decreases if s.traces.storage.Unclaimed? then 1 else 0
  {
    if MayExist(s.traces) {
      var t := s.(active := None, pass := Recreating(s.pass.d, s.pass.stage));
      assert RewriteActive(s, t);
      StoppedLocks(t);
      LocksAfterStep(s, t);
    } else {
      var t := s.(traces := s.traces.(storage := Claimed));
      assert StorageAppears(s, t);
      DeletionLocks(t);
      LocksAfterStep(s, t);
    }
  }

  lemma RecreatingLocks(s: State)
    requires Stranger(s) && s.pass.Recreating? && s.active.None? && !Harmless(s)
    ensures LocksOut(s)
  {
    var t := s.(active := Some(s.pass.d), pass := Advance(s.pass.d, s.pass.stage));
    assert RecreateActive(s, t);
    if Accepts(s, s.pass.d) {
      AdvancedLocks(t, s.pass.stage);
    } else {
      StrangerLocked(t);
    }
    LocksAfterStep(s, t);
  }

  lemma RewritingLocks(s: State)
    requires Stranger(s) && s.pass.Rewriting? && s.active.Some? && Accepts(s, s.active.value) && !Harmless(s)
    ensures LocksOut(s)
  {
    var d, stage := s.pass.d, s.pass.stage;
    if s.active == Some(d) {
      var t := s.(pass := Advance(d, stage));
      assert RewriteActive(s, t);
      AdvancedLocks(t, stage);
      LocksAfterStep(s, t);
    } else if !Traceless(s.traces) {
      DeletionLocks(s);
    } else {
      var t := s.(active := None, pass := Recreating(d, stage));
      assert RewriteActive(s, t);
      if Accepts(s, DEFAULT) {
        RecreatingLocks(t);
      } else {
        StrangerLocked(t);
      }
      LocksAfterStep(s, t);
    }
  }

  lemma VerifyingLocks(s: State)
    requires Stranger(s) && Shape(s) && s.pass.Verifying? && Accepts(s, s.active.value) && !Harmless(s)
    ensures LocksOut(s)
  {
    var t := s.(pass := Rewriting(s.pass.d, AfterRotation));
    assert VerifyLogin(s, t);
    RewritingLocks(t);
    LocksAfterStep(s, t);
  }

  lemma RotatingLocks(s: State)
    requires Stranger(s) && Shape(s) && s.pass.Rotating? && Accepts(s, s.active.value) && !Harmless(s)
    ensures LocksOut(s)
  {
    var d, a := s.pass.d, s.pass.was;
    var t;
    if Accepts(s, d) {
      t := s.(pass := Verifying(d));
      assert AlreadyRotated(s, t);
      VerifyingLocks(t);
    } else if a.role == d.role {
      t := s.(roles := s.roles[d.role := s.roles[a.role].(password := d.password)], pass := Verifying(d));
      assert ChangeRole(s, t);
      StrangerLocked(t);
    } else {
      t := s.(roles := s.roles[d.role := Superuser(d.password)], pass := Verifying(d));
      assert ChangeRole(s, t);
      VerifyingLocks(t);
    }
    LocksAfterStep(s, t);
  }

  lemma BootstrappingLocks(s: State)
    requires Stranger(s) && s.pass.Bootstrapping? && s.active == Some(DEFAULT) && Accepts(s, DEFAULT) && !Harmless(s)
    ensures LocksOut(s)
  {
    var d := s.pass.d;
    var t := s.(roles := s.roles[d.role := Superuser(d.password)], pass := Rewriting(d, AfterLogin(true)));
    assert CreateAdminRole(s, t, true);
    DeletionLocks(t);
    LocksAfterStep(s, t);
  }

  lemma SettledLocks(s: State)
    requires Stranger(s) && Shape(s) && s.pass.Settled? && Accepts(s, s.active.value) && !Harmless(s)
    ensures LocksOut(s)
  {
    var d := s.pass.d;
    if d == DEFAULT {
      DefaultSettledLocks(s);
    } else if Accepts(s, d) {
      var t := s.(pass := Rewriting(d, AfterLogin(true)));
      assert DesiredLogin(s, t);
      DeletionLocks(t);
      LocksAfterStep(s, t);
    } else {
      var t := s.(pass := Bootstrapping(d));
      assert DefaultLogin(s, t);
      BootstrappingLocks(t);
      LocksAfterStep(s, t);
    }
  }

  lemma StartedLocks(s: State)
    requires Stranger(s) && s.pass.Started? && LastKnownWorks(s) && !Harmless(s)
    ensures LocksOut(s)
  {
    var d := s.pass.d;
    var t;
    if s.active.None? {
      t := s.(active := Some(DEFAULT), pass := Settled(d));
      assert FirstSecret(s, t, false);
      SettledLocks(t);
    } else {
      var a := s.active.value;
      t := s.(pass := if a == DEFAULT || a == d then Settled(d) else Rotating(d, a));
      assert CompareSecrets(s, t);
      if t.pass.Settled? {
        SettledLocks(t);
      } else {
        RotatingLocks(t);
      }
    }
    LocksAfterStep(s, t);
  }

  /** A pass that is not harmless locks out a user whose secret has an unknown password. */
  lemma HarmfulPassLocks(s: State)
    requires Stranger(s) && Shape(s) && LastKnownWorks(s) && !Harmless(s)
    ensures LocksOut(s)
  {
    hide LocksOut, RotationHarmless;
    match s.pass {
      case Started(_) => StartedLocks(s);
      case Rotating(_, _) => RotatingLocks(s);
      case Verifying(_) => VerifyingLocks(s);
      case Rewriting(_, _) => RewritingLocks(s);
      case Recreating(_, _) => RecreatingLocks(s);
      case Settled(_) => SettledLocks(s);
      case Bootstrapping(_) => BootstrappingLocks(s);
      case InSession(_, _) => SessionLocks(s);
      case Dropping(_) => DroppingLocks(s);
      case _ =>
    }
  }

  /******* The exact condition *******/

  /** A password longer than all that could be confused with it. */
  function NewPassword(s: State): (password: string)
    ensures password != "" && password != DEFAULT.password
    ensures DEFAULT_ROLE in s.roles ==> password != s.roles[DEFAULT_ROLE].password
    ensures !s.pass.Idle? ==> password != s.pass.d.password
  {
    var known := if DEFAULT_ROLE in s.roles then |s.roles[DEFAULT_ROLE].password| else 0;
    var desired := if s.pass.Idle? then 0 else |s.pass.d.password|;
    seq(known + desired + |DEFAULT.password| + 1, i => 'x')
  }

  lemma UnsafeEditLocks(s: State) returns (e: Credentials)
    requires Shape(s) && !EditSafe(s)
    ensures LocksOut(s.(user := e))
  {
    hide Harmless, Shape, LocksOut, LockedOut;
    e := Credentials(DEFAULT_ROLE, NewPassword(s));
    var t := s.(user := e);
    SameButUser(s, e);
    if LastKnownWorks(s) {
      HarmfulPassLocks(t);
    } else if Accepts(s, LastKnown(s)) {
      StoppedLocks(t);
    } else {
      StrangerLocked(t);
    }
  }

  lemma SameButUser(s: State, e: Credentials)
    ensures Shape(s.(user := e)) == Shape(s) && Harmless(s.(user := e)) == Harmless(s)
    ensures LastKnownWorks(s.(user := e)) == LastKnownWorks(s)
  {
  }

  lemma QuietIsContinuation(path: seq<State>)
    requires IsQuietRun(path)
    ensures IsContinuation(path)
  {
    hide PassStep;
  }

  /** The exact condition: in any state a run can be in, all edits of the user's secret are safe over
      all continuations exactly when EditSafe holds. Otherwise some edit leads, without anybody
      else's doing, to a state in which nobody can log in and the user's role cannot be created. */
  lemma EditSafeExactlyWhen(s: State)
    requires Invariant(s)
    ensures EditSafe(s) <==> forall e :: NeverLocks(s.(user := e))
    ensures EditSafe(s) <==> forall e :: !LocksOut(s.(user := e))
  {
    hide EditSafe, PassStep, Next, NotLockedOut, Secured;
    if EditSafe(s) {
      forall e ensures NeverLocks(s.(user := e)) && !LocksOut(s.(user := e)) {
        ShapeOf(s);
        SafeEditIsSecured(s, e);
        SecuredNeverLocks(s.(user := e));
        NeverLocksMeans(s.(user := e));
      }
    } else {
      ShapeOf(s);
      var e := UnsafeEditLocks(s);
      NeverLocksMeans(s.(user := e));
    }
  }

  lemma ShapeOf(s: State)
    requires Invariant(s)
    ensures Shape(s)
  {
  }

  lemma NeverLocksMeans(s: State)
    ensures NeverLocks(s) ==> !LocksOut(s)
  {
    hide PassStep, Next, NotLockedOut, Creatable;
    if LocksOut(s) {
      var path :| IsQuietRun(path) && path[0] == s && LockedOut(path[|path| - 1]);
      QuietIsContinuation(path);
      assert !NotLockedOut(path[|path| - 1]);
    }
  }

  /** Between passes: exactly when the active secret still logs in, or without one the default role does
      and neither storage nor another region tells that the cluster existed before. */
  lemma IdleEditSafeExactlyWhen(s: State)
    requires Invariant(s) && s.pass.Idle?
    ensures LastKnownWorks(s) <==> forall e :: NeverLocks(s.(user := e))
  {
    hide Invariant, NeverLocks;
    EditSafeExactlyWhen(s);
  }
}
