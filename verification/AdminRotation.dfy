/** More about runs of credential rotation: what precedes the drop of the default
    role, why edits of the secret need care, and which rotations can finish. */
module AdminRotation {
  import opened AdminCredentials
  import opened Option

  /******* The default role goes last *******/

  /** Every position of a pass that only a login with `d` leads to. */
  predicate LoggedIn(p: Pass, d: Credentials) {
    || p == Rewriting(d, AfterLogin(true))
    || p == Recreating(d, AfterLogin(true))
    || p == InSession(d, true)
    || p == Dropping(d)
  }

  ghost predicate LoginSince(run: seq<State>, j: nat, i: nat, d: Credentials) {
    j <= i < |run| && Accepts(run[j], d) && forall k :: j <= k <= i ==> LoggedIn(run[k].pass, d)
  }

  lemma {:induction false} SessionHasLogin(run: seq<State>, i: nat, d: Credentials) returns (j: nat)
    requires IsRun(run) && i < |run| && LoggedIn(run[i].pass, d)
    ensures LoginSince(run, j, i, d)
  {
    hide Next, Accepts;
    assert i > 0;
    var before, now := run[i - 1], run[i];
    assert Next(before, now);
    if LoggedIn(before.pass, d) {
      j := SessionHasLogin(run, i - 1, d);
    } else {
      LoginEntry(before, now, d);
      j := i;
    }
  }

  lemma LoginEntry(s: State, s': State, d: Credentials)
    requires Next(s, s') && LoggedIn(s'.pass, d) && !LoggedIn(s.pass, d)
    ensures Accepts(s', d)
  {
  }

  /** The operator drops the default role only in a pass that has logged in with
      the desired credentials, and someone can still log in afterwards. */
  lemma DropFollowsLogin(run: seq<State>, i: nat) returns (j: nat)
    requires IsRun(run) && 0 < i < |run| && DropDefault(run[i - 1], run[i])
    ensures LoginSince(run, j, i - 1, run[i - 1].pass.d)
    ensures Accepts(run[i], run[i].user) || (run[i].active.Some? && Accepts(run[i], run[i].active.value))
  {
    j := SessionHasLogin(run, i - 1, run[i - 1].pass.d);
    RunKeepsInvariant(run, i);
    DroppedIsKnown(run[i - 1], run[i]);
  }

  lemma DroppedIsKnown(s: State, s': State)
    requires DropDefault(s, s') && Invariant(s')
    ensures Accepts(s', s'.user) || (s'.active.Some? && Accepts(s', s'.active.value))
  {
  }

  /******* Edits that are not safe *******/

  /** A run in which the user edits the secret at any moment. */
  ghost predicate CarelessStep(s: State, s': State) {
    Next(s, s') || s' == s.(user := s'.user)
  }

  ghost predicate IsCarelessRun(run: seq<State>) {
    run != [] && Init(run[0]) && forall i :: 0 <= i < |run| - 1 ==> CarelessStep(run[i], run[i + 1])
  }

  /** An edit between a pass's read of the secret and its role change, then a
      crash: Cassandra has a password that neither secret holds. */
  lemma EditUnderAPassLocksOut(s0: State, d: Credentials, e: Credentials)
    returns (run: seq<State>)
    requires s0.pass.Idle? && Accepts(s0, s0.user) && s0.active == Some(s0.user)
    requires s0.user != DEFAULT && s0.user.password !in {d.password, e.password} && d.password != e.password
    requires s0.user.role == d.role == e.role && d.role != "" && d.password != ""
    ensures IsCarelessRun(run) && run[0] == s0 && !NotLockedOut(run[|run| - 1])
    ensures |run| == 7 && !EditSafe(run[3]) && run[4] == run[3].(user := e)
  {
    var a := s0.user;
    var s1 := s0.(user := d);
    var s2 := s1.(pass := Started(d));
    var s3 := s2.(pass := Rotating(d, a));
    var s4 := s3.(user := e);
    var role := s4.roles[d.role].(password := d.password);
    var s5 := s4.(roles := s4.roles[d.role := role], pass := Verifying(d));
    var s6 := s5.(pass := Idle);
    assert UserEdit(s0, s1);
    assert ReadSecret(s1, s2);
    assert CompareSecrets(s2, s3);
    assert ChangeRole(s4, s5);
    assert Crash(s5, s6);
    run := [s0, s1, s2, s3, s4, s5, s6];
  }

  /** The same after the role change, with no pass running: the active secret no longer logs in, and
      the edit discards the only record of the new password. */
  lemma EditWhileUnsettledLocksOut(s0: State, d: Credentials, e: Credentials)
    returns (run: seq<State>)
    requires s0.pass.Idle? && Accepts(s0, s0.user) && s0.active == Some(s0.user)
    requires s0.user != DEFAULT && s0.user.password !in {d.password, e.password} && d.password != e.password
    requires s0.user.role == d.role == e.role && d.role != "" && d.password != ""
    ensures IsCarelessRun(run) && run[0] == s0 && !NotLockedOut(run[|run| - 1])
    ensures |run| == 7 && !EditSafe(run[5]) && run[5].pass.Idle? && run[6] == run[5].(user := e)
  {
    var a := s0.user;
    var s1 := s0.(user := d);
    var s2 := s1.(pass := Started(d));
    var s3 := s2.(pass := Rotating(d, a));
    var role := s3.roles[d.role].(password := d.password);
    var s4 := s3.(roles := s3.roles[d.role := role], pass := Verifying(d));
    var s5 := s4.(pass := Idle);
    var s6 := s5.(user := e);
    assert UserEdit(s0, s1);
    assert ReadSecret(s1, s2);
    assert CompareSecrets(s2, s3);
    assert ChangeRole(s3, s4);
    assert Crash(s4, s5);
    run := [s0, s1, s2, s3, s4, s5, s6];
  }

  /** The same without an active secret, although the default role still works: a pass stops between
      the deletion of the active secret and its creation, and the next one finds storage or another
      region and stores the edited credentials without a login. From then on no pass can log in as
      the user, and creating the role fails since it exists. */
  lemma EditWithoutActiveSecretLocksOut(s0: State, password: string) returns (run: seq<State>)
    requires s0.pass.Idle? && s0.active == Some(DEFAULT) && Accepts(s0, DEFAULT) && MayExist(s0.traces)
    requires s0.user.role !in s0.roles && s0.user.role != "" && s0.user.password != "" && password !in {"", s0.user.password}
    ensures IsCarelessRun(run) && |run| == 10 && run[0] == s0
    ensures !EditSafe(run[6]) && run[6].pass.Idle? && run[7] == run[6].(user := Credentials(s0.user.role, password))
    ensures Accepts(run[6], DEFAULT) && Accepts(run[6], run[6].user)
    ensures !NotLockedOut(run[9]) && !Creatable(run[9]) && !CanFinish(run[9].(pass := Idle))
  {
    var u := s0.user;
    var e := Credentials(u.role, password);
    var s1 := s0.(pass := Started(u));
    var s2 := s1.(pass := Settled(u));
    var s3 := s2.(pass := Bootstrapping(u));
    var s4 := s3.(roles := s3.roles[u.role := Superuser(u.password)], pass := Rewriting(u, AfterLogin(true)));
    var s5 := s4.(active := None, pass := Recreating(u, AfterLogin(true)));
    var s6 := s5.(pass := Idle);
    var s7 := s6.(user := e);
    var s8 := s7.(pass := Started(e));
    var s9 := s8.(active := Some(e), pass := Settled(e));
    assert ReadSecret(s0, s1);
    assert CompareSecrets(s1, s2);
    assert DefaultLogin(s2, s3);
    assert CreateAdminRole(s3, s4, true);
    assert RewriteActive(s4, s5);
    assert Crash(s5, s6);
    assert ReadSecret(s7, s8);
    assert FirstSecret(s8, s9, true);
    run := [s0, s1, s2, s3, s4, s5, s6, s7, s8, s9];
  }

  /******* Which rotations can finish *******/

  /** Steps of this region's passes, crashes and retries included, and its storage. */
  ghost predicate QuietStep(s: State, s': State) {
    PassStep(s, s') || StorageAppears(s, s')
  }

  ghost predicate IsQuietRun(run: seq<State>) {
    run != [] && forall i :: 0 <= i < |run| - 1 ==> QuietStep(run[i], run[i + 1])
  }

  /** Decidable before any pass: the user's credentials work already, or their
      role is free to create, or it is the role of other credentials that are active. */
  predicate CanFinish(s: State) {
    || Accepts(s, s.user)
    || s.user.role !in s.roles
    || (LastKnown(s) !in {DEFAULT, s.user} && LastKnown(s).role == s.user.role)
  }

  ghost predicate Finished(s: State, user: Credentials) {
    s.pass == InSession(user, true) && s.active == Some(user) && Accepts(s, user)
  }

  predicate Stuck(s: State, user: Credentials) {
    && s.user == user && user.role in s.roles && !Accepts(s, user)
    && (LastKnown(s) in {DEFAULT, user} || LastKnown(s).role != user.role)
    && (s.pass.Idle? || s.pass in {Started(user), Settled(user), Bootstrapping(user)}
        || (s.pass == Rotating(user, LastKnown(s)) && LastKnown(s) !in {DEFAULT, user}))
  }

  lemma StuckStays(s: State, s': State, user: Credentials)
    requires Stuck(s, user) && QuietStep(s, s')
    ensures Stuck(s', user)
  {
  }

  lemma {:induction false} QuietRunStaysStuck(run: seq<State>, i: nat, user: Credentials)
    requires IsQuietRun(run) && i < |run| && Stuck(run[0], user)
    ensures Stuck(run[i], user)
  {
    if i > 0 {
      QuietRunStaysStuck(run, i - 1, user);
      StuckStays(run[i - 1], run[i], user);
    }
  }

  lemma Chain(first: seq<State>, second: seq<State>)
    requires IsQuietRun(first) && IsQuietRun(second) && first[|first| - 1] == second[0]
    ensures IsQuietRun(first + second[1..])
    ensures (first + second[1..])[0] == first[0]
    ensures (first + second[1..])[|first| + |second| - 2] == second[|second| - 1]
  {
    var run := first + second[1..];
    forall i | 0 <= i < |run| - 1 ensures QuietStep(run[i], run[i + 1]) {
      if i >= |first| - 1 {
        assert run[i] == second[i - |first| + 1] && run[i + 1] == second[i - |first| + 2];
      }
    }
  }

  /** One undisturbed pass from a state that can finish. */
  lemma FinishingRun(s: State) returns (run: seq<State>)
    requires Invariant(s) && s.pass.Idle? && s.user.role != "" && s.user.password != "" && CanFinish(s)
    ensures IsQuietRun(run) && run[0] == s && Finished(run[|run| - 1], s.user)
  {
    var opening := SettlingRun(s);
    var closing := LoginRun(opening[|opening| - 1]);
    assert closing[0] == opening[|opening| - 1];
    Chain(opening, closing);
    run := opening + closing[1..];
    assert run[|run| - 1] == closing[|closing| - 1];
  }

  predicate ReadyToLogIn(s: State, user: Credentials) {
    s.pass == Settled(user) && s.user == user && (Accepts(s, user) || (user.role !in s.roles && Accepts(s, DEFAULT)))
  }

  /** Up to the end of reconcileAdminAuth. */
  lemma SettlingRun(s: State) returns (run: seq<State>)
    requires Invariant(s) && s.pass.Idle? && s.user.role != "" && s.user.password != "" && CanFinish(s)
    ensures IsQuietRun(run) && run[0] == s && ReadyToLogIn(run[|run| - 1], s.user)
  {
    var u := s.user;
    var s1 := s.(pass := Started(u));
    assert ReadSecret(s, s1);
    if s.active.None? {
      var provided := SurelyExists(s.traces);
      var t := s1.(active := Some(if provided then u else DEFAULT), pass := Settled(u));
      assert FirstSecret(s1, t, provided);
      run := [s, s1, t];
    } else {
      var a := s.active.value;
      var t := s1.(pass := if a == DEFAULT || a == u then Settled(u) else Rotating(u, a));
      assert CompareSecrets(s1, t);
      run := [s, s1, t];
      if t.pass.Rotating? {
        var tail := RotatingTail(t);
        Chain(run, tail);
        run := run + tail[1..];
      }
    }
  }

  /** reconcileAdminRole. */
  lemma LoginRun(s: State) returns (run: seq<State>)
    requires ReadyToLogIn(s, s.user)
    ensures IsQuietRun(run) && run[0] == s && Finished(run[|run| - 1], s.user)
  {
    var u := s.user;
    if Accepts(s, u) {
      var c := s.(pass := Rewriting(u, AfterLogin(true)));
      assert DesiredLogin(s, c);
      run := [s, c];
    } else {
      var b := s.(pass := Bootstrapping(u));
      assert DefaultLogin(s, b);
      var c := b.(roles := b.roles[u.role := Superuser(u.password)], pass := Rewriting(u, AfterLogin(true)));
      assert CreateAdminRole(b, c, true);
      run := [s, b, c];
    }
    var tail := RewritingTail(run[|run| - 1]);
    Chain(run, tail);
    run := run + tail[1..];
  }

  /** From the comparison of the secrets to the rewritten active secret. */
  lemma RotatingTail(s: State) returns (run: seq<State>)
    requires Invariant(s.(pass := Idle)) && CanFinish(s) && s.active.Some? && s.active.value !in {DEFAULT, s.user}
    requires s.pass == Rotating(s.user, s.active.value)
    ensures IsQuietRun(run) && run[0] == s && ReadyToLogIn(run[|run| - 1], s.user)
  {
    var u, a := s.user, s.active.value;
    var v := s.(pass := Verifying(u));
    if Accepts(s, u) {
      assert AlreadyRotated(s, v);
    } else {
      var role := if a.role == u.role then s.roles[a.role].(password := u.password) else Superuser(u.password);
      v := s.(roles := s.roles[u.role := role], pass := Verifying(u));
      assert ChangeRole(s, v);
    }
    var w := v.(pass := Rewriting(u, AfterRotation));
    assert VerifyLogin(v, w);
    var tail := RewritingTail(w);
    assert IsQuietRun([s, v, w]);
    Chain([s, v, w], tail);
    run := [s, v, w] + tail[1..];
  }

  lemma RewritingTail(s: State) returns (run: seq<State>)
    requires s.pass.Rewriting?
    ensures IsQuietRun(run) && run[0] == s
    ensures var t := run[|run| - 1];
            t.pass == Advance(s.pass.d, s.pass.stage) && t.active == Some(s.pass.d) && t.user == s.user && t.roles == s.roles
  {
    var d, stage := s.pass.d, s.pass.stage;
    match s.active {
      case None =>
        var t := s.(active := Some(d), pass := Advance(d, stage));
        assert RewriteActive(s, t);
        run := [s, t];
      case Some(a) =>
        if a == d {
          var t := s.(pass := Advance(d, stage));
          assert RewriteActive(s, t);
          run := [s, t];
        } else {
          var r := s.(active := None, pass := Recreating(d, stage));
          assert RewriteActive(s, r);
          var t := r.(active := Some(d), pass := Advance(d, stage));
          assert RecreateActive(r, t);
          run := [s, r, t];
        }
    }
  }

  /** A region left alone can bring the user's credentials into force exactly when `CanFinish`. */
  lemma FinishesExactlyWhenItCan(s: State)
    requires Invariant(s) && s.pass.Idle? && s.user.role != "" && s.user.password != ""
    ensures (exists run :: IsQuietRun(run) && run[0] == s && Finished(run[|run| - 1], s.user)) <==> CanFinish(s)
  {
    if CanFinish(s) {
      var run := FinishingRun(s);
    } else {
      forall run | IsQuietRun(run) && run[0] == s
        ensures !Finished(run[|run| - 1], s.user)
      {
        QuietRunStaysStuck(run, |run| - 1, s.user);
      }
    }
  }

  /** Keeping the name `cassandra` and changing only its password never bootstraps. */
  lemma DefaultRoleCannotBeRekeyed(s: State)
    requires Accepts(s, DEFAULT) && LastKnown(s) in {DEFAULT, s.user}
    requires s.user.role == DEFAULT_ROLE && s.user != DEFAULT
    ensures !CanFinish(s)
  {
  }
}
