/** The handlers do exactly what the statements of their requests do. */
module Serving {
  import opened Wrappers
  import opened Rows
  import opened StoreRuns
  import opened Store
  import opened Requests
  import Handlers
  import Curation
  import Email

  ghost function WorldOf(s: Store): World
    reads s
  {
    World(s.accounts, s.sessions)
  }

  /** Sessions belong to accounts, as the foreign key has it. */
  ghost predicate Sound(w: World) {
    forall sid | sid in w.sessions :: w.sessions[sid].account in w.accounts
  }

  lemma PlayFirst(w: World, op: Op, more: seq<Op>)
    ensures Play(w, [op] + more) == Play(Next(w, op), more)
  {
    assert ([op] + more)[1..] == more;
  }

  lemma PlayOne(w: World, a: Op)
    ensures Play(w, [a]) == Next(w, a)
  {
    assert [a][1..] == [];
  }

  lemma PlayTwo(w: World, a: Op, b: Op)
    ensures Play(w, [a, b]) == Next(Next(w, a), b)
  {
    assert [a, b][1..] == [b];
    PlayOne(Next(w, a), b);
  }

  lemma PlayThree(w: World, a: Op, b: Op, c: Op)
    ensures Play(w, [a, b, c]) == Next(Next(Next(w, a), b), c)
  {
    assert [a, b, c][1..] == [b, c];
    PlayTwo(Next(w, a), b, c);
  }

  // ---- links

  lemma RedeemStep(w: World, kind: Kind, hash: string, now: int)
    requires Sound(w)
    ensures var accounts := Rows.Redeem(w.accounts, kind, hash, now);
      Next(w, Op.Redeem(now, kind, hash)) == World(accounts, Cascade(w.sessions, accounts))
    ensures kind != Deletion ==> Cascade(w.sessions, Rows.Redeem(w.accounts, kind, hash, now)) == w.sessions
  {
    if kind != Deletion {
      Handlers.RedeemKeepsSessions(w.accounts, w.sessions, kind, hash, now);
    }
  }

  lemma PlayApplied(w: World, kind: Kind, hash: string, now: int, more: seq<Op>)
    ensures Play(w, IfApplied(w, kind, hash, now, more)) ==
      if RedeemAnswer(w.accounts, kind, hash, now) == Applied then Play(Next(w, Op.Redeem(now, kind, hash)), more)
      else Next(w, Op.Redeem(now, kind, hash))
  {
    PlayFirst(w, Op.Redeem(now, kind, hash), more);
    PlayOne(w, Op.Redeem(now, kind, hash));
    assert [Op.Redeem(now, kind, hash)] + [] == [Op.Redeem(now, kind, hash)];
  }

  lemma HolderIs(accounts: Accounts, kind: Kind, hash: string, now: int, id: nat)
    requires Handlers.OneHolder(accounts, kind, hash, now) && id in Peek(accounts, kind, hash, now)
    ensures Holder(accounts, kind, hash, now) == id
  {
  }

  lemma LoginPlays(w: World, hash: string, now: int, id: nat, sid: string, answer: Answer)
    requires Sound(w) && sid !in w.sessions && Handlers.OneHolder(w.accounts, Login, hash, now)
    requires answer == RedeemAnswer(w.accounts, Login, hash, now) && (answer == Applied ==> id in Peek(w.accounts, Login, hash, now))
    ensures var after := Play(w, LoginOps(w, hash, now, sid));
      && after.accounts == Rows.Redeem(w.accounts, Login, hash, now)
      && (answer == Applied ==> after.sessions == w.sessions[sid := Session(id, now + Handlers.SESSION_TTL)])
      && (answer != Applied ==> after.sessions == w.sessions)
  {
    var create := Op.CreateSession(now, sid, Holder(w.accounts, Login, hash, now), now + Handlers.SESSION_TTL);
    RedeemStep(w, Login, hash, now);
    Handlers.RedeemKeepsSessions(w.accounts, w.sessions, Login, hash, now);
    PlayApplied(w, Login, hash, now, [create]);
    if answer == Applied {
      HolderIs(w.accounts, Login, hash, now, id);
      PlayOne(Next(w, Op.Redeem(now, Login, hash)), create);
    }
  }

  lemma LoginAgrees(w: World, after: World, env: Env, r: Request, answer: Answer, id: nat)
    requires Sound(w) && r.LoginConsume? && r.sid !in w.sessions && Handlers.OneHolder(w.accounts, Login, r.hash, r.at)
    requires answer == RedeemAnswer(w.accounts, Login, r.hash, r.at) && (answer == Applied ==> id in Peek(w.accounts, Login, r.hash, r.at))
    requires after.accounts == Rows.Redeem(w.accounts, Login, r.hash, r.at)
    requires answer == Applied ==> after.sessions == w.sessions[r.sid := Session(id, r.at + Handlers.SESSION_TTL)]
    requires answer != Applied ==> after.sessions == w.sessions
    ensures after == Play(w, Statements(w, env, r))
  {
    LoginPlays(w, r.hash, r.at, id, r.sid, answer);
  }

  method ServeLoginConsume(s: Store, env: Env, r: Request)
    requires Handlers.Ready(s) && r.LoginConsume? && Handlers.NewId(s, r.sid)
    requires Handlers.OneHolder(s.accounts, Login, r.hash, r.at)
    modifies s`accounts, s`sessions
    ensures Handlers.Ready(s) && WorldOf(s) == Play(old(WorldOf(s)), Statements(old(WorldOf(s)), env, r))
  {
    ghost var w := WorldOf(s);
    var answer, id := Handlers.LoginConsume(s, r.hash, r.sid, r.at);
    LoginAgrees(w, WorldOf(s), env, r, answer, id);
  }

  method ServeVerifyEmail(s: Store, env: Env, r: Request)
    requires Handlers.Ready(s) && r.VerifyEmail?
    modifies s`accounts, s`sessions
    ensures Handlers.Ready(s) && WorldOf(s) == Play(old(WorldOf(s)), Statements(old(WorldOf(s)), env, r))
  {
    RedeemStep(WorldOf(s), Verify, r.hash, r.at);
    PlayOne(WorldOf(s), Op.Redeem(r.at, Verify, r.hash));
    var answer, id := Handlers.VerifyEmail(s, r.hash, r.at);
  }

  lemma SignOutKeeps(w: World, id: nat, cookie: Option<string>, sid: string, now: int)
    requires id in w.accounts && sid !in w.sessions
    ensures Play(w, SignOut(w, id, cookie, sid, now)) == World(w.accounts, Handlers.KeptSessions(w.sessions, id, cookie, sid, now))
  {
    if Handlers.Viewer(w.sessions, cookie, now) == Some(id) {
      PlayThree(w, Op.CreateSession(now, sid, id, now + Handlers.SESSION_TTL), Op.DeleteSession(now, cookie.value),
        Op.DeleteOtherSessions(now, id, sid));
    } else {
      PlayOne(w, Op.DeleteOtherSessions(now, id, ""));
    }
  }

  method ServeConfirmEmail(s: Store, env: Env, r: Request)
    requires Handlers.Ready(s) && r.ConfirmEmail? && Handlers.NewId(s, r.sid)
    requires Handlers.OneHolder(s.accounts, EmailChange, r.hash, r.at)
    modifies s`accounts, s`sessions
    ensures Handlers.Ready(s) && WorldOf(s) == Play(old(WorldOf(s)), Statements(old(WorldOf(s)), env, r))
  {
    ghost var w := WorldOf(s);
    RedeemStep(w, EmailChange, r.hash, r.at);
    var answer, id, notified := Handlers.ConfirmEmail(s, r.hash, r.cookie, r.sid, r.at);
    ghost var holder := Holder(w.accounts, EmailChange, r.hash, r.at);
    PlayApplied(w, EmailChange, r.hash, r.at, SignOut(w, holder, r.cookie, r.sid, r.at));
    if answer == Applied {
      HolderIs(w.accounts, EmailChange, r.hash, r.at, id);
      ghost var redeemed := Next(w, Op.Redeem(r.at, EmailChange, r.hash));
      SignOutKeeps(redeemed, id, r.cookie, r.sid, r.at);
      assert SignOut(redeemed, id, r.cookie, r.sid, r.at) == SignOut(w, holder, r.cookie, r.sid, r.at);
    }
  }

  lemma DeletionPlays(w: World, hash: string, now: int, cookie: Option<string>)
    requires Sound(w) && Handlers.OneHolder(w.accounts, Deletion, hash, now)
    ensures var own := Handlers.Viewer(w.sessions, cookie, now) == Some(Holder(w.accounts, Deletion, hash, now));
      var accounts := Rows.Redeem(w.accounts, Deletion, hash, now);
      Play(w, IfApplied(w, Deletion, hash, now, if own then [Op.DeleteSession(now, cookie.value)] else []))
        == World(accounts, Cascade(w.sessions, accounts))
  {
    var holder := Holder(w.accounts, Deletion, hash, now);
    var own := Handlers.Viewer(w.sessions, cookie, now) == Some(holder);
    var redeemed := Next(w, Op.Redeem(now, Deletion, hash));
    RedeemStep(w, Deletion, hash, now);
    PlayApplied(w, Deletion, hash, now, if own then [Op.DeleteSession(now, cookie.value)] else []);
    if RedeemAnswer(w.accounts, Deletion, hash, now) == Applied && own {
      Handlers.DeletionRemoves(w.accounts, hash, now, holder);
      PlayOne(redeemed, Op.DeleteSession(now, cookie.value));
      assert redeemed.sessions - {cookie.value} == redeemed.sessions;
    }
  }

  method ServeConfirmDelete(s: Store, env: Env, r: Request)
    requires Handlers.Ready(s) && r.ConfirmDelete?
    requires Handlers.OneHolder(s.accounts, Deletion, r.hash, r.at)
    modifies s`accounts, s`sessions
    ensures Handlers.Ready(s) && WorldOf(s) == Play(old(WorldOf(s)), Statements(old(WorldOf(s)), env, r))
  {
    DeletionPlays(WorldOf(s), r.hash, r.at, r.cookie);
    var answer, id := Handlers.ConfirmDelete(s, r.hash, r.cookie, r.at);
  }

  // ---- forms

  lemma TokenStep(w: World, at: int, id: nat, kind: Kind, token: Token)
    requires Sound(w)
    ensures Play(w, [Op.SetToken(at, id, kind, token)]) == World(Rows.SetToken(w.accounts, id, kind, token), w.sessions)
  {
    PlayOne(w, Op.SetToken(at, id, kind, token));
  }

  method ServeVerifyResend(s: Store, env: Env, r: Request)
    requires Handlers.Ready(s) && r.VerifyResend?
    modifies s`accounts
    ensures Handlers.Ready(s) && WorldOf(s) == Play(old(WorldOf(s)), Statements(old(WorldOf(s)), env, r))
  {
    ghost var w := WorldOf(s);
    var sentTo := Handlers.VerifyResend(s, r.cookie, r.underCap, r.hash, r.at);
    if sentTo.Some? {
      TokenStep(w, r.at, sentTo.value, Verify, Token(r.hash, r.at, ""));
    }
  }

  method ServeRequestDelete(s: Store, env: Env, r: Request)
    requires Handlers.Ready(s) && r.RequestDelete?
    modifies s`accounts
    ensures Handlers.Ready(s) && WorldOf(s) == Play(old(WorldOf(s)), Statements(old(WorldOf(s)), env, r))
  {
    ghost var w := WorldOf(s);
    var asked := Handlers.RequestDelete(s, r.cookie, r.underCap, r.hash, r.at);
    if asked.Some? {
      TokenStep(w, r.at, asked.value, Deletion, Token(r.hash, r.at, ""));
    }
  }

  method ServeSendLogin(s: Store, env: Env, r: Request)
    requires Handlers.Ready(s) && r.SendLogin?
    requires Unambiguous(s.accounts, env.dbLower, Email.ParseEmail(env.gate, r.submitted).0)
    modifies s`accounts
    ensures Handlers.Ready(s) && WorldOf(s) == Play(old(WorldOf(s)), Statements(old(WorldOf(s)), env, r))
  {
    ghost var w := WorldOf(s);
    ghost var email := Email.ParseEmail(env.gate, r.submitted).0;
    var sentTo := Handlers.SendLoginLink(s, env.gate, env.dbLower, r.submitted, r.underCap, r.hash, r.at);
    if sentTo.Some? {
      AddresseeIs(w.accounts, env.dbLower, email, sentTo.value);
      TokenStep(w, r.at, sentTo.value, Login, Token(r.hash, r.at, ""));
    }
  }

  lemma AddresseeIs(accounts: Accounts, dbLower: string -> string, email: string, id: nat)
    requires Unambiguous(accounts, dbLower, email) && Handlers.Answers(accounts, dbLower, email, id)
    ensures Addressee(accounts, dbLower, email) == Some(id)
  {
  }

  method ServeSettingsEmail(s: Store, env: Env, r: Request)
    requires Handlers.Ready(s) && r.SettingsEmail?
    modifies s`accounts
    ensures Handlers.Ready(s) && WorldOf(s) == Play(old(WorldOf(s)), Statements(old(WorldOf(s)), env, r))
  {
    ghost var w := WorldOf(s);
    var asked := Handlers.SettingsEmail(s, r.cookie, env.gate, env.dbLower, r.submitted, r.underCap, r.hash, r.at);
    if asked.Some? {
      TokenStep(w, r.at, asked.value, EmailChange, Token(r.hash, r.at, Email.ParseEmail(env.gate, r.submitted).0));
    }
  }

  lemma CorrectionPlays(w: World, parsed: (string, bool), r: Request)
    requires Sound(w) && r.VerifyEmailChange?
    ensures Play(w, CorrectionOps(w, parsed, r)) == World(
      if Handlers.MayCorrect(w.accounts, w.sessions, r.cookie, r.at, parsed, r.underCap)
      then Handlers.Corrected(w.accounts, Handlers.Viewer(w.sessions, r.cookie, r.at).value, parsed.0, Token(r.hash, r.at, ""))
      else w.accounts, w.sessions)
  {
    var ops := CorrectionOps(w, parsed, r);
    if |ops| == 2 {
      PlayTwo(w, ops[0], ops[1]);
    } else if |ops| == 1 {
      PlayOne(w, ops[0]);
    }
  }

  method ServeVerifyEmailChange(s: Store, env: Env, r: Request)
    requires Handlers.Ready(s) && r.VerifyEmailChange?
    modifies s`accounts
    ensures Handlers.Ready(s) && WorldOf(s) == Play(old(WorldOf(s)), Statements(old(WorldOf(s)), env, r))
  {
    CorrectionPlays(WorldOf(s), Email.ParseEmail(env.gate, r.submitted), r);
    var changed := Handlers.VerifyEmailChange(s, r.cookie, env.gate, r.submitted, r.underCap, r.hash, r.at);
  }

  lemma SignupCreates(w: World, parsed: (string, bool), r: Request)
    requires Sound(w) && r.Signup? && r.id !in w.accounts && r.sid !in w.sessions
    requires parsed.1 && !Taken(w.accounts, parsed.0, r.ftId, r.ftLogin)
    ensures var after := Play(w, SignupOps(w, parsed, r));
      && after.accounts == w.accounts[r.id :=
        Account(parsed.0, r.ftId, r.ftLogin, r.data, r.at, false, map[Verify := Token(r.hash, r.at, "")])]
      && after.sessions == w.sessions[r.sid := Session(r.id, r.at + Handlers.SESSION_TTL)]
  {
    var ops := SignupOps(w, parsed, r);
    var w1 := Next(w, ops[0]);
    assert Cascade(w.sessions, w1.accounts) == w.sessions;
    PlayThree(w, ops[0], ops[1], ops[2]);
  }

  lemma SignupRefused(w: World, parsed: (string, bool), r: Request)
    requires Sound(w) && r.Signup?
    requires !parsed.1 || Taken(w.accounts, parsed.0, r.ftId, r.ftLogin)
    ensures Play(w, SignupOps(w, parsed, r)) == w
  {
    var ops := SignupOps(w, parsed, r);
    if ops != [] {
      PlayOne(w, ops[0]);
    }
  }

  lemma SignupAgrees(w: World, after: World, env: Env, r: Request, created: Option<nat>)
    requires Sound(w) && r.Signup? && r.sid !in w.sessions && r.id == created.GetOr(0)
    requires Handlers.SignedUp(w.accounts, w.sessions, after.accounts, after.sessions, Email.ParseEmail(env.gate, r.submitted),
      r.ftId, r.ftLogin, created, r.data, r.sid, r.hash, r.at)
    ensures after == Play(w, Statements(w, env, r))
  {
    if created.Some? {
      SignupCreates(w, Email.ParseEmail(env.gate, r.submitted), r);
    } else {
      SignupRefused(w, Email.ParseEmail(env.gate, r.submitted), r);
    }
  }

  /** done is the request as it went, with the serial and the curated snapshot. */
  method ServeSignup(s: Store, env: Env, at: int, submitted: string, ftId: nat, ftLogin: string, sid: string, hash: string,
    raw: map<string, Curation.Raw>) returns (ghost done: Request, ghost created: Option<nat>)
    requires Handlers.Ready(s) && Handlers.NewId(s, sid)
    modifies s
    ensures done.Signup? && done == Signup(at, submitted, ftId, ftLogin, done.id, done.data, sid, hash)
    ensures created.Some? ==> done.id == created.value && Curation.CurationOf(done.data, raw)
    ensures Handlers.Ready(s) && WorldOf(s) == Play(old(WorldOf(s)), Statements(old(WorldOf(s)), env, done))
  {
    ghost var w := WorldOf(s);
    assert Sound(w) && sid !in w.sessions;
    var id;
    ghost var data;
    id, data := Handlers.Signup(s, env.gate, submitted, ftId, ftLogin, raw, sid, hash, at);
    created := id;
    done := Signup(at, submitted, ftId, ftLogin, created.GetOr(0), data, sid, hash);
    SignupAgrees(w, WorldOf(s), env, done, created);
  }

  // ---- sessions, syncs and purges

  lemma SessionPlays(w: World, now: int, sid: string, id: nat)
    requires sid !in w.sessions
    ensures Play(w, [Op.CreateSession(now, sid, id, now + Handlers.SESSION_TTL)]) ==
      World(w.accounts, if id in w.accounts then w.sessions[sid := Session(id, now + Handlers.SESSION_TTL)] else w.sessions)
  {
    PlayOne(w, Op.CreateSession(now, sid, id, now + Handlers.SESSION_TTL));
  }

  method ServeLoginWith42(s: Store, env: Env, r: Request)
    requires Handlers.Ready(s) && r.LoginWith42? && Handlers.NewId(s, r.sid)
    modifies s`sessions
    ensures Handlers.Ready(s) && WorldOf(s) == Play(old(WorldOf(s)), Statements(old(WorldOf(s)), env, r))
  {
    ghost var w := WorldOf(s);
    SessionPlays(w, r.at, r.sid, r.id);
    assert Statements(w, env, r) == [Op.CreateSession(r.at, r.sid, r.id, r.at + Handlers.SESSION_TTL)];
    var ok := Handlers.SyncSignin(s, r.id, r.sid, r.at);
  }

  method ServeLogout(s: Store, env: Env, r: Request)
    requires Handlers.Ready(s) && r.Logout?
    modifies s`sessions
    ensures Handlers.Ready(s) && WorldOf(s) == Play(old(WorldOf(s)), Statements(old(WorldOf(s)), env, r))
  {
    if r.cookie.Some? {
      PlayOne(WorldOf(s), Op.DeleteSession(r.at, r.cookie.value));
    }
    Handlers.Logout(s, r.cookie);
  }

  method ServeFinishSync(s: Store, env: Env, at: int, id: nat, raw: map<string, Curation.Raw>) returns (ghost done: Request)
    requires Handlers.Ready(s)
    modifies s`accounts, s`campusZones
    ensures done.FinishSync? && done.at == at && done.id == id && Curation.CurationOf(done.data, raw)
    ensures Handlers.Ready(s) && WorldOf(s) == Play(old(WorldOf(s)), Statements(old(WorldOf(s)), env, done))
  {
    ghost var w := WorldOf(s);
    ghost var curated := s.UpdateSnapshot(id, raw, at);
    done := FinishSync(at, id, curated);
    PlayOne(w, Op.UpdateSnapshot(at, id, curated));
  }

  lemma PurgePlays(w: World, now: int)
    requires Sound(w)
    ensures var accounts := Rows.PurgeUnverified(w.accounts, now);
      Play(w, PurgeOps(now)) == World(accounts, Cascade(PurgeExpired(w.sessions, now), accounts))
  {
    PlayThree(w, Op.PurgeStaleCooldowns(now), Op.PurgeExpiredSessions(now), Op.PurgeUnverified(now));
    assert Next(w, Op.PurgeStaleCooldowns(now)) == w;
  }

  /** One tick of the purge loop. */
  method ServePurgeRound(s: Store, env: Env, r: Request)
    requires Handlers.Ready(s) && r.PurgeRound?
    modifies s`accounts, s`sessions, s`cooldowns
    ensures Handlers.Ready(s) && WorldOf(s) == Play(old(WorldOf(s)), Statements(old(WorldOf(s)), env, r))
  {
    ghost var w := WorldOf(s);
    PurgePlays(w, r.at);
    assert Statements(w, env, r) == PurgeOps(r.at);
    s.PurgeStaleCooldowns(r.at, SYNC_COOLDOWN);
    s.PurgeExpiredSessions(r.at);
    var removed := s.PurgeUnverifiedAccounts(r.at);
  }
}
