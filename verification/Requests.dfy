/**
 Runs of requests: the statements each handler issues, in order, when handlers do not
 interleave. What AccountRuns asks of statement runs is proved of every run of requests.
 */
module Requests {
  import opened Wrappers
  import opened Rows
  import opened StoreRuns
  import opened TokenHistory
  import opened AccountRuns
  import opened Handlers
  import Email

  /** A request with its random values and the clock; id and data of a sign-up are the serial and the curated snapshot. */
  datatype Request =
    | Signup(at: int, submitted: string, ftId: nat, ftLogin: string, id: nat, data: Data, sid: string, hash: string)
    | SendLogin(at: int, submitted: string, underCap: bool, hash: string)
    | LoginConsume(at: int, hash: string, sid: string)
    | LoginWith42(at: int, id: nat, sid: string)
    | VerifyEmail(at: int, hash: string)
    | VerifyResend(at: int, cookie: Option<string>, underCap: bool, hash: string)
    | VerifyEmailChange(at: int, cookie: Option<string>, submitted: string, underCap: bool, hash: string)
    | SettingsEmail(at: int, cookie: Option<string>, submitted: string, underCap: bool, hash: string)
    | ConfirmEmail(at: int, hash: string, cookie: Option<string>, sid: string)
    | RequestDelete(at: int, cookie: Option<string>, underCap: bool, hash: string)
    | ConfirmDelete(at: int, hash: string, cookie: Option<string>)
    | Logout(at: int, cookie: Option<string>)
    | FinishSync(at: int, id: nat, data: Data)
    | PurgeRound(at: int)

  /** The gate's library functions and the database's lower-casing. */
  datatype Env = Env(gate: Email.Gate, dbLower: string -> string)

  datatype World = World(accounts: Accounts, sessions: Sessions)

  function Next(w: World, op: Op): World {
    var after := AccountsNext(w.accounts, op);
    World(after, SessionsNext(w.sessions, w.accounts, after, op))
  }

  /** The world after some statements. */
  ghost function Play(w: World, ops: seq<Op>): World
    decreases |ops|
  {
    if ops == [] then w else Play(Next(w, ops[0]), ops[1..])
  }

  ghost function WorldAfter(ops: seq<Op>): World {
    World(AccountsAfter(ops), SessionsAfter(ops))
  }

  lemma {:induction false} PlayContinues(ops: seq<Op>, more: seq<Op>)
    ensures WorldAfter(ops + more) == Play(WorldAfter(ops), more)
    decreases |more|
  {
    if more == [] {
      assert ops + more == ops;
    } else {
      assert (ops + [more[0]])[..|ops|] == ops;
      assert ops + more == (ops + [more[0]]) + more[1..];
      PlayContinues(ops + [more[0]], more[1..]);
    }
  }

  /** An account the token leads to; there is one when the redemption finds something. */
  ghost function Holder(accounts: Accounts, kind: Kind, hash: string, now: int): nat {
    if Peek(accounts, kind, hash, now) == {} then 0
    else var id :| id in Peek(accounts, kind, hash, now); id
  }

  /** The account that answers to an address. */
  ghost function Addressee(accounts: Accounts, dbLower: string -> string, email: string): Option<nat> {
    if Known(accounts, dbLower, email) then var id :| Answers(accounts, dbLower, email, id); Some(id) else None
  }

  ghost function IfApplied(w: World, kind: Kind, hash: string, now: int, more: seq<Op>): seq<Op> {
    [Op.Redeem(now, kind, hash)] + if RedeemAnswer(w.accounts, kind, hash, now) == Applied then more else []
  }

  function PurgeOps(now: int): seq<Op> {
    [Op.PurgeStaleCooldowns(now), Op.PurgeExpiredSessions(now), Op.PurgeUnverified(now)]
  }

  ghost function LoginOps(w: World, hash: string, now: int, sid: string): seq<Op> {
    IfApplied(w, Login, hash, now, [Op.CreateSession(now, sid, Holder(w.accounts, Login, hash, now), now + SESSION_TTL)])
  }

  ghost function SignOut(w: World, id: nat, cookie: Option<string>, sid: string, now: int): seq<Op> {
    if Viewer(w.sessions, cookie, now) == Some(id) then
      [Op.CreateSession(now, sid, id, now + SESSION_TTL), Op.DeleteSession(now, cookie.value), Op.DeleteOtherSessions(now, id, sid)]
    else [Op.DeleteOtherSessions(now, id, "")]
  }

  /** parsed is what the gate makes of the submitted address. */
  ghost function SignupOps(w: World, parsed: (string, bool), r: Request): seq<Op>
    requires r.Signup?
  {
    var create := Op.CreateAccount(r.at, r.id, parsed.0, r.ftId, r.ftLogin, r.data);
    if !parsed.1 then []
    else if Taken(w.accounts, parsed.0, r.ftId, r.ftLogin) then [create]
    else [create, Op.CreateSession(r.at, r.sid, r.id, r.at + SESSION_TTL), Op.SetToken(r.at, r.id, Verify, Token(r.hash, r.at, ""))]
  }

  ghost function CorrectionOps(w: World, parsed: (string, bool), r: Request): seq<Op>
    requires r.VerifyEmailChange?
  {
    var v := Viewer(w.sessions, r.cookie, r.at);
    if !(parsed.1 && r.underCap && Unverified(w.accounts, w.sessions, r.cookie, r.at)) then []
    else if EmailFreeFor(w.accounts, v.value, parsed.0) then
      [Op.UpdateEmail(r.at, v.value, parsed.0), Op.SetToken(r.at, v.value, Verify, Token(r.hash, r.at, ""))]
    else [Op.UpdateEmail(r.at, v.value, parsed.0)]
  }

  /** The statements a handler issues that write, when it runs from start to end in w. */
  ghost function Statements(w: World, env: Env, r: Request): seq<Op> {
    match r
    case Signup(_, _, _, _, _, _, _, _) => SignupOps(w, Email.ParseEmail(env.gate, r.submitted), r)
    case SendLogin(at, submitted, underCap, hash) =>
      var (email, ok) := Email.ParseEmail(env.gate, submitted);
      var to := Addressee(w.accounts, env.dbLower, email);
      if ok && underCap && to.Some? then [Op.SetToken(at, to.value, Login, Token(hash, at, ""))] else []
    case LoginConsume(at, hash, sid) => LoginOps(w, hash, at, sid)
    case LoginWith42(at, id, sid) => [Op.CreateSession(at, sid, id, at + SESSION_TTL)]
    case VerifyEmail(at, hash) => [Op.Redeem(at, Verify, hash)]
    case VerifyResend(at, cookie, underCap, hash) =>
      if underCap && Unverified(w.accounts, w.sessions, cookie, at) then
        [Op.SetToken(at, Viewer(w.sessions, cookie, at).value, Verify, Token(hash, at, ""))]
      else []
    case VerifyEmailChange(_, _, _, _, _) => CorrectionOps(w, Email.ParseEmail(env.gate, r.submitted), r)
    case SettingsEmail(at, cookie, submitted, underCap, hash) =>
      var parsed := Email.ParseEmail(env.gate, submitted);
      if MayMove(w.accounts, w.sessions, cookie, at, parsed, underCap, env.dbLower) then
        [Op.SetToken(at, Viewer(w.sessions, cookie, at).value, EmailChange, Token(hash, at, parsed.0))]
      else []
    case ConfirmEmail(at, hash, cookie, sid) =>
      IfApplied(w, EmailChange, hash, at, SignOut(w, Holder(w.accounts, EmailChange, hash, at), cookie, sid, at))
    case RequestDelete(at, cookie, underCap, hash) =>
      if underCap && Verified(w.accounts, w.sessions, cookie, at) then
        [Op.SetToken(at, Viewer(w.sessions, cookie, at).value, Deletion, Token(hash, at, ""))]
      else []
    case ConfirmDelete(at, hash, cookie) =>
      IfApplied(w, Deletion, hash, at,
        if Viewer(w.sessions, cookie, at) == Some(Holder(w.accounts, Deletion, hash, at)) then [Op.DeleteSession(at, cookie.value)] else [])
    case Logout(at, cookie) => if cookie.Some? then [Op.DeleteSession(at, cookie.value)] else []
    case FinishSync(at, id, data) => [Op.UpdateSnapshot(at, id, data)]
    case PurgeRound(at) => PurgeOps(at)
  }

  /** The statements of a whole run of requests, one request after the other. */
  ghost function Log(env: Env, reqs: seq<Request>): seq<Op> {
    if reqs == [] then []
    else
      var before := Log(env, reqs[..|reqs| - 1]);
      before + Statements(WorldAfter(before), env, reqs[|reqs| - 1])
  }

  lemma LogSnoc(env: Env, reqs: seq<Request>, r: Request)
    ensures Log(env, reqs + [r]) == Log(env, reqs) + Statements(WorldAfter(Log(env, reqs)), env, r)
  {
    assert (reqs + [r])[..|reqs|] == reqs;
  }

  /** One more request plays its statements on the world the run has reached. */
  lemma RunContinues(env: Env, reqs: seq<Request>, r: Request)
    ensures var w := WorldAfter(Log(env, reqs)); WorldAfter(Log(env, reqs + [r])) == Play(w, Statements(w, env, r))
  {
    LogSnoc(env, reqs, r);
    PlayContinues(Log(env, reqs), Statements(WorldAfter(Log(env, reqs)), env, r));
  }

  lemma {:induction false} LogGrows(env: Env, reqs: seq<Request>, n: nat)
    requires n <= |reqs|
    ensures Log(env, reqs[..n]) <= Log(env, reqs)
  {
    if n < |reqs| {
      LogGrows(env, reqs[..|reqs| - 1], n);
      assert reqs[..|reqs| - 1][..n] == reqs[..n];
    } else {
      assert reqs[..n] == reqs;
    }
  }

  // ---- every run of requests is gated

  ghost predicate OpGated(accounts: Accounts, op: Op) {
    op.SetToken? && op.kind == Verify && op.id in accounts ==> !accounts[op.id].verified
  }

  ghost predicate GatedFrom(w: World, ops: seq<Op>)
    decreases |ops|
  {
    ops == [] || (OpGated(w.accounts, ops[0]) && GatedFrom(Next(w, ops[0]), ops[1..]))
  }

  lemma {:induction false} GatedContinues(ops: seq<Op>, more: seq<Op>)
    requires Gated(ops) && GatedFrom(WorldAfter(ops), more)
    ensures Gated(ops + more)
    decreases |more|
  {
    if more == [] {
      assert ops + more == ops;
    } else {
      assert (ops + [more[0]])[..|ops|] == ops;
      assert ops + more == (ops + [more[0]]) + more[1..];
      GatedContinues(ops + [more[0]], more[1..]);
    }
  }

  lemma {:induction false} NoLinksAreGated(w: World, ops: seq<Op>)
    requires forall i | 0 <= i < |ops| :: ops[i].SetToken? ==> ops[i].kind != Verify
    ensures GatedFrom(w, ops)
    decreases |ops|
  {
    if ops != [] {
      NoLinksAreGated(Next(w, ops[0]), ops[1..]);
    }
  }

  lemma SignupIsGated(w: World, parsed: (string, bool), r: Request)
    requires r.Signup?
    ensures GatedFrom(w, SignupOps(w, parsed, r))
  {
    var ops := SignupOps(w, parsed, r);
    if |ops| == 3 {
      var w1 := Next(w, ops[0]);
      var w2 := Next(w1, ops[1]);
      assert r.id in w1.accounts && !w1.accounts[r.id].verified && w2.accounts == w1.accounts;
      assert ops[1..][1..] == [ops[2]] && ops[1..][0] == ops[1];
      assert GatedFrom(Next(w2, ops[2]), [ops[2]][1..]);
      assert GatedFrom(w2, [ops[2]]);
      assert GatedFrom(w1, ops[1..]);
    } else {
      NoLinksAreGated(w, ops);
    }
  }

  lemma CorrectionIsGated(w: World, parsed: (string, bool), r: Request)
    requires r.VerifyEmailChange?
    ensures GatedFrom(w, CorrectionOps(w, parsed, r))
  {
    var ops := CorrectionOps(w, parsed, r);
    if |ops| == 2 {
      var w1 := Next(w, ops[0]);
      assert !w1.accounts[ops[1].id].verified;
      assert ops[1..] == [ops[1]];
      assert GatedFrom(Next(w1, ops[1]), [ops[1]][1..]);
      assert GatedFrom(w1, [ops[1]]);
    } else {
      NoLinksAreGated(w, ops);
    }
  }

  lemma StatementsAreGated(w: World, env: Env, r: Request)
    ensures GatedFrom(w, Statements(w, env, r))
  {
    if r.Signup? {
      SignupIsGated(w, Email.ParseEmail(env.gate, r.submitted), r);
    } else if r.VerifyEmailChange? {
      CorrectionIsGated(w, Email.ParseEmail(env.gate, r.submitted), r);
    } else if r.VerifyResend? {
      var ops := Statements(w, env, r);
      if ops != [] {
        assert ops[1..] == [];
      }
    } else {
      NoLinksAreGated(w, Statements(w, env, r));
    }
  }

  /** Handlers that do not interleave store verification tokens on unverified accounts only. */
  lemma {:induction false} RequestsAreGated(env: Env, reqs: seq<Request>)
    ensures Gated(Log(env, reqs))
  {
    if reqs != [] {
      var before := reqs[..|reqs| - 1];
      RequestsAreGated(env, before);
      StatementsAreGated(WorldAfter(Log(env, before)), env, reqs[|reqs| - 1]);
      GatedContinues(Log(env, before), Statements(WorldAfter(Log(env, before)), env, reqs[|reqs| - 1]));
    }
  }

  /** So in every run of requests an account once verified stays verified as long as it exists. */
  lemma {:induction false} VerifiedStays(env: Env, reqs: seq<Request>, n: nat, id: nat)
    requires Fresh(Log(env, reqs)) && n <= |reqs|
    requires var at := AccountsAfter(Log(env, reqs[..n])); id in at && at[id].verified
    requires id in AccountsAfter(Log(env, reqs))
    ensures AccountsAfter(Log(env, reqs))[id].verified
  {
    var ops, k := Log(env, reqs), |Log(env, reqs[..n])|;
    LogGrows(env, reqs, n);
    assert ops[..k] == Log(env, reqs[..n]);
    RequestsAreGated(env, reqs);
    VerifiedForGood(ops, k, id);
  }

  predicate IsRedemption(r: Request) {
    r.VerifyEmail? || r.LoginConsume?
  }

  function RedemptionOf(r: Request): Op
    requires IsRedemption(r)
  {
    Op.Redeem(r.at, if r.VerifyEmail? then Verify else Login, r.hash)
  }

  /** Request n redeemed a verification or login link of the account. */
  ghost predicate RedeemsLink(env: Env, reqs: seq<Request>, n: nat, id: nat) {
    && n < |reqs| && IsRedemption(reqs[n])
    && var accounts, kind := AccountsAfter(Log(env, reqs[..n])), if reqs[n].VerifyEmail? then Verify else Login;
    && RedeemAnswer(accounts, kind, reqs[n].hash, reqs[n].at) == Applied
    && id in Peek(accounts, kind, reqs[n].hash, reqs[n].at)
  }

  lemma RedemptionComesFirst(w: World, env: Env, r: Request)
    requires IsRedemption(r)
    ensures var ops := Statements(w, env, r); ops != [] && ops[0] == RedemptionOf(r)
  {
  }

  ghost predicate HasAt(ops: seq<Op>, early: seq<Op>, op: Op) {
    |early| < |ops| && ops[..|early|] == early && ops[|early|] == op
  }

  lemma HasAtStart(ops: seq<Op>, early: seq<Op>, more: seq<Op>, op: Op)
    requires ops == early + more && more != [] && more[0] == op
    ensures HasAt(ops, early, op)
  {
  }

  lemma HasAtLater(ops: seq<Op>, early: seq<Op>, op: Op, more: seq<Op>)
    requires HasAt(ops, early, op)
    ensures HasAt(ops + more, early, op)
  {
  }

  lemma LastRedemptionInLog(env: Env, front: seq<Request>, r: Request)
    requires IsRedemption(r)
    ensures HasAt(Log(env, front + [r]), Log(env, front), RedemptionOf(r))
  {
    LogSnoc(env, front, r);
    var early := Log(env, front);
    RedemptionComesFirst(WorldAfter(early), env, r);
    HasAtStart(Log(env, front + [r]), early, Statements(WorldAfter(early), env, r), RedemptionOf(r));
  }

  /** The redemption is the first statement of its request. */
  lemma {:induction false} RedemptionInLog(env: Env, reqs: seq<Request>, n: nat)
    requires n < |reqs| && IsRedemption(reqs[n])
    ensures HasAt(Log(env, reqs), Log(env, reqs[..n]), RedemptionOf(reqs[n]))
  {
    var front, last := reqs[..|reqs| - 1], reqs[|reqs| - 1];
    assert reqs == front + [last];
    if n == |reqs| - 1 {
      LastRedemptionInLog(env, front, last);
    } else {
      RedemptionInLog(env, front, n);
      assert front[..n] == reqs[..n];
      LogSnoc(env, front, last);
      HasAtLater(Log(env, front), Log(env, reqs[..n]), RedemptionOf(reqs[n]), Statements(WorldAfter(Log(env, front)), env, last));
    }
  }

  /** An account that ever redeemed a verification or login link survives every purge of every run of requests. */
  lemma {:induction false} RedeemerSurvivesPurges(env: Env, reqs: seq<Request>, n: nat, id: nat, now: int)
    requires Fresh(Log(env, reqs)) && RedeemsLink(env, reqs, n, id) && id in AccountsAfter(Log(env, reqs))
    ensures id in AccountsAfter(Log(env, reqs + [PurgeRound(now)]))
  {
    RedemptionInLog(env, reqs, n);
    RequestsAreGated(env, reqs);
    RedeemedSurvivesPurge(Log(env, reqs), |Log(env, reqs[..n])|, id, now);
    PurgeRoundPurges(env, reqs, now);
  }

  lemma PurgeRoundStatements(w: World, env: Env, now: int)
    ensures Statements(w, env, PurgeRound(now)) == PurgeOps(now)
  {
  }

  lemma {:induction false} PurgeRoundLog(env: Env, reqs: seq<Request>, now: int)
    ensures Log(env, reqs + [PurgeRound(now)]) == Log(env, reqs) + PurgeOps(now)
  {
    LogSnoc(env, reqs, PurgeRound(now));
    PurgeRoundStatements(WorldAfter(Log(env, reqs)), env, now);
  }

  lemma {:induction false} PurgeRoundPurges(env: Env, reqs: seq<Request>, now: int)
    ensures AccountsAfter(Log(env, reqs + [PurgeRound(now)])) == AccountsAfter(Log(env, reqs) + [Op.PurgeUnverified(now)])
  {
    PurgeRoundLog(env, reqs, now);
    AccountsAfterPurges(Log(env, reqs + [PurgeRound(now)]), Log(env, reqs), now);
  }

  lemma {:induction false} AccountsAfterPurges(log: seq<Op>, ops: seq<Op>, now: int)
    requires log == ops + PurgeOps(now)
    ensures AccountsAfter(log) == AccountsAfter(ops + [Op.PurgeUnverified(now)])
  {
    var a, b, c := Op.PurgeStaleCooldowns(now), Op.PurgeExpiredSessions(now), Op.PurgeUnverified(now);
    assert log == ops + [a] + [b] + [c];
    AccountsSnoc(ops, a);
    AccountsSnoc(ops + [a], b);
    AccountsSnoc(ops + [a] + [b], c);
    AccountsSnoc(ops, c);
  }

  lemma AccountsSnoc(ops: seq<Op>, op: Op)
    ensures AccountsAfter(ops + [op]) == AccountsNext(AccountsAfter(ops), op)
  {
    assert (ops + [op])[..|ops|] == ops;
  }

  // ---- what the other theorems about runs ask for

  /** A confirmation link leads to one account, as the confirming handlers count on. */
  lemma OneHolderInRuns(env: Env, reqs: seq<Request>, kind: Kind, hash: string, now: int)
    requires Fresh(Log(env, reqs))
    ensures OneHolder(AccountsAfter(Log(env, reqs)), kind, hash, now)
  {
    var ops := Log(env, reqs);
    forall x, y | x in Peek(AccountsAfter(ops), kind, hash, now) && y in Peek(AccountsAfter(ops), kind, hash, now)
      ensures x == y
    {
      PeekFindsAtMostOne(ops, kind, hash, now, x);
    }
  }

  /** Every address the statement writes is a good one. */
  ghost predicate Writes(op: Op, good: string -> bool) {
    && (op.CreateAccount? || op.UpdateEmail? ==> good(op.email))
    && (op.SetToken? && op.kind == EmailChange ==> good(op.token.pending))
  }

  ghost predicate AllWrite(ops: seq<Op>, good: string -> bool) {
    forall k | 0 <= k < |ops| :: Writes(ops[k], good)
  }

  lemma WriteTogether(ops: seq<Op>, more: seq<Op>, good: string -> bool)
    requires AllWrite(ops, good) && AllWrite(more, good)
    ensures AllWrite(ops + more, good)
  {
  }

  lemma SignupWrites(w: World, parsed: (string, bool), r: Request, good: string -> bool)
    requires r.Signup? && (parsed.1 ==> good(parsed.0))
    ensures AllWrite(SignupOps(w, parsed, r), good)
  {
  }

  lemma CorrectionWrites(w: World, parsed: (string, bool), r: Request, good: string -> bool)
    requires r.VerifyEmailChange? && (parsed.1 ==> good(parsed.0))
    ensures AllWrite(CorrectionOps(w, parsed, r), good)
  {
  }

  /** Whatever the gate lets through is good. */
  ghost predicate Guards(g: Email.Gate, good: string -> bool) {
    forall submitted :: Email.ParseEmail(g, submitted).1 ==> good(Email.ParseEmail(g, submitted).0)
  }

  lemma StatementsWrite(w: World, env: Env, r: Request, good: string -> bool)
    requires Guards(env.gate, good)
    ensures AllWrite(Statements(w, env, r), good)
  {
    if r.Signup? {
      SignupWrites(w, Email.ParseEmail(env.gate, r.submitted), r, good);
    } else if r.VerifyEmailChange? {
      CorrectionWrites(w, Email.ParseEmail(env.gate, r.submitted), r, good);
    }
  }

  /** In every run of requests, every address written has what the gate guarantees. */
  lemma {:induction false} RequestsPassGate(env: Env, reqs: seq<Request>, good: string -> bool)
    requires Guards(env.gate, good)
    ensures AllWrite(Log(env, reqs), good)
  {
    if reqs != [] {
      var before := Log(env, reqs[..|reqs| - 1]);
      RequestsPassGate(env, reqs[..|reqs| - 1], good);
      StatementsWrite(WorldAfter(before), env, reqs[|reqs| - 1], good);
      WriteTogether(before, Statements(WorldAfter(before), env, reqs[|reqs| - 1]), good);
    }
  }

  ghost predicate Unambiguous(accounts: Accounts, dbLower: string -> string, email: string) {
    forall i, j | Answers(accounts, dbLower, email, i) && Answers(accounts, dbLower, email, j) :: i == j
  }

  /** In every run of requests an address, in whatever casing, leads to at most one account. */
  lemma AddressesStayUnambiguous(env: Env, reqs: seq<Request>, email: string)
    requires forall s :: env.dbLower(env.gate.lower(s)) == env.gate.lower(s)
    ensures Unambiguous(AccountsAfter(Log(env, reqs)), env.dbLower, email)
  {
    var ops, lower := Log(env, reqs), env.dbLower;
    RequestsPassGate(env, reqs, e => lower(e) == e);
    forall k | 0 <= k < |ops|
      ensures WritesCanonical(ops[k], lower)
    {
      assert Writes(ops[k], e => lower(e) == e);
    }
    forall i, j | Answers(AccountsAfter(ops), lower, email, i) && Answers(AccountsAfter(ops), lower, email, j)
      ensures i == j
    {
      LookupByEmailIsUnique(ops, lower, email, i, j);
    }
  }
}
