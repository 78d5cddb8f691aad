/**
 The request handlers that move accounts and sessions, each as one atomic step over
 the store. A cookie is the session id a browser sent, if any; random values and
 the clock come in as arguments.
 */
module Handlers {
  import opened Wrappers
  import opened Rows
  import opened Store
  import Curation
  import Email

  const SESSION_TTL := 30 * DAY

  /** No account that stays loses its verified flag. */
  ghost predicate FlagsKept(a: Accounts, b: Accounts) {
    forall id | id in a && id in b :: a[id].verified ==> b[id].verified
  }

  /** The sessions of every other account are untouched. */
  ghost predicate OthersKept(a: Sessions, b: Sessions, id: nat) {
    && (forall sid | sid in a && a[sid].account != id :: sid in b && b[sid] == a[sid])
    && (forall sid | sid in b && b[sid].account != id :: sid in a && a[sid] == b[sid])
  }

  /** At most one account answers to the hash, as fresh tokens guarantee. */
  ghost predicate OneHolder(accounts: Accounts, kind: Kind, hash: string, now: int) {
    forall x, y | x in Peek(accounts, kind, hash, now) && y in Peek(accounts, kind, hash, now) :: x == y
  }

  /** Between requests: the schema's constraints hold, and no session has a blank id. */
  ghost predicate Ready(s: Store)
    reads s
  {
    s.Valid() && "" !in s.sessions
  }

  /** A fresh random session id. */
  ghost predicate NewId(s: Store, sid: string)
    reads s
  {
    sid != "" && sid !in s.sessions
  }

  function Viewer(sessions: Sessions, cookie: Option<string>, now: int): Option<nat> {
    if cookie.Some? then Resolve(sessions, cookie.value, now) else None
  }

  /** The cookie names a session of the account that has not expired. */
  ghost predicate SignedInAs(sessions: Sessions, cookie: Option<string>, now: int, id: nat) {
    cookie.Some? && cookie.value in sessions && sessions[cookie.value].account == id && now < sessions[cookie.value].expires
  }

  lemma ViewerIsSignedIn(sessions: Sessions, cookie: Option<string>, now: int, id: nat)
    ensures Viewer(sessions, cookie, now) == Some(id) <==> SignedInAs(sessions, cookie, now, id)
  {
  }

  method CurrentAccount(s: Store, cookie: Option<string>, now: int) returns (account: Option<nat>)
    requires s.Valid()
    ensures account == Viewer(s.sessions, cookie, now)
    ensures account.Some? ==> account.value in s.accounts
  {
    account := None;
    if cookie.Some? {
      account := s.SessionAccount(cookie.value, now);
    }
  }

  /** A new session for the account, then the old one goes. */
  method RotateSession(s: Store, id: nat, oldSid: string, newSid: string, now: int)
    requires Ready(s) && id in s.accounts && NewId(s, newSid) && oldSid in s.sessions
    modifies s`sessions
    ensures Ready(s)
    ensures s.sessions == old(s.sessions)[newSid := Session(id, now + SESSION_TTL)] - {oldSid}
  {
    var ok := s.CreateSession(newSid, id, now + SESSION_TTL);
    s.DeleteSession(oldSid);
  }

  /** Redemptions other than deletions lose no account, so no session either. */
  lemma RedeemKeepsSessions(accounts: Accounts, sessions: Sessions, kind: Kind, hash: string, now: int)
    requires kind != Deletion && forall sid | sid in sessions :: sessions[sid].account in accounts
    ensures Rows.Redeem(accounts, kind, hash, now).Keys == accounts.Keys
    ensures Cascade(sessions, Rows.Redeem(accounts, kind, hash, now)) == sessions
    ensures FlagsKept(accounts, Rows.Redeem(accounts, kind, hash, now))
  {
  }

  lemma RotatedAlone(sessions: Sessions, id: nat, oldSid: string, newSid: string, expires: int)
    requires "" !in sessions && newSid != "" && newSid !in sessions && oldSid in sessions && sessions[oldSid].account == id
    ensures var after := DeleteOthers(sessions[newSid := Session(id, expires)] - {oldSid}, id, newSid);
      SessionsOf(after, id) == {newSid} && after[newSid].expires == expires && OthersKept(sessions, after, id) && "" !in after
  {
  }

  lemma SignedOutEverywhere(sessions: Sessions, id: nat)
    requires "" !in sessions
    ensures var after := DeleteOthers(sessions, id, "");
      SessionsOf(after, id) == {} && OthersKept(sessions, after, id)
  {
  }

  /** The sessions left when all of the account's go, but for a rotated one in the account's own browser. */
  function KeptSessions(sessions: Sessions, id: nat, cookie: Option<string>, newSid: string, now: int): Sessions {
    if Viewer(sessions, cookie, now) == Some(id) then
      DeleteOthers(sessions[newSid := Session(id, now + SESSION_TTL)] - {cookie.value}, id, newSid)
    else DeleteOthers(sessions, id, "")
  }

  /** The account has exactly the one rotated session, or none, and no other account's session moved. */
  ghost predicate OnlyRotated(before: Sessions, after: Sessions, id: nat, cookie: Option<string>, newSid: string, now: int) {
    && SessionsOf(after, id) == (if Viewer(before, cookie, now) == Some(id) then {newSid} else {})
    && (newSid in SessionsOf(after, id) ==> after[newSid].expires == now + 30 * 24 * 3600)
    && OthersKept(before, after, id)
    && "" !in after
  }

  lemma KeptAreRotated(sessions: Sessions, id: nat, cookie: Option<string>, newSid: string, now: int)
    requires "" !in sessions && newSid != "" && newSid !in sessions
    ensures OnlyRotated(sessions, KeptSessions(sessions, id, cookie, newSid, now), id, cookie, newSid, now)
  {
    if Viewer(sessions, cookie, now) == Some(id) {
      RotatedAlone(sessions, id, cookie.value, newSid, now + SESSION_TTL);
    } else {
      SignedOutEverywhere(sessions, id);
    }
  }

  /** Signs the account out everywhere, but for this browser, whose session is rotated. */
  method KeepOneSession(s: Store, id: nat, cookie: Option<string>, newSid: string, now: int)
    requires Ready(s) && NewId(s, newSid) && id in s.accounts
    modifies s`sessions
    ensures Ready(s) && s.sessions == KeptSessions(old(s.sessions), id, cookie, newSid, now)
    ensures OnlyRotated(old(s.sessions), s.sessions, id, cookie, newSid, now)
  {
    KeptAreRotated(s.sessions, id, cookie, newSid, now);
    var current := CurrentAccount(s, cookie, now);
    if current == Some(id) {
      RotateSession(s, id, cookie.value, newSid, now);
      s.DeleteOtherSessions(id, newSid);
    } else {
      s.DeleteOtherSessions(id, "");
    }
  }

  /** The one account that held the token now has the parked address and no pending change. */
  ghost predicate AddressApplied(before: Accounts, after: Accounts, id: nat, hash: string, now: int) {
    && Peek(before, EmailChange, hash, now) == {id}
    && id in after && after[id].email == before[id].slots[EmailChange].pending
    && EmailChange !in after[id].slots
  }

  lemma EmailChangeApplied(accounts: Accounts, hash: string, now: int, id: nat)
    requires id in Peek(accounts, EmailChange, hash, now) && RedeemAnswer(accounts, EmailChange, hash, now) == Applied
    requires OneHolder(accounts, EmailChange, hash, now)
    ensures AddressApplied(accounts, Rows.Redeem(accounts, EmailChange, hash, now), id, hash, now)
  {
  }

  /** The consume statement behind the email-change link. */
  method RedeemEmailChange(s: Store, hash: string, now: int) returns (answer: Answer, id: nat, notified: string)
    requires Ready(s) && OneHolder(s.accounts, EmailChange, hash, now)
    modifies s`accounts, s`sessions
    ensures Ready(s) && FlagsKept(old(s.accounts), s.accounts) && s.sessions == old(s.sessions)
    ensures answer == RedeemAnswer(old(s.accounts), EmailChange, hash, now)
    ensures s.accounts == Rows.Redeem(old(s.accounts), EmailChange, hash, now)
    ensures answer == Applied ==> AddressApplied(old(s.accounts), s.accounts, id, hash, now) && notified == old(s.accounts)[id].email
  {
    RedeemKeepsSessions(s.accounts, s.sessions, EmailChange, hash, now);
    answer, id, notified := s.RedeemToken(EmailChange, hash, now);
    if answer == Applied {
      EmailChangeApplied(old(s.accounts), hash, now, id);
    }
  }

  /**
   The POST behind the email-change link. Confirmed in the account's own browser, its
   sessions become exactly the rotated one; confirmed elsewhere, none remain.
   */
  method ConfirmEmail(s: Store, hash: string, cookie: Option<string>, newSid: string, now: int)
    returns (answer: Answer, id: nat, notified: string)
    requires Ready(s) && NewId(s, newSid) && OneHolder(s.accounts, EmailChange, hash, now)
    modifies s`accounts, s`sessions
    ensures Ready(s) && FlagsKept(old(s.accounts), s.accounts)
    ensures answer == RedeemAnswer(old(s.accounts), EmailChange, hash, now)
    ensures s.accounts == Rows.Redeem(old(s.accounts), EmailChange, hash, now)
    ensures answer == Applied ==> AddressApplied(old(s.accounts), s.accounts, id, hash, now) && notified == old(s.accounts)[id].email
    ensures s.sessions == if answer == Applied then KeptSessions(old(s.sessions), id, cookie, newSid, now) else old(s.sessions)
    ensures answer == Applied ==> OnlyRotated(old(s.sessions), s.sessions, id, cookie, newSid, now)
  {
    answer, id, notified := RedeemEmailChange(s, hash, now);
    if answer == Applied {
      KeepOneSession(s, id, cookie, newSid, now);
    }
  }

  lemma DeletionRemoves(accounts: Accounts, hash: string, now: int, id: nat)
    requires id in Peek(accounts, Deletion, hash, now) && OneHolder(accounts, Deletion, hash, now)
    requires RedeemAnswer(accounts, Deletion, hash, now) == Applied
    ensures Rows.Redeem(accounts, Deletion, hash, now) == accounts - {id}
  {
    assert forall x | x in accounts :: Matches(accounts[x], Deletion, hash, now) <==> x in Peek(accounts, Deletion, hash, now);
  }

  lemma SessionsGoWithAccount(accounts: Accounts, sessions: Sessions, id: nat)
    requires forall sid | sid in sessions :: sessions[sid].account in accounts
    ensures var after := Cascade(sessions, accounts - {id});
      SessionsOf(after, id) == {} && OthersKept(sessions, after, id)
      && forall sid | sid in sessions && sessions[sid].account == id :: after - {sid} == after
  {
  }

  /** The POST behind the deletion link: the account and all its sessions go, this browser's included. */
  method ConfirmDelete(s: Store, hash: string, cookie: Option<string>, now: int) returns (answer: Answer, id: nat)
    requires Ready(s) && OneHolder(s.accounts, Deletion, hash, now)
    modifies s`accounts, s`sessions
    ensures Ready(s) && FlagsKept(old(s.accounts), s.accounts)
    ensures answer == RedeemAnswer(old(s.accounts), Deletion, hash, now)
    ensures s.accounts == Rows.Redeem(old(s.accounts), Deletion, hash, now)
    ensures s.sessions == Cascade(old(s.sessions), s.accounts)
    ensures answer != Applied ==> s.accounts == old(s.accounts) && s.sessions == old(s.sessions)
    ensures answer == Applied ==>
      && Peek(old(s.accounts), Deletion, hash, now) == {id}
      && s.accounts == old(s.accounts) - {id}
      && SessionsOf(s.sessions, id) == {}
      && OthersKept(old(s.sessions), s.sessions, id)
  {
    var current := CurrentAccount(s, cookie, now);
    var oldEmail;
    answer, id, oldEmail := s.RedeemToken(Deletion, hash, now);
    if answer != Applied {
      assert s.sessions == old(s.sessions);
      return;
    }
    DeletionRemoves(old(s.accounts), hash, now, id);
    SessionsGoWithAccount(old(s.accounts), old(s.sessions), id);
    if current == Some(id) {
      s.DeleteSession(cookie.value);
    }
  }

  /** The GET behind the verification link. */
  method VerifyEmail(s: Store, hash: string, now: int) returns (answer: Answer, id: nat)
    requires Ready(s)
    modifies s`accounts, s`sessions
    ensures Ready(s) && FlagsKept(old(s.accounts), s.accounts) && s.sessions == old(s.sessions)
    ensures s.accounts == Rows.Redeem(old(s.accounts), Verify, hash, now)
    ensures answer == RedeemAnswer(old(s.accounts), Verify, hash, now)
    ensures answer == Applied ==> id in s.accounts && s.accounts[id].verified && Verify !in s.accounts[id].slots
  {
    RedeemKeepsSessions(s.accounts, s.sessions, Verify, hash, now);
    var oldEmail;
    answer, id, oldEmail := s.RedeemToken(Verify, hash, now);
  }

  /** The POST behind the login link: the account is verified and gains one session. */
  method LoginConsume(s: Store, hash: string, newSid: string, now: int) returns (answer: Answer, id: nat)
    requires Ready(s) && NewId(s, newSid)
    modifies s`accounts, s`sessions
    ensures Ready(s) && FlagsKept(old(s.accounts), s.accounts)
    ensures s.accounts == Rows.Redeem(old(s.accounts), Login, hash, now)
    ensures answer == RedeemAnswer(old(s.accounts), Login, hash, now)
    ensures answer != Applied ==> s.sessions == old(s.sessions)
    ensures answer == Applied ==> id in Peek(old(s.accounts), Login, hash, now) && id in s.accounts && s.accounts[id].verified
    ensures answer == Applied ==> s.sessions == old(s.sessions)[newSid := Session(id, now + 30 * 24 * 3600)]
  {
    RedeemKeepsSessions(s.accounts, s.sessions, Login, hash, now);
    var oldEmail;
    answer, id, oldEmail := s.RedeemToken(Login, hash, now);
    if answer == Applied {
      var ok := s.CreateSession(newSid, id, now + SESSION_TTL);
    }
  }

  /** The browser is signed in to an account that is still unverified. */
  ghost predicate Unverified(accounts: Accounts, sessions: Sessions, cookie: Option<string>, now: int) {
    var v := Viewer(sessions, cookie, now);
    v.Some? && v.value in accounts && !accounts[v.value].verified
  }

  /** The session's account when it may still be sent verification links: signed in and unverified. */
  method RequireUnverified(s: Store, cookie: Option<string>, now: int) returns (account: Option<nat>)
    requires s.Valid()
    ensures account == if Unverified(s.accounts, s.sessions, cookie, now) then Viewer(s.sessions, cookie, now) else None
  {
    account := CurrentAccount(s, cookie, now);
    if account.Some? && s.accounts[account.value].verified {
      account := None;
    }
  }

  /** Resend: only an unverified account gets a new link, and its old one is superseded. */
  method VerifyResend(s: Store, cookie: Option<string>, underCap: bool, hash: string, now: int) returns (sentTo: Option<nat>)
    requires Ready(s)
    modifies s`accounts
    ensures Ready(s) && FlagsKept(old(s.accounts), s.accounts)
    ensures sentTo == if underCap && Unverified(old(s.accounts), s.sessions, cookie, now) then Viewer(s.sessions, cookie, now) else None
    ensures s.accounts ==
      if sentTo.Some? then Rows.SetToken(old(s.accounts), sentTo.value, Verify, Token(hash, now, "")) else old(s.accounts)
    ensures sentTo.Some? ==> SignedInAs(s.sessions, cookie, now, sentTo.value) && sentTo.value in old(s.accounts)
    ensures sentTo.Some? ==> Relinked(old(s.accounts), s.accounts, sentTo.value, old(s.accounts)[sentTo.value].email, Token(hash, now, ""))
  {
    sentTo := RequireUnverified(s, cookie, now);
    if sentTo.None? || !underCap {
      return None;
    }
    s.SetToken(sentTo.value, Verify, Token(hash, now, ""));
  }

  /** An unverified browser within the cap submits an acceptable address that no other account holds. */
  ghost predicate MayCorrect(accounts: Accounts, sessions: Sessions, cookie: Option<string>, now: int, parsed: (string, bool), underCap: bool) {
    parsed.1 && underCap && Unverified(accounts, sessions, cookie, now)
    && EmailFreeFor(accounts, Viewer(sessions, cookie, now).value, parsed.0)
  }

  /** Who may correct an address: somebody signed in to an unverified account, with a text the gate accepts and nobody else's address. */
  lemma MayCorrectMeans(accounts: Accounts, sessions: Sessions, cookie: Option<string>, now: int, parsed: (string, bool), underCap: bool)
    ensures MayCorrect(accounts, sessions, cookie, now, parsed, underCap) <==>
      parsed.1 && underCap && exists id :: SignedInAs(sessions, cookie, now, id) && CanTake(accounts, id, false, parsed.0)
  {
    if MayCorrect(accounts, sessions, cookie, now, parsed, underCap) {
      assert SignedInAs(sessions, cookie, now, Viewer(sessions, cookie, now).value);
    }
  }

  /** The account is verified or not, as said, and nobody else holds the address. */
  ghost predicate CanTake(accounts: Accounts, id: nat, verified: bool, email: string) {
    id in accounts && accounts[id].verified == verified && forall x | x in accounts && x != id :: accounts[x].email != email
  }

  /** The account has the address and the verification token, is unverified, and nothing else changed anywhere. */
  ghost predicate Relinked(before: Accounts, after: Accounts, id: nat, email: string, token: Token) {
    && OthersSame(before, after, id) && id in before && id in after
    && after[id] == before[id].(email := email, verified := false, slots := before[id].slots[Verify := token])
  }

  function Corrected(accounts: Accounts, id: nat, email: string, token: Token): Accounts {
    Rows.SetToken(Rows.UpdateEmail(accounts, id, email), id, Verify, token)
  }

  lemma LinkKeepsOtherFlags(accounts: Accounts, id: nat, email: string, token: Token)
    requires id in accounts && !accounts[id].verified
    ensures FlagsKept(accounts, Corrected(accounts, id, email, token))
  {
  }

  /** A new address and a new link for an unverified account, unless the address is taken. */
  method ChangeAddress(s: Store, id: nat, email: string, hash: string, now: int) returns (ok: bool)
    requires Ready(s) && id in s.accounts && !s.accounts[id].verified
    modifies s`accounts
    ensures Ready(s) && FlagsKept(old(s.accounts), s.accounts)
    ensures ok <==> EmailFreeFor(old(s.accounts), id, email)
    ensures s.accounts == if ok then Corrected(old(s.accounts), id, email, Token(hash, now, "")) else old(s.accounts)
    ensures ok ==> Relinked(old(s.accounts), s.accounts, id, email, Token(hash, now, ""))
  {
    ok := s.UpdateEmail(id, email);
    if ok {
      LinkKeepsOtherFlags(old(s.accounts), id, email, Token(hash, now, ""));
      s.SetToken(id, Verify, Token(hash, now, ""));
    }
  }

  /** Correcting the address: refused changes touch nothing, an accepted one also issues a new link. */
  method VerifyEmailChange(s: Store, cookie: Option<string>, g: Email.Gate, submitted: string, underCap: bool,
    hash: string, now: int) returns (changed: Option<nat>)
    requires Ready(s)
    modifies s`accounts
    ensures Ready(s) && FlagsKept(old(s.accounts), s.accounts)
    ensures changed.None? ==> s.accounts == old(s.accounts)
    ensures changed.Some? ==> Viewer(s.sessions, cookie, now) == changed
    ensures changed.Some? <==> MayCorrect(old(s.accounts), s.sessions, cookie, now, Email.ParseEmail(g, submitted), underCap)
    ensures changed.Some? ==> s.accounts == Corrected(old(s.accounts), changed.value, Email.ParseEmail(g, submitted).0, Token(hash, now, ""))
    ensures changed.Some? ==> Relinked(old(s.accounts), s.accounts, changed.value, Email.ParseEmail(g, submitted).0, Token(hash, now, ""))
  {
    changed := RequireUnverified(s, cookie, now);
    var (email, valid) := Email.ParseEmail(g, submitted);
    if changed.None? || !valid || !underCap {
      return None;
    }
    var ok := ChangeAddress(s, changed.value, email, hash, now);
    if !ok {
      return None;
    }
  }

  /** Signs the account in and sends it a verification link. */
  method WelcomeUnverified(s: Store, id: nat, newSid: string, hash: string, now: int)
    requires Ready(s) && NewId(s, newSid) && id in s.accounts
    modifies s`accounts, s`sessions
    ensures Ready(s) && s.accounts == Rows.SetToken(old(s.accounts), id, Verify, Token(hash, now, ""))
    ensures s.sessions == old(s.sessions)[newSid := Session(id, now + SESSION_TTL)]
  {
    var ok := s.CreateSession(newSid, id, now + SESSION_TTL);
    s.SetToken(id, Verify, Token(hash, now, ""));
  }

  lemma NewAccountLinked(accounts: Accounts, id: nat, email: string, ftId: nat, ftLogin: string, data: Data, hash: string, now: int)
    ensures Rows.SetToken(accounts[id := Account(email, ftId, ftLogin, data, now, false, map[])], id, Verify, Token(hash, now, "")) ==
      accounts[id := Account(email, ftId, ftLogin, data, now, false, map[Verify := Token(hash, now, "")])]
  {
  }

  /** A new unverified account with one session and one outstanding verification link, or nothing. */
  method OpenAccount(s: Store, email: string, ftId: nat, ftLogin: string, raw: map<string, Curation.Raw>, newSid: string, hash: string, now: int)
    returns (created: Option<nat>, ghost curated: Data)
    requires Ready(s) && NewId(s, newSid)
    modifies s
    ensures Ready(s) && Curation.CurationOf(curated, raw)
    ensures created.Some? <==> !Taken(old(s.accounts), email, ftId, ftLogin)
    ensures created.None? ==> s.accounts == old(s.accounts) && s.sessions == old(s.sessions)
    ensures created.Some? ==> created.value !in old(s.accounts)
    ensures created.Some? ==> s.accounts == old(s.accounts)[created.value :=
      Account(email, ftId, ftLogin, curated, now, false, map[Verify := Token(hash, now, "")])]
    ensures created.Some? ==> s.sessions == old(s.sessions)[newSid := Session(created.value, now + SESSION_TTL)]
  {
    created, curated := s.CreateAccount(email, ftId, ftLogin, raw, now);
    if created.Some? {
      NewAccountLinked(old(s.accounts), created.value, email, ftId, ftLogin, curated, hash, now);
      WelcomeUnverified(s, created.value, newSid, hash, now);
    }
  }

  /**
   What a sign-up does, with parsed what the gate made of the address: nothing when the gate
   refuses it or the address, 42 id or login is taken, else one new unverified account
   with one session and one outstanding verification link.
   */
  ghost predicate SignedUp(accounts: Accounts, sessions: Sessions, after: Accounts, sessionsAfter: Sessions, parsed: (string, bool),
    ftId: nat, ftLogin: string, created: Option<nat>, data: Data, sid: string, hash: string, now: int)
  {
    && (created.Some? <==> parsed.1 && !Taken(accounts, parsed.0, ftId, ftLogin))
    && (created.None? ==> after == accounts && sessionsAfter == sessions)
    && (created.Some? ==> created.value !in accounts && sessionsAfter == sessions[sid := Session(created.value, now + SESSION_TTL)])
    && (created.Some? ==> after == accounts[created.value :=
          Account(parsed.0, ftId, ftLogin, data, now, false, map[Verify := Token(hash, now, "")])])
  }

  method SignupParsed(s: Store, parsed: (string, bool), ftId: nat, ftLogin: string, raw: map<string, Curation.Raw>,
    newSid: string, hash: string, now: int) returns (created: Option<nat>, ghost curated: Data)
    requires Ready(s) && NewId(s, newSid)
    modifies s
    ensures Ready(s) && (created.Some? ==> Curation.CurationOf(curated, raw))
    ensures SignedUp(old(s.accounts), old(s.sessions), s.accounts, s.sessions, parsed, ftId, ftLogin, created, curated, newSid, hash, now)
  {
    if !parsed.1 {
      return None, map[];
    }
    created, curated := OpenAccount(s, parsed.0, ftId, ftLogin, raw, newSid, hash, now);
  }

  /** Sign-up through the gate. */
  method Signup(s: Store, g: Email.Gate, submitted: string, ftId: nat, ftLogin: string, raw: map<string, Curation.Raw>,
    newSid: string, hash: string, now: int) returns (created: Option<nat>, ghost curated: Data)
    requires Ready(s) && NewId(s, newSid)
    modifies s
    ensures Ready(s) && (created.Some? ==> Curation.CurationOf(curated, raw))
    ensures SignedUp(old(s.accounts), old(s.sessions), s.accounts, s.sessions, Email.ParseEmail(g, submitted), ftId, ftLogin,
      created, curated, newSid, hash, now)
  {
    created, curated := SignupParsed(s, Email.ParseEmail(g, submitted), ftId, ftLogin, raw, newSid, hash, now);
  }

  /** Stores a token that leaves the verified flag alone. */
  method StoreLink(s: Store, id: nat, kind: Kind, token: Token)
    requires Ready(s) && kind != Verify
    modifies s`accounts
    ensures Ready(s) && FlagsKept(old(s.accounts), s.accounts) && s.accounts == Rows.SetToken(old(s.accounts), id, kind, token)
  {
    s.SetToken(id, kind, token);
  }

  /** The account behind a submitted address is sent a login link, if there is one. */
  method SendLoginLink(s: Store, g: Email.Gate, dbLower: string -> string, submitted: string, underCap: bool, hash: string, now: int)
    returns (sentTo: Option<nat>)
    requires Ready(s)
    modifies s`accounts
    ensures Ready(s) && FlagsKept(old(s.accounts), s.accounts)
    ensures var (email, ok) := Email.ParseEmail(g, submitted);
      (sentTo.Some? <==> ok && underCap && Known(old(s.accounts), dbLower, email))
      && (sentTo.Some? ==> Answers(old(s.accounts), dbLower, email, sentTo.value))
    ensures s.accounts ==
      if sentTo.Some? then Rows.SetToken(old(s.accounts), sentTo.value, Login, Token(hash, now, "")) else old(s.accounts)
  {
    var (email, valid) := Email.ParseEmail(g, submitted);
    if !valid || !underCap {
      return None;
    }
    sentTo := AccountByEmail(s, dbLower, email);
    if sentTo.Some? {
      StoreLink(s, sentTo.value, Login, Token(hash, now, ""));
    }
  }

  /** The database compares lower-cased addresses. */
  predicate Answers(accounts: Accounts, dbLower: string -> string, email: string, id: nat) {
    id in accounts && dbLower(accounts[id].email) == dbLower(email)
  }

  ghost predicate Known(accounts: Accounts, dbLower: string -> string, email: string) {
    exists id :: Answers(accounts, dbLower, email, id)
  }

  method AccountByEmail(s: Store, dbLower: string -> string, email: string) returns (found: Option<nat>)
    ensures found.Some? <==> Known(s.accounts, dbLower, email)
    ensures found.Some? ==> Answers(s.accounts, dbLower, email, found.value)
  {
    var hits := set id | id in s.accounts && Answers(s.accounts, dbLower, email, id);
    assert forall id: nat :: Answers(s.accounts, dbLower, email, id) <==> id in hits;
    if hits == {} {
      return None;
    }
    var id :| id in hits;
    found := Some(id);
  }

  /** The browser is signed in to a verified account. */
  ghost predicate Verified(accounts: Accounts, sessions: Sessions, cookie: Option<string>, now: int) {
    var v := Viewer(sessions, cookie, now);
    v.Some? && v.value in accounts && accounts[v.value].verified
  }

  /** A verified account within its cap asks for an acceptable address that no account answers to. */
  ghost predicate MayMove(accounts: Accounts, sessions: Sessions, cookie: Option<string>, now: int, parsed: (string, bool), underCap: bool,
    dbLower: string -> string)
  {
    parsed.1 && underCap && Verified(accounts, sessions, cookie, now)
    && accounts[Viewer(sessions, cookie, now).value].email != parsed.0 && !Known(accounts, dbLower, parsed.0)
  }

  method EmailMover(s: Store, cookie: Option<string>, g: Email.Gate, dbLower: string -> string, submitted: string, underCap: bool, now: int)
    returns (asker: Option<nat>)
    requires s.Valid()
    ensures asker == if MayMove(s.accounts, s.sessions, cookie, now, Email.ParseEmail(g, submitted), underCap, dbLower)
      then Viewer(s.sessions, cookie, now) else None
  {
    asker := CurrentAccount(s, cookie, now);
    var (email, valid) := Email.ParseEmail(g, submitted);
    if asker.None? || !s.accounts[asker.value].verified || !valid || email == s.accounts[asker.value].email || !underCap {
      return None;
    }
    var holder := AccountByEmail(s, dbLower, email);
    if holder.Some? {
      return None;
    }
  }

  /** Who may park an address: somebody signed in to a verified account, with an accepted address that is neither theirs nor anyone's. */
  lemma MayMoveMeans(accounts: Accounts, sessions: Sessions, cookie: Option<string>, now: int, parsed: (string, bool), underCap: bool,
    dbLower: string -> string)
    ensures MayMove(accounts, sessions, cookie, now, parsed, underCap, dbLower) <==>
      parsed.1 && underCap && (forall x | x in accounts :: dbLower(accounts[x].email) != dbLower(parsed.0))
      && exists id :: SignedInAs(sessions, cookie, now, id) && CanTake(accounts, id, true, parsed.0) && accounts[id].email != parsed.0
  {
    if MayMove(accounts, sessions, cookie, now, parsed, underCap, dbLower) {
      var id := Viewer(sessions, cookie, now).value;
      assert SignedInAs(sessions, cookie, now, id);
      forall x | x in accounts
        ensures dbLower(accounts[x].email) != dbLower(parsed.0)
      {
        assert !Answers(accounts, dbLower, parsed.0, x);
      }
    }
  }

  /** The settings form: parks the new address with a fresh link; the account's own address stays until that is redeemed. */
  method SettingsEmail(s: Store, cookie: Option<string>, g: Email.Gate, dbLower: string -> string, submitted: string, underCap: bool,
    hash: string, now: int) returns (asked: Option<nat>)
    requires Ready(s)
    modifies s`accounts
    ensures Ready(s) && FlagsKept(old(s.accounts), s.accounts)
    ensures asked == if MayMove(old(s.accounts), s.sessions, cookie, now, Email.ParseEmail(g, submitted), underCap, dbLower)
      then Viewer(s.sessions, cookie, now) else None
    ensures s.accounts == if asked.Some? then
      Rows.SetToken(old(s.accounts), asked.value, EmailChange, Token(hash, now, Email.ParseEmail(g, submitted).0)) else old(s.accounts)
    ensures asked.Some? ==> SignedInAs(s.sessions, cookie, now, asked.value)
  {
    asked := EmailMover(s, cookie, g, dbLower, submitted, underCap, now);
    if asked.Some? {
      StoreLink(s, asked.value, EmailChange, Token(hash, now, Email.ParseEmail(g, submitted).0));
    }
  }

  /** A verified account within its cap is sent a deletion link; nothing is erased yet. */
  method RequestDelete(s: Store, cookie: Option<string>, underCap: bool, hash: string, now: int) returns (asked: Option<nat>)
    requires Ready(s)
    modifies s`accounts
    ensures Ready(s) && FlagsKept(old(s.accounts), s.accounts)
    ensures asked == if underCap && Verified(old(s.accounts), s.sessions, cookie, now) then Viewer(s.sessions, cookie, now) else None
    ensures s.accounts ==
      if asked.Some? then Rows.SetToken(old(s.accounts), asked.value, Deletion, Token(hash, now, "")) else old(s.accounts)
    ensures asked.Some? <==> underCap && exists id :: SignedInAs(s.sessions, cookie, now, id) && id in old(s.accounts) && old(s.accounts)[id].verified
  {
    asked := CurrentAccount(s, cookie, now);
    if asked.None? || !s.accounts[asked.value].verified || !underCap {
      return None;
    }
    StoreLink(s, asked.value, Deletion, Token(hash, now, ""));
  }

  /** Signing in after a matched sync starts a session for the matched account, if it still exists. */
  method SyncSignin(s: Store, matched: nat, newSid: string, now: int) returns (ok: bool)
    requires Ready(s) && NewId(s, newSid)
    modifies s`sessions
    ensures Ready(s) && ok == (matched in s.accounts)
    ensures s.sessions == if ok then old(s.sessions)[newSid := Session(matched, now + SESSION_TTL)] else old(s.sessions)
  {
    ok := s.CreateSession(newSid, matched, now + SESSION_TTL);
  }

  method Logout(s: Store, cookie: Option<string>)
    requires Ready(s)
    modifies s`sessions
    ensures Ready(s)
    ensures s.sessions == if cookie.Some? then old(s.sessions) - {cookie.value} else old(s.sessions)
  {
    if cookie.Some? {
      s.DeleteSession(cookie.value);
    }
  }
}
