/** The rows of the accounts and sessions tables, and each SQL statement as one atomic update of them. */
module Rows {
  import opened Wrappers
  import Curation

  const HOUR := 3600
  const DAY := 24 * HOUR
  const UNVERIFIED_ACCOUNT_TTL := 7 * DAY

  datatype Kind = Verify | Login | EmailChange | Deletion

  function Ttl(kind: Kind): nat {
    if kind == Login then HOUR else DAY
  }

  /** A token column pair; pending is the parked address that is written and cleared with an email-change pair. */
  datatype Token = Token(hash: string, sentAt: int, pending: string)

  type Data = map<string, Curation.Doc>

  datatype Account = Account(
    email: string, ftId: nat, ftLogin: string, data: Data, fetchedAt: int, verified: bool, slots: map<Kind, Token>)

  datatype Session = Session(account: nat, expires: int)

  type Accounts = map<nat, Account>
  type Sessions = map<string, Session>

  // ---- uniqueness

  predicate EmailsUnique(accounts: Accounts) {
    forall i, j | i in accounts && j in accounts && i != j :: accounts[i].email != accounts[j].email
  }

  predicate Taken(accounts: Accounts, email: string, ftId: nat, ftLogin: string) {
    exists i | i in accounts ::
      accounts[i].email == email || accounts[i].ftId == ftId || accounts[i].ftLogin == ftLogin
  }

  predicate EmailFreeFor(accounts: Accounts, id: nat, email: string) {
    forall j | j in accounts && j != id :: accounts[j].email != email
  }

  // ---- accounts

  function NewAccount(email: string, ftId: nat, ftLogin: string, data: Data, now: int): Account {
    Account(email, ftId, ftLogin, data, now, false, map[])
  }

  function Insert(accounts: Accounts, id: nat, a: Account): Accounts {
    if Taken(accounts, a.email, a.ftId, a.ftLogin) then accounts else accounts[id := a]
  }

  /** Storing a verification token also marks the account unverified. */
  function Issued(a: Account, kind: Kind, token: Token): Account {
    a.(slots := a.slots[kind := token], verified := a.verified && kind != Verify)
  }

  function SetToken(accounts: Accounts, id: nat, kind: Kind, token: Token): Accounts {
    if id in accounts then accounts[id := Issued(accounts[id], kind, token)] else accounts
  }

  /** The WHERE clause of every token query. */
  predicate Matches(a: Account, kind: Kind, hash: string, now: int) {
    kind in a.slots && a.slots[kind].hash == hash && a.slots[kind].sentAt > now - Ttl(kind)
  }

  /** The accounts a SELECT by token returns. */
  function Peek(accounts: Accounts, kind: Kind, hash: string, now: int): set<nat> {
    set id | id in accounts && Matches(accounts[id], kind, hash, now)
  }

  /** Redeeming clears the columns; verify and login links prove the address, an email change applies it. */
  function Redeemed(a: Account, kind: Kind): Account
    requires kind in a.slots
  {
    var b := a.(slots := a.slots - {kind});
    match kind
    case Verify => b.(verified := true)
    case Login => b.(verified := true)
    case EmailChange => b.(email := a.slots[kind].pending)
    case Deletion => b
  }

  /** The update (or delete) of a redemption before the unique constraint has its say. */
  function Consumed(accounts: Accounts, kind: Kind, hash: string, now: int): Accounts {
    if kind == Deletion then
      map id | id in accounts && !Matches(accounts[id], kind, hash, now) :: accounts[id]
    else
      map id | id in accounts :: if Matches(accounts[id], kind, hash, now) then Redeemed(accounts[id], kind) else accounts[id]
  }

  datatype Answer = Applied | NotFound | Duplicate

  function RedeemAnswer(accounts: Accounts, kind: Kind, hash: string, now: int): Answer {
    if Peek(accounts, kind, hash, now) == {} then NotFound
    else if EmailsUnique(Consumed(accounts, kind, hash, now)) then Applied else Duplicate
  }

  function Redeem(accounts: Accounts, kind: Kind, hash: string, now: int): Accounts {
    if RedeemAnswer(accounts, kind, hash, now) == Applied then Consumed(accounts, kind, hash, now) else accounts
  }

  function UpdateEmail(accounts: Accounts, id: nat, email: string): Accounts {
    if id in accounts && EmailFreeFor(accounts, id, email) then accounts[id := accounts[id].(email := email)] else accounts
  }

  /** data || curated: the emitted keys replace, all other keys stay. */
  function UpdateSnapshot(accounts: Accounts, id: nat, curated: Data, now: int): Accounts {
    if id in accounts then accounts[id := accounts[id].(data := accounts[id].data + curated, fetchedAt := now)] else accounts
  }

  predicate Overdue(a: Account, now: int) {
    !a.verified && Verify in a.slots && a.slots[Verify].sentAt < now - UNVERIFIED_ACCOUNT_TTL
  }

  function PurgeUnverified(accounts: Accounts, now: int): Accounts {
    map id | id in accounts && !Overdue(accounts[id], now) :: accounts[id]
  }

  // ---- sessions

  /** ON DELETE CASCADE: sessions of accounts that are gone go too. */
  function Cascade(sessions: Sessions, accounts: Accounts): Sessions {
    map sid | sid in sessions && sessions[sid].account in accounts :: sessions[sid]
  }

  /** The foreign key refuses a session for an account that does not exist, the primary key a second use of an id. */
  function AddSession(sessions: Sessions, accounts: Accounts, sid: string, s: Session): Sessions {
    if s.account in accounts && sid !in sessions then sessions[sid := s] else sessions
  }

  function DeleteOthers(sessions: Sessions, id: nat, keep: string): Sessions {
    map sid | sid in sessions && (sessions[sid].account != id || sid == keep) :: sessions[sid]
  }

  function PurgeExpired(sessions: Sessions, now: int): Sessions {
    map sid | sid in sessions && sessions[sid].expires > now :: sessions[sid]
  }

  /** SessionAccount: the account of a session that has not expired. */
  function Resolve(sessions: Sessions, sid: string, now: int): Option<nat> {
    if sid in sessions && sessions[sid].expires > now then Some(sessions[sid].account) else None
  }

  function SessionsOf(sessions: Sessions, id: nat): set<string> {
    set sid | sid in sessions && sessions[sid].account == id
  }

  // ---- what the statements do, row by row

  /** Only this account may differ. */
  ghost predicate OthersSame(before: Accounts, after: Accounts, id: nat) {
    forall x | x != id :: (x in before <==> x in after) && (x in before ==> after[x] == before[x])
  }

  /** The token is in its slot; a verification token leaves the account unverified, and nothing else changes. */
  ghost predicate WithToken(before: Account, after: Account, kind: Kind, token: Token) {
    && after == before.(slots := after.slots, verified := after.verified)
    && kind in after.slots && after.slots[kind] == token && after.slots - {kind} == before.slots - {kind}
    && after.verified == (before.verified && kind != Verify)
  }

  /** Unverified, and sent its last verification link more than seven days ago. */
  ghost predicate LinkLongUnused(a: Account, now: int) {
    !a.verified && Verify in a.slots && now - a.slots[Verify].sentAt > 7 * 24 * 3600
  }

  /** The account carries the token, and it is younger than an hour (login) or a day (the others). */
  ghost predicate Live(a: Account, kind: Kind, hash: string, now: int) {
    kind in a.slots && a.slots[kind].hash == hash && now - a.slots[kind].sentAt < (if kind == Login then 3600 else 24 * 3600)
  }

  /** A redemption empties the slot of every account that carried the live token, or deletes the account, and touches no other. */
  ghost predicate RedeemedIn(before: Accounts, after: Accounts, kind: Kind, hash: string, now: int) {
    && (forall x :: x in after <==> x in before && !(kind == Deletion && Live(before[x], kind, hash, now)))
    && (forall x | x in after && !Live(before[x], kind, hash, now) :: after[x] == before[x])
    && (forall x | x in after && Live(before[x], kind, hash, now) ::
          after[x] == before[x].(slots := before[x].slots - {kind}, verified := before[x].verified || kind == Verify || kind == Login,
                                 email := if kind == EmailChange then before[x].slots[kind].pending else before[x].email))
  }

  /** What the four redeeming queries do. */
  lemma RedeemMeans(accounts: Accounts, kind: Kind, hash: string, now: int)
    ensures RedeemAnswer(accounts, kind, hash, now) == NotFound <==> forall x | x in accounts :: !Live(accounts[x], kind, hash, now)
    ensures RedeemAnswer(accounts, kind, hash, now) == Applied ==>
      RedeemedIn(accounts, Redeem(accounts, kind, hash, now), kind, hash, now)
    ensures RedeemAnswer(accounts, kind, hash, now) != Applied ==> Redeem(accounts, kind, hash, now) == accounts
  {
    assert forall x | x in accounts :: Live(accounts[x], kind, hash, now) <==> x in Peek(accounts, kind, hash, now);
  }

  /** The sessions of accounts that are left stay, all others go. */
  ghost predicate SessionsOfThoseLeft(before: Sessions, after: Sessions, accounts: Accounts) {
    && (forall x :: x in after <==> x in before && before[x].account in accounts)
    && (forall x | x in after :: after[x] == before[x])
  }

  /** A new session leads to its account until it expires, and to nobody from then on. */
  lemma NewSessionResolves(sessions: Sessions, accounts: Accounts, sid: string, id: nat, expires: int, now: int)
    requires id in accounts && sid !in sessions
    ensures Resolve(AddSession(sessions, accounts, sid, Session(id, expires)), sid, now) == if now < expires then Some(id) else None
  {
  }
}
