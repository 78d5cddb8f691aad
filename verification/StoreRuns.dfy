/** Runs of store statements in any order, and the operations they are made of. */
module StoreRuns {
  import opened Rows
  import Cooldowns

  const SYNC_COOLDOWN := 15 * 60

  /** One statement; at is the database clock when it runs. */
  datatype Op =
    | CreateAccount(at: int, id: nat, email: string, ftId: nat, ftLogin: string, data: Data)
    | SetToken(at: int, id: nat, kind: Kind, token: Token)
    | Redeem(at: int, kind: Kind, hash: string)
    | UpdateEmail(at: int, id: nat, email: string)
    | UpdateSnapshot(at: int, id: nat, data: Data)
    | DeleteAccount(at: int, id: nat)
    | PurgeUnverified(at: int)
    | CreateSession(at: int, sid: string, id: nat, expires: int)
    | DeleteSession(at: int, sid: string)
    | DeleteOtherSessions(at: int, id: nat, keep: string)
    | PurgeExpiredSessions(at: int)
    | SessionAccount(at: int, sid: string)
    | ReserveSync(at: int, ft: nat)
    | ReleaseSync(at: int, ft: nat)
    | SyncCooldown(at: int, ft: nat)
    | PurgeStaleCooldowns(at: int)

  function AccountsNext(accounts: Accounts, op: Op): Accounts {
    match op
    case CreateAccount(at, id, email, ftId, ftLogin, data) => Insert(accounts, id, NewAccount(email, ftId, ftLogin, data, at))
    case SetToken(_, id, kind, token) => Rows.SetToken(accounts, id, kind, token)
    case Redeem(at, kind, hash) => Rows.Redeem(accounts, kind, hash, at)
    case UpdateEmail(_, id, email) => Rows.UpdateEmail(accounts, id, email)
    case UpdateSnapshot(at, id, data) => Rows.UpdateSnapshot(accounts, id, data, at)
    case DeleteAccount(_, id) => accounts - {id}
    case PurgeUnverified(at) => Rows.PurgeUnverified(accounts, at)
    case _ => accounts
  }

  /** Sessions after a statement, given the accounts before and after it. */
  function SessionsNext(sessions: Sessions, before: Accounts, after: Accounts, op: Op): Sessions {
    match op
    case CreateSession(_, sid, id, expires) => AddSession(sessions, before, sid, Session(id, expires))
    case DeleteSession(_, sid) => sessions - {sid}
    case DeleteOtherSessions(_, id, keep) => DeleteOthers(sessions, id, keep)
    case PurgeExpiredSessions(at) => PurgeExpired(sessions, at)
    case _ => Cascade(sessions, after)
  }

  function SlotsNext(slots: Cooldowns.Slots, op: Op): Cooldowns.Slots {
    match op
    case ReserveSync(at, ft) => Cooldowns.Reserve(slots, ft, at, SYNC_COOLDOWN)
    case ReleaseSync(_, ft) => Cooldowns.Release(slots, ft)
    case PurgeStaleCooldowns(at) => Cooldowns.Purge(slots, at, SYNC_COOLDOWN)
    case _ => slots
  }

  ghost function AccountsAfter(ops: seq<Op>): Accounts {
    if ops == [] then map[] else AccountsNext(AccountsAfter(ops[..|ops| - 1]), ops[|ops| - 1])
  }

  ghost function SessionsAfter(ops: seq<Op>): Sessions {
    if ops == [] then map[]
    else SessionsNext(SessionsAfter(ops[..|ops| - 1]), AccountsAfter(ops[..|ops| - 1]), AccountsAfter(ops), ops[|ops| - 1])
  }

  ghost function SlotsAfter(ops: seq<Op>): Cooldowns.Slots {
    if ops == [] then map[] else SlotsNext(SlotsAfter(ops[..|ops| - 1]), ops[|ops| - 1])
  }

  // ---- what randomness and sequences provide

  /** Account ids and token hashes are never used twice. */
  ghost predicate Fresh(ops: seq<Op>) {
    && (forall i, j | 0 <= i < j < |ops| && ops[i].CreateAccount? && ops[j].CreateAccount? :: ops[i].id != ops[j].id)
    && (forall i, j | 0 <= i < j < |ops| && ops[i].SetToken? && ops[j].SetToken? :: ops[i].token.hash != ops[j].token.hash)
  }

  lemma FreshPrefix(ops: seq<Op>)
    requires Fresh(ops) && ops != []
    ensures Fresh(ops[..|ops| - 1])
  {
  }

  ghost predicate CreatedIn(ops: seq<Op>, id: nat) {
    exists i | 0 <= i < |ops| :: ops[i].CreateAccount? && ops[i].id == id
  }

  lemma {:induction false} AccountsWereCreated(ops: seq<Op>, id: nat)
    requires id in AccountsAfter(ops)
    ensures CreatedIn(ops, id)
  {
    var before, op := ops[..|ops| - 1], ops[|ops| - 1];
    if id in AccountsAfter(before) {
      AccountsWereCreated(before, id);
      var i :| 0 <= i < |before| && before[i].CreateAccount? && before[i].id == id;
      assert ops[i] == before[i];
    } else {
      assert op.CreateAccount? && op.id == id;
    }
  }
}
