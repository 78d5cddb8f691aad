/** Purging expired sessions and stale cooldown rows cannot be observed. */
module GcRuns {
  import opened Wrappers
  import opened Rows
  import opened StoreRuns
  import opened Cooldowns

  predicate IsGc(op: Op) {
    op.PurgeExpiredSessions? || op.PurgeStaleCooldowns?
  }

  datatype Reply = Silent | Who(account: Option<nat>) | Granted(ok: bool, waiting: Option<Wait>)

  /** What a statement about sessions or cooldowns tells its caller. */
  function ReplyOf(sessions: Sessions, slots: Slots, op: Op): Reply {
    match op
    case SessionAccount(at, sid) => Who(Resolve(sessions, sid, at))
    case ReserveSync(at, ft) => Granted(Free(slots, ft, at, SYNC_COOLDOWN), Remaining(slots, ft, at, SYNC_COOLDOWN))
    case SyncCooldown(at, ft) => Granted(false, Remaining(slots, ft, at, SYNC_COOLDOWN))
    case _ => Silent
  }

  ghost function WithoutGc(ops: seq<Op>): seq<Op> {
    if ops == [] then []
    else
      var before := WithoutGc(ops[..|ops| - 1]);
      if IsGc(ops[|ops| - 1]) then before else before + [ops[|ops| - 1]]
  }

  /** The replies of all statements but the purges, in order. */
  ghost function Replies(ops: seq<Op>): seq<Reply> {
    if ops == [] then []
    else
      var before, op := ops[..|ops| - 1], ops[|ops| - 1];
      if IsGc(op) then Replies(before)
      else Replies(before) + [ReplyOf(SessionsAfter(before), SlotsAfter(before), op)]
  }

  /** The clock never decreases, and a session id is never used twice. */
  ghost predicate Proper(ops: seq<Op>) {
    && (forall i, j | 0 <= i < j < |ops| :: ops[i].at <= ops[j].at)
    && (forall i, j | 0 <= i < j < |ops| && ops[i].CreateSession? && ops[j].CreateSession? :: ops[i].sid != ops[j].sid)
  }

  lemma ProperPrefix(ops: seq<Op>)
    requires Proper(ops) && ops != []
    ensures Proper(ops[..|ops| - 1])
    ensures forall i | 0 <= i < |ops| :: ops[i].at <= ops[|ops| - 1].at
  {
  }

  lemma {:induction false} SameAccounts(ops: seq<Op>)
    ensures AccountsAfter(WithoutGc(ops)) == AccountsAfter(ops)
  {
    if ops != [] {
      SameAccounts(ops[..|ops| - 1]);
      var w := WithoutGc(ops);
      if !IsGc(ops[|ops| - 1]) {
        assert w[..|w| - 1] == WithoutGc(ops[..|ops| - 1]);
      }
    }
  }

  // ---- sessions

  /** The row of a session that has not expired at this time. */
  function Visible(sessions: Sessions, sid: string, now: int): Option<Session> {
    if sid in sessions && sessions[sid].expires > now then Some(sessions[sid]) else None
  }

  ghost predicate OpenedIn(ops: seq<Op>, sid: string) {
    exists i | 0 <= i < |ops| :: ops[i].CreateSession? && ops[i].sid == sid
  }

  lemma {:induction false} SessionsWereOpened(ops: seq<Op>, sid: string)
    ensures sid in SessionsAfter(ops) ==> OpenedIn(ops, sid)
    ensures sid in SessionsAfter(WithoutGc(ops)) ==> OpenedIn(ops, sid)
  {
    if ops != [] {
      var before, op := ops[..|ops| - 1], ops[|ops| - 1];
      SessionsWereOpened(before, sid);
      if OpenedIn(before, sid) {
        var i :| 0 <= i < |before| && before[i].CreateSession? && before[i].sid == sid;
        assert ops[i] == before[i];
      }
      var w := WithoutGc(ops);
      if !IsGc(op) {
        assert w[..|w| - 1] == WithoutGc(before);
      }
    }
  }

  /** One statement treats equal visible rows alike. */
  lemma VisibleNext(x: Sessions, y: Sessions, before: Accounts, after: Accounts, op: Op, sid: string)
    requires Visible(x, sid, op.at) == Visible(y, sid, op.at) && !IsGc(op)
    requires op.CreateSession? && op.sid == sid ==> sid !in x && sid !in y
    ensures Visible(SessionsNext(x, before, after, op), sid, op.at) == Visible(SessionsNext(y, before, after, op), sid, op.at)
  {
  }

  lemma VisibleGc(x: Sessions, before: Accounts, after: Accounts, op: Op, sid: string)
    requires IsGc(op) && (sid in x ==> x[sid].account in after)
    ensures Visible(SessionsNext(x, before, after, op), sid, op.at) == Visible(x, sid, op.at)
  {
  }

  lemma NewSession(ops: seq<Op>, sid: string)
    requires Proper(ops) && ops != [] && ops[|ops| - 1].CreateSession? && ops[|ops| - 1].sid == sid
    ensures sid !in SessionsAfter(ops[..|ops| - 1]) && sid !in SessionsAfter(WithoutGc(ops[..|ops| - 1]))
  {
    var before := ops[..|ops| - 1];
    SessionsWereOpened(before, sid);
    assert forall i | 0 <= i < |before| :: before[i] == ops[i];
  }

  lemma {:induction false} SessionKeepsAccount(ops: seq<Op>, sid: string)
    ensures sid in SessionsAfter(ops) ==> SessionsAfter(ops)[sid].account in AccountsAfter(ops)
  {
    if ops != [] {
      SessionKeepsAccount(ops[..|ops| - 1], sid);
    }
  }

  lemma VisibleLater(x: Sessions, y: Sessions, sid: string, now: int, later: int)
    requires Visible(x, sid, now) == Visible(y, sid, now) && now <= later
    ensures Visible(x, sid, later) == Visible(y, sid, later)
  {
  }

  lemma VisibleStep(ops: seq<Op>, sid: string)
    requires Proper(ops) && ops != []
    requires var before := ops[..|ops| - 1];
      Visible(SessionsAfter(before), sid, ops[|ops| - 1].at) == Visible(SessionsAfter(WithoutGc(before)), sid, ops[|ops| - 1].at)
    ensures Visible(SessionsAfter(ops), sid, ops[|ops| - 1].at) == Visible(SessionsAfter(WithoutGc(ops)), sid, ops[|ops| - 1].at)
  {
    var before, op := ops[..|ops| - 1], ops[|ops| - 1];
    SameAccounts(before);
    SameAccounts(ops);
    if IsGc(op) {
      SessionKeepsAccount(before, sid);
      VisibleGc(SessionsAfter(before), AccountsAfter(before), AccountsAfter(ops), op, sid);
    } else {
      var w := WithoutGc(ops);
      assert w[..|w| - 1] == WithoutGc(before);
      if op.CreateSession? && op.sid == sid {
        NewSession(ops, sid);
      }
      VisibleNext(SessionsAfter(before), SessionsAfter(WithoutGc(before)), AccountsAfter(before), AccountsAfter(ops), op, sid);
    }
  }

  lemma {:induction false} SameVisible(ops: seq<Op>, sid: string, now: int)
    requires Proper(ops) && (ops != [] ==> ops[|ops| - 1].at <= now)
    ensures Visible(SessionsAfter(ops), sid, now) == Visible(SessionsAfter(WithoutGc(ops)), sid, now)
  {
    if ops != [] {
      ProperPrefix(ops);
      SameVisible(ops[..|ops| - 1], sid, ops[|ops| - 1].at);
      VisibleStep(ops, sid);
      VisibleLater(SessionsAfter(ops), SessionsAfter(WithoutGc(ops)), sid, ops[|ops| - 1].at, now);
    }
  }

  // ---- cooldowns

  lemma {:induction false} SameSlots(ops: seq<Op>, now: int)
    requires Proper(ops) && (ops != [] ==> ops[|ops| - 1].at <= now)
    ensures SameFrom(SlotsAfter(ops), SlotsAfter(WithoutGc(ops)), now, SYNC_COOLDOWN)
  {
    if ops != [] {
      var before, op := ops[..|ops| - 1], ops[|ops| - 1];
      ProperPrefix(ops);
      SameSlots(before, op.at);
      var x, y := SlotsAfter(before), SlotsAfter(WithoutGc(before));
      var w := WithoutGc(ops);
      if !IsGc(op) {
        assert w[..|w| - 1] == WithoutGc(before);
      }
      SlotsNextSame(x, y, op);
      SameLater(SlotsNext(x, op), if IsGc(op) then y else SlotsNext(y, op), op.at, now, SYNC_COOLDOWN);
    }
  }

  lemma SlotsNextSame(x: Slots, y: Slots, op: Op)
    requires SameFrom(x, y, op.at, SYNC_COOLDOWN)
    ensures SameFrom(SlotsNext(x, op), if IsGc(op) then y else SlotsNext(y, op), op.at, SYNC_COOLDOWN)
  {
    match op
    case ReserveSync(at, ft) => SameAfterReserve(x, y, at, SYNC_COOLDOWN, ft);
    case ReleaseSync(at, ft) => SameAfterRelease(x, y, at, SYNC_COOLDOWN, ft);
    case PurgeStaleCooldowns(at) =>
      SameAfterPurge(x, at, SYNC_COOLDOWN);
      SameTrans(SlotsNext(x, op), x, y, at);
    case _ =>
  }

  lemma SameTrans(x: Slots, y: Slots, z: Slots, now: int)
    requires SameFrom(x, y, now, SYNC_COOLDOWN) && SameFrom(y, z, now, SYNC_COOLDOWN)
    ensures SameFrom(x, z, now, SYNC_COOLDOWN)
  {
    forall ft: nat ensures Remaining(x, ft, now, SYNC_COOLDOWN) == Remaining(z, ft, now, SYNC_COOLDOWN) {
      assert Remaining(x, ft, now, SYNC_COOLDOWN) == Remaining(y, ft, now, SYNC_COOLDOWN);
    }
  }

  /** Any run gives every caller the replies it would get from the same run without the purges. */
  lemma {:induction false} GarbageCollectionIsInvisible(ops: seq<Op>)
    requires Proper(ops)
    ensures Replies(ops) == Replies(WithoutGc(ops))
  {
    if ops != [] {
      var before, op := ops[..|ops| - 1], ops[|ops| - 1];
      ProperPrefix(ops);
      GarbageCollectionIsInvisible(before);
      if !IsGc(op) {
        var w := WithoutGc(ops);
        assert w[..|w| - 1] == WithoutGc(before);
        SameReply(before, op);
      }
    }
  }

  lemma SameReply(before: seq<Op>, op: Op)
    requires Proper(before) && (before != [] ==> before[|before| - 1].at <= op.at)
    ensures ReplyOf(SessionsAfter(before), SlotsAfter(before), op)
         == ReplyOf(SessionsAfter(WithoutGc(before)), SlotsAfter(WithoutGc(before)), op)
  {
    match op
    case SessionAccount(at, sid) => SameVisible(before, sid, at);
    case ReserveSync(at, ft) =>
      SameSlots(before, at);
      SameFree(SlotsAfter(before), SlotsAfter(WithoutGc(before)), at, SYNC_COOLDOWN, ft);
    case SyncCooldown(at, ft) => SameSlots(before, at);
    case _ =>
  }
}
