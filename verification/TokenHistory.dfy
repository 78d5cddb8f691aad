/** The four token slots of an account stand for a history of issue and redeem events. */
module TokenHistory {
  import opened Rows
  import opened StoreRuns

  datatype Event = Issue(kind: Kind, id: nat, token: Token) | Use(kind: Kind, hash: string) | Nothing

  /** What a statement adds to the history: a token stored on an existing account, or a successful redemption. */
  ghost function EventOf(accounts: Accounts, op: Op): Event {
    match op
    case SetToken(_, id, kind, token) => if id in accounts then Issue(kind, id, token) else Nothing
    case Redeem(at, kind, hash) => if RedeemAnswer(accounts, kind, hash, at) == Applied then Use(kind, hash) else Nothing
    case _ => Nothing
  }

  ghost function History(ops: seq<Op>): seq<Event> {
    if ops == [] then []
    else History(ops[..|ops| - 1]) + [EventOf(AccountsAfter(ops[..|ops| - 1]), ops[|ops| - 1])]
  }

  /** Event i issued this token, no later event issued another of its kind to the account, and none used it. */
  ghost predicate Outstanding(log: seq<Event>, i: nat, kind: Kind, id: nat, token: Token) {
    && i < |log| && log[i] == Issue(kind, id, token)
    && (forall j | i < j < |log| :: !(log[j].Issue? && log[j].kind == kind && log[j].id == id))
    && (forall j | i < j < |log| :: log[j] != Use(kind, token.hash))
  }

  ghost predicate SlotIssued(log: seq<Event>, a: Account, kind: Kind, id: nat) {
    kind in a.slots ==> exists i: nat :: Outstanding(log, i, kind, id, a.slots[kind])
  }

  ghost predicate IssueKept(log: seq<Event>, a: Account, kind: Kind, id: nat) {
    forall i: nat, token :: Outstanding(log, i, kind, id, token) ==> kind in a.slots && a.slots[kind] == token
  }

  lemma {:induction false} HistoryEvents(ops: seq<Op>, i: nat)
    requires i < |History(ops)|
    ensures |History(ops)| == |ops|
    ensures var e := History(ops)[i];
      e.Issue? ==> ops[i].SetToken? && ops[i].token == e.token && ops[i].id == e.id && CreatedIn(ops, e.id)
  {
    var before := ops[..|ops| - 1];
    HistoryLength(ops);
    if i < |before| {
      HistoryEvents(before, i);
      if History(before)[i].Issue? {
        var k :| 0 <= k < |before| && before[k].CreateAccount? && before[k].id == before[i].id;
        assert ops[k] == before[k];
      }
    } else if History(ops)[i].Issue? {
      AccountsWereCreated(before, ops[i].id);
      var k :| 0 <= k < |before| && before[k].CreateAccount? && before[k].id == ops[i].id;
      assert ops[k] == before[k];
    }
  }

  lemma {:induction false} HistoryLength(ops: seq<Op>)
    ensures |History(ops)| == |ops|
  {
    if ops != [] {
      HistoryLength(ops[..|ops| - 1]);
    }
  }

  /** Fresh hashes: a hash in the history names one issue. */
  lemma OneIssuePerHash(ops: seq<Op>, i: nat, j: nat)
    requires Fresh(ops) && i < |History(ops)| && j < |History(ops)|
    requires History(ops)[i].Issue? && History(ops)[j].Issue? && History(ops)[i].token.hash == History(ops)[j].token.hash
    ensures i == j
  {
    HistoryEvents(ops, i);
    HistoryEvents(ops, j);
  }

  // ---- how one statement changes one slot

  /** What is left of an outstanding token after one more event. */
  lemma OutstandingAppend(log: seq<Event>, e: Event, i: nat, kind: Kind, id: nat, token: Token)
    ensures Outstanding(log + [e], i, kind, id, token) <==>
      if i < |log| then Outstanding(log, i, kind, id, token) && !(e.Issue? && e.kind == kind && e.id == id) && e != Use(kind, token.hash)
      else i == |log| && e == Issue(kind, id, token)
  {
    var next := log + [e];
    if i < |log| {
      assert next[i] == log[i];
      assert forall j | i < j < |log| :: next[j] == log[j];
      assert next[|log|] == e;
    }
  }

  /** The slot an account that survives a statement has afterwards. */
  ghost predicate SlotStep(a: Account, b: Account, kind: Kind, id: nat, e: Event) {
    if e.Issue? && e.kind == kind && e.id == id then kind in b.slots && b.slots[kind] == e.token
    else if e.Use? && e.kind == kind && kind in a.slots && a.slots[kind].hash == e.hash then kind !in b.slots
    else (kind in b.slots <==> kind in a.slots) && (kind in a.slots ==> b.slots[kind] == a.slots[kind])
  }

  lemma SlotStepKeepsMatch(log: seq<Event>, a: Account, b: Account, kind: Kind, id: nat, e: Event)
    requires SlotIssued(log, a, kind, id) && IssueKept(log, a, kind, id) && SlotStep(a, b, kind, id, e)
    ensures SlotIssued(log + [e], b, kind, id) && IssueKept(log + [e], b, kind, id)
  {
    if kind in b.slots {
      if e.Issue? && e.kind == kind && e.id == id {
        OutstandingAppend(log, e, |log|, kind, id, b.slots[kind]);
      } else {
        var i: nat :| Outstanding(log, i, kind, id, a.slots[kind]);
        OutstandingAppend(log, e, i, kind, id, a.slots[kind]);
      }
    }
    forall i: nat, token | Outstanding(log + [e], i, kind, id, token)
      ensures kind in b.slots && b.slots[kind] == token
    {
      OutstandingAppend(log, e, i, kind, id, token);
    }
  }

  /** No two accounts carry the same hash in a slot. */
  lemma HashOnOneAccount(ops: seq<Op>, kind: Kind, id: nat, other: nat)
    requires Fresh(ops) && id in AccountsAfter(ops) && other in AccountsAfter(ops)
    requires SlotIssued(History(ops), AccountsAfter(ops)[id], kind, id)
    requires SlotIssued(History(ops), AccountsAfter(ops)[other], kind, other)
    requires var a, b := AccountsAfter(ops)[id], AccountsAfter(ops)[other];
      kind in a.slots && kind in b.slots && a.slots[kind].hash == b.slots[kind].hash
    ensures id == other
  {
    var log, a, b := History(ops), AccountsAfter(ops)[id], AccountsAfter(ops)[other];
    var i: nat :| Outstanding(log, i, kind, id, a.slots[kind]);
    var j: nat :| Outstanding(log, j, kind, other, b.slots[kind]);
    OneIssuePerHash(ops, i, j);
  }

  /** Whoever carries a redeemed hash is the one redeemed. */
  lemma RedeemTakesHash(ops: seq<Op>, at: int, kind: Kind, hash: string, id: nat)
    requires Fresh(ops) && id in AccountsAfter(ops)
    requires forall x | x in AccountsAfter(ops) :: SlotIssued(History(ops), AccountsAfter(ops)[x], kind, x)
    requires RedeemAnswer(AccountsAfter(ops), kind, hash, at) == Applied
    requires kind in AccountsAfter(ops)[id].slots && AccountsAfter(ops)[id].slots[kind].hash == hash
    ensures Matches(AccountsAfter(ops)[id], kind, hash, at)
  {
    var accounts := AccountsAfter(ops);
    var hit :| hit in Peek(accounts, kind, hash, at);
    HashOnOneAccount(ops, kind, id, hit);
  }

  lemma RedeemSlotStep(ops: seq<Op>, op: Op, kind: Kind, id: nat)
    requires Fresh(ops) && op.Redeem?
    requires forall x, k | x in AccountsAfter(ops) :: SlotIssued(History(ops), AccountsAfter(ops)[x], k, x)
    requires id in AccountsAfter(ops) && id in AccountsNext(AccountsAfter(ops), op)
    ensures SlotStep(AccountsAfter(ops)[id], AccountsNext(AccountsAfter(ops), op)[id], kind, id, EventOf(AccountsAfter(ops), op))
  {
    var accounts := AccountsAfter(ops);
    if RedeemAnswer(accounts, op.kind, op.hash, op.at) == Applied {
      if kind == op.kind && kind in accounts[id].slots && accounts[id].slots[kind].hash == op.hash {
        RedeemTakesHash(ops, op.at, kind, op.hash, id);
      }
    }
  }

  lemma OtherSlotStep(accounts: Accounts, op: Op, kind: Kind, id: nat)
    requires !op.Redeem? && !(op.CreateAccount? && op.id == id)
    requires id in accounts && id in AccountsNext(accounts, op)
    ensures SlotStep(accounts[id], AccountsNext(accounts, op)[id], kind, id, EventOf(accounts, op))
  {
  }

  /** A new account has no slots, and no event of the past names it. */
  lemma NewAccountMatches(ops: seq<Op>, kind: Kind)
    requires Fresh(ops) && ops != [] && ops[|ops| - 1].CreateAccount?
    ensures var id := ops[|ops| - 1].id; IssueKept(History(ops), NewAccount("", 0, "", map[], 0), kind, id)
  {
    var id := ops[|ops| - 1].id;
    var log, before := History(ops), ops[..|ops| - 1];
    HistoryLength(before);
    assert !CreatedIn(before, id) by {
      assert forall k | 0 <= k < |before| :: before[k] == ops[k];
    }
    forall i: nat, token ensures !Outstanding(log, i, kind, id, token) {
      if i < |before| && log[i].Issue? {
        assert log[i] == History(before)[i];
        HistoryEvents(before, i);
      }
    }
  }

  /** In every run every slot of every account is exactly the outstanding token of the history. */
  lemma {:induction false} SlotsRefineHistory(ops: seq<Op>, id: nat, kind: Kind)
    requires Fresh(ops) && id in AccountsAfter(ops)
    ensures SlotIssued(History(ops), AccountsAfter(ops)[id], kind, id)
    ensures IssueKept(History(ops), AccountsAfter(ops)[id], kind, id)
  {
    var before, op := ops[..|ops| - 1], ops[|ops| - 1];
    var accounts, log := AccountsAfter(before), History(before);
    FreshPrefix(ops);
    if op.CreateAccount? && op.id == id && AccountsAfter(ops) != accounts {
      NewAccountMatches(ops, kind);
    } else {
      SlotsRefineHistory(before, id, kind);
      if op.Redeem? {
        forall x, k | x in accounts ensures SlotIssued(log, accounts[x], k, x) {
          SlotsRefineHistory(before, x, k);
        }
        RedeemSlotStep(before, op, kind, id);
      } else if op.CreateAccount? && op.id == id {
      } else {
        OtherSlotStep(accounts, op, kind, id);
      }
      SlotStepKeepsMatch(log, accounts[id], AccountsAfter(ops)[id], kind, id, EventOf(accounts, op));
    }
  }

  // ---- when a redemption succeeds

  /** The token is outstanding, younger than its lifetime, and its account still exists. */
  ghost predicate Redeemable(ops: seq<Op>, kind: Kind, hash: string, now: int, i: nat, id: nat) {
    && i < |History(ops)| && History(ops)[i].Issue?
    && Outstanding(History(ops), i, kind, id, History(ops)[i].token)
    && History(ops)[i].token.hash == hash
    && History(ops)[i].token.sentAt > now - Ttl(kind)
    && id in AccountsAfter(ops)
  }

  lemma PeekFindsRedeemable(ops: seq<Op>, kind: Kind, hash: string, now: int, id: nat)
    requires Fresh(ops)
    ensures id in Peek(AccountsAfter(ops), kind, hash, now) <==> exists i: nat :: Redeemable(ops, kind, hash, now, i, id)
  {
    var accounts := AccountsAfter(ops);
    if id in accounts {
      SlotsRefineHistory(ops, id, kind);
      if id in Peek(accounts, kind, hash, now) {
        var i: nat :| Outstanding(History(ops), i, kind, id, accounts[id].slots[kind]);
        assert Redeemable(ops, kind, hash, now, i, id);
      }
    }
  }

  lemma PeekFindsAtMostOne(ops: seq<Op>, kind: Kind, hash: string, now: int, id: nat)
    requires Fresh(ops) && id in Peek(AccountsAfter(ops), kind, hash, now)
    ensures Peek(AccountsAfter(ops), kind, hash, now) == {id}
  {
    var accounts := AccountsAfter(ops);
    forall x | x in Peek(accounts, kind, hash, now) ensures x == id {
      SlotsRefineHistory(ops, id, kind);
      SlotsRefineHistory(ops, x, kind);
      HashOnOneAccount(ops, kind, id, x);
    }
  }

  lemma {:induction false} EmailsStayUnique(ops: seq<Op>)
    ensures EmailsUnique(AccountsAfter(ops))
  {
    if ops != [] {
      EmailsStayUnique(ops[..|ops| - 1]);
      EmailsUniqueNext(AccountsAfter(ops[..|ops| - 1]), ops[|ops| - 1]);
    }
  }

  lemma EmailsUniqueNext(accounts: Accounts, op: Op)
    requires EmailsUnique(accounts)
    ensures EmailsUnique(AccountsNext(accounts, op))
  {
  }

  lemma ConsumedUnique(accounts: Accounts, kind: Kind, hash: string, now: int, id: nat)
    requires EmailsUnique(accounts) && Peek(accounts, kind, hash, now) == {id}
    ensures EmailsUnique(Consumed(accounts, kind, hash, now))
      <==> (kind == EmailChange ==> EmailFreeFor(accounts, id, accounts[id].slots[kind].pending))
  {
    var after := Consumed(accounts, kind, hash, now);
    assert forall x | x in accounts :: Matches(accounts[x], kind, hash, now) <==> x in Peek(accounts, kind, hash, now);
    if kind == EmailChange && !EmailFreeFor(accounts, id, accounts[id].slots[kind].pending) {
      var j :| j in accounts && j != id && accounts[j].email == accounts[id].slots[kind].pending;
      assert after[j].email == after[id].email;
    }
  }

  /**
   In any run a redemption succeeds exactly when its token is the last one issued for
   its account and kind, unredeemed, younger than its lifetime, and its account still
   exists; an email change also needs its parked address to be free.
   */
  lemma RedeemSucceedsIff(ops: seq<Op>, kind: Kind, hash: string, now: int)
    requires Fresh(ops)
    ensures RedeemAnswer(AccountsAfter(ops), kind, hash, now) == Applied <==>
      exists i: nat, id: nat :: Redeemable(ops, kind, hash, now, i, id)
        && (kind == EmailChange ==> EmailFreeFor(AccountsAfter(ops), id, History(ops)[i].token.pending))
  {
    var accounts := AccountsAfter(ops);
    EmailsStayUnique(ops);
    if exists id :: id in Peek(accounts, kind, hash, now) {
      var id :| id in Peek(accounts, kind, hash, now);
      PeekFindsRedeemable(ops, kind, hash, now, id);
      PeekFindsAtMostOne(ops, kind, hash, now, id);
      ConsumedUnique(accounts, kind, hash, now, id);
      SlotsRefineHistory(ops, id, kind);
      forall i: nat, x: nat | Redeemable(ops, kind, hash, now, i, x)
        ensures x == id && History(ops)[i].token == accounts[id].slots[kind]
      {
        PeekFindsRedeemable(ops, kind, hash, now, x);
      }
    } else {
      forall i: nat, x: nat ensures !Redeemable(ops, kind, hash, now, i, x) {
        PeekFindsRedeemable(ops, kind, hash, now, x);
      }
    }
  }

  /** A confirmation whose address was taken meanwhile answers Duplicate, changes nothing, and leaves the token live. */
  lemma TakenAddressLeavesTokenLive(ops: seq<Op>, hash: string, now: int, i: nat, id: nat)
    requires Fresh(ops) && Redeemable(ops, EmailChange, hash, now, i, id)
    requires !EmailFreeFor(AccountsAfter(ops), id, History(ops)[i].token.pending)
    ensures RedeemAnswer(AccountsAfter(ops), EmailChange, hash, now) == Duplicate
    ensures AccountsAfter(ops + [Op.Redeem(now, EmailChange, hash)]) == AccountsAfter(ops)
    ensures Redeemable(ops + [Op.Redeem(now, EmailChange, hash)], EmailChange, hash, now, i, id)
  {
    var next := ops + [Op.Redeem(now, EmailChange, hash)];
    assert next[..|ops|] == ops;
    PeekFindsRedeemable(ops, EmailChange, hash, now, id);
    PeekFindsAtMostOne(ops, EmailChange, hash, now, id);
    EmailsStayUnique(ops);
    ConsumedUnique(AccountsAfter(ops), EmailChange, hash, now, id);
    SlotsRefineHistory(ops, id, EmailChange);
    OutstandingAppend(History(ops), Nothing, i, EmailChange, id, History(ops)[i].token);
  }

  lemma RedeemedWasIssued(ops: seq<Op>, kind: Kind, hash: string, at: int) returns (i: nat)
    requires Fresh(ops) && RedeemAnswer(AccountsAfter(ops), kind, hash, at) == Applied
    ensures i < |History(ops)| && History(ops)[i].Issue? && History(ops)[i].token.hash == hash
  {
    var id :| id in Peek(AccountsAfter(ops), kind, hash, at);
    SlotsRefineHistory(ops, id, kind);
    i :| Outstanding(History(ops), i, kind, id, AccountsAfter(ops)[id].slots[kind]);
  }

  lemma {:induction false} UseFollowsIssue(ops: seq<Op>, j: nat) returns (i: nat)
    requires Fresh(ops) && j < |History(ops)| && History(ops)[j].Use?
    ensures i < j && History(ops)[i].Issue? && History(ops)[i].token.hash == History(ops)[j].hash
  {
    var before, op := ops[..|ops| - 1], ops[|ops| - 1];
    HistoryLength(before);
    FreshPrefix(ops);
    assert History(ops) == History(before) + [EventOf(AccountsAfter(before), op)];
    if j < |before| {
      assert History(ops)[j] == History(before)[j];
      i := UseFollowsIssue(before, j);
      assert History(ops)[i] == History(before)[i];
    } else {
      assert History(ops)[j] == EventOf(AccountsAfter(before), op);
      i := RedeemedWasIssued(before, op.kind, op.hash, op.at);
      assert History(ops)[i] == History(before)[i];
    }
  }

  /** Each token redeems at most once: after a use every further attempt finds nothing. */
  lemma RedeemsAtMostOnce(ops: seq<Op>, kind: Kind, hash: string, now: int, j: nat)
    requires Fresh(ops) && j < |History(ops)| && History(ops)[j] == Use(kind, hash)
    ensures RedeemAnswer(AccountsAfter(ops), kind, hash, now) == NotFound
  {
    var accounts, log := AccountsAfter(ops), History(ops);
    var k := UseFollowsIssue(ops, j);
    forall id: nat ensures id !in Peek(accounts, kind, hash, now) {
      PeekFindsRedeemable(ops, kind, hash, now, id);
      forall i: nat ensures !Redeemable(ops, kind, hash, now, i, id) {
        if i < |log| && log[i].Issue? && log[i].token.hash == hash {
          OneIssuePerHash(ops, i, k);
        }
      }
    }
  }

  /** A page's peek and the redemption behind its button agree on the account. */
  lemma PeekAgreesWithRedeem(ops: seq<Op>, kind: Kind, hash: string, now: int)
    requires Fresh(ops)
    ensures RedeemAnswer(AccountsAfter(ops), kind, hash, now) == NotFound <==> Peek(AccountsAfter(ops), kind, hash, now) == {}
    ensures RedeemAnswer(AccountsAfter(ops), kind, hash, now) == Applied ==>
      exists id :: Peek(AccountsAfter(ops), kind, hash, now) == {id} &&
        forall x | x in AccountsAfter(ops) && x != id ::
          var after := Rows.Redeem(AccountsAfter(ops), kind, hash, now); x in after && after[x] == AccountsAfter(ops)[x]
  {
    if RedeemAnswer(AccountsAfter(ops), kind, hash, now) == Applied {
      var id :| id in Peek(AccountsAfter(ops), kind, hash, now);
      PeekFindsAtMostOne(ops, kind, hash, now, id);
      assert forall x | x in AccountsAfter(ops) && x != id :: x !in Peek(AccountsAfter(ops), kind, hash, now);
    }
  }
}
