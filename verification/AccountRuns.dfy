/** What every run of the store keeps about accounts: verification, emails, sessions, snapshots. */
module AccountRuns {
  import opened Rows
  import opened StoreRuns
  import opened TokenHistory
  import Curation

  /** Fresh ids: an account that is there twice was there all the time. */
  lemma NotCreatedAgain(ops: seq<Op>, n: nat, id: nat)
    requires Fresh(ops) && n < |ops| && id in AccountsAfter(ops[..n]) && id in AccountsAfter(ops)
    ensures id in AccountsAfter(ops[..|ops| - 1])
  {
    var before, op := ops[..|ops| - 1], ops[|ops| - 1];
    AccountsWereCreated(ops[..n], id);
    var k :| 0 <= k < n && ops[..n][k].CreateAccount? && ops[..n][k].id == id;
    assert ops[k] == ops[..n][k];
    assert op.CreateAccount? ==> op.id != id;
  }

  lemma IdNotReused(ops: seq<Op>, id: nat)
    requires Fresh(ops) && ops != [] && id in AccountsAfter(ops[..|ops| - 1])
    ensures var op := ops[|ops| - 1]; op.CreateAccount? ==> op.id != id
  {
    var before := ops[..|ops| - 1];
    AccountsWereCreated(before, id);
    var k :| 0 <= k < |before| && before[k].CreateAccount? && before[k].id == id;
    assert ops[k] == before[k];
  }

  // ---- the verified flag

  /** The handlers' gate: a verification link is issued only to an account that is unverified at that moment. */
  ghost predicate Gated(ops: seq<Op>) {
    ops == [] ||
    var accounts, op := AccountsAfter(ops[..|ops| - 1]), ops[|ops| - 1];
    && Gated(ops[..|ops| - 1])
    && (op.SetToken? && op.kind == Verify && op.id in accounts ==> !accounts[op.id].verified)
  }

  /** A statement takes the flag away exactly when it stores a verification token on a verified account. */
  lemma FlagDropsIff(accounts: Accounts, op: Op, id: nat)
    requires id in accounts && id in AccountsNext(accounts, op) && accounts[id].verified
    requires !(op.CreateAccount? && op.id == id)
    ensures !AccountsNext(accounts, op)[id].verified <==> op.SetToken? && op.kind == Verify && op.id == id
  {
  }

  /** With gated handlers an account once verified stays verified as long as it exists. */
  lemma {:induction false} VerifiedForGood(ops: seq<Op>, n: nat, id: nat)
    requires Fresh(ops) && Gated(ops) && n <= |ops|
    requires id in AccountsAfter(ops[..n]) && AccountsAfter(ops[..n])[id].verified
    requires id in AccountsAfter(ops)
    ensures AccountsAfter(ops)[id].verified
  {
    if n < |ops| {
      var before, op := ops[..|ops| - 1], ops[|ops| - 1];
      assert before[..n] == ops[..n];
      FreshPrefix(ops);
      NotCreatedAgain(ops, n, id);
      VerifiedForGood(before, n, id);
      IdNotReused(ops, id);
      FlagDropsIff(AccountsAfter(before), op, id);
    } else {
      assert ops[..n] == ops;
    }
  }

  /** Along the run no account that stays loses its verified flag. */
  ghost predicate FlagsStay(ops: seq<Op>) {
    forall n, m, id | 0 <= n <= m <= |ops| && VerifiedAt(ops, n, id) && id in AccountsAfter(ops[..m]) :: VerifiedAt(ops, m, id)
  }

  ghost predicate VerifiedAt(ops: seq<Op>, n: nat, id: nat)
    requires n <= |ops|
  {
    id in AccountsAfter(ops[..n]) && AccountsAfter(ops[..n])[id].verified
  }

  lemma FreshTake(ops: seq<Op>, n: nat)
    requires Fresh(ops) && n <= |ops|
    ensures Fresh(ops[..n])
  {
  }

  lemma {:induction false} GatedTake(ops: seq<Op>, n: nat)
    requires Gated(ops) && n <= |ops|
    ensures Gated(ops[..n])
  {
    if n < |ops| {
      GatedTake(ops[..|ops| - 1], n);
      assert ops[..|ops| - 1][..n] == ops[..n];
    } else {
      assert ops[..n] == ops;
    }
  }

  lemma FlagsStayTake(ops: seq<Op>)
    requires ops != []
    ensures FlagsStay(ops) ==> FlagsStay(ops[..|ops| - 1])
  {
    var before := ops[..|ops| - 1];
    if FlagsStay(ops) {
      forall n, m, id | 0 <= n <= m <= |before| && VerifiedAt(before, n, id) && id in AccountsAfter(before[..m])
        ensures VerifiedAt(before, m, id)
      {
        assert before[..n] == ops[..n] && before[..m] == ops[..m];
        assert VerifiedAt(ops, n, id);
      }
    }
  }

  lemma UngatedLinkDropsFlag(ops: seq<Op>)
    requires ops != [] && ops[|ops| - 1].SetToken? && ops[|ops| - 1].kind == Verify
    requires VerifiedAt(ops, |ops| - 1, ops[|ops| - 1].id)
    ensures !FlagsStay(ops)
  {
    var id := ops[|ops| - 1].id;
    assert ops[..|ops|] == ops;
    assert id in AccountsAfter(ops[..|ops|]) && !VerifiedAt(ops, |ops|, id);
  }

  /** Over whole runs: no account ever loses the flag exactly when every verification link went to an unverified account. */
  lemma {:induction false} FlagsStayIffGated(ops: seq<Op>)
    requires Fresh(ops)
    ensures FlagsStay(ops) <==> Gated(ops)
  {
    if Gated(ops) {
      forall n, m, id | 0 <= n <= m <= |ops| && VerifiedAt(ops, n, id) && id in AccountsAfter(ops[..m])
        ensures VerifiedAt(ops, m, id)
      {
        FreshTake(ops, m);
        GatedTake(ops, m);
        assert ops[..m][..n] == ops[..n];
        VerifiedForGood(ops[..m], n, id);
      }
    } else {
      FreshPrefix(ops);
      FlagsStayTake(ops);
      FlagsStayIffGated(ops[..|ops| - 1]);
      if Gated(ops[..|ops| - 1]) {
        UngatedLinkDropsFlag(ops);
      }
    }
  }

  lemma RedeemingVerifies(accounts: Accounts, kind: Kind, hash: string, now: int, id: nat)
    requires kind == Verify || kind == Login
    requires RedeemAnswer(accounts, kind, hash, now) == Applied && id in Peek(accounts, kind, hash, now)
    ensures id in Rows.Redeem(accounts, kind, hash, now) && Rows.Redeem(accounts, kind, hash, now)[id].verified
  {
  }

  /** Step n of the run redeemed a verification or login link of the account. */
  ghost predicate RedeemsLinkOf(ops: seq<Op>, n: nat, id: nat) {
    && n < |ops| && ops[n].Redeem? && (ops[n].kind == Verify || ops[n].kind == Login)
    && RedeemAnswer(AccountsAfter(ops[..n]), ops[n].kind, ops[n].hash, ops[n].at) == Applied
    && id in Peek(AccountsAfter(ops[..n]), ops[n].kind, ops[n].hash, ops[n].at)
  }

  lemma VerifiedAfterLink(ops: seq<Op>, n: nat, id: nat)
    requires RedeemsLinkOf(ops, n, id)
    ensures id in AccountsAfter(ops[..n + 1]) && AccountsAfter(ops[..n + 1])[id].verified
  {
    var op := ops[n];
    assert ops[..n + 1][..n] == ops[..n];
    RedeemingVerifies(AccountsAfter(ops[..n]), op.kind, op.hash, op.at, id);
  }

  lemma PurgeLast(ops: seq<Op>, now: int)
    ensures AccountsAfter(ops + [Op.PurgeUnverified(now)]) == Rows.PurgeUnverified(AccountsAfter(ops), now)
  {
    assert (ops + [Op.PurgeUnverified(now)])[..|ops|] == ops;
  }

  lemma PurgeKeepsVerified(accounts: Accounts, id: nat, now: int)
    requires id in accounts && accounts[id].verified
    ensures id in Rows.PurgeUnverified(accounts, now)
  {
  }

  lemma VerifiedSurvivesPurge(ops: seq<Op>, n: nat, id: nat, now: int)
    requires Fresh(ops) && Gated(ops) && n <= |ops| && id in AccountsAfter(ops)
    requires id in AccountsAfter(ops[..n]) && AccountsAfter(ops[..n])[id].verified
    ensures id in AccountsAfter(ops + [Op.PurgeUnverified(now)])
  {
    VerifiedForGood(ops, n, id);
    PurgeLast(ops, now);
    PurgeKeepsVerified(AccountsAfter(ops), id, now);
  }

  /** An account that ever redeemed a verification or login link survives every purge of unverified accounts. */
  lemma RedeemedSurvivesPurge(ops: seq<Op>, n: nat, id: nat, now: int)
    requires Fresh(ops) && Gated(ops) && RedeemsLinkOf(ops, n, id) && id in AccountsAfter(ops)
    ensures id in AccountsAfter(ops + [Op.PurgeUnverified(now)])
  {
    VerifiedAfterLink(ops, n, id);
    VerifiedSurvivesPurge(ops, n + 1, id, now);
  }

  ghost predicate NeverSentLink(ops: seq<Op>, id: nat) {
    forall i | 0 <= i < |ops| && ops[i].SetToken? && ops[i].kind == Verify :: ops[i].id != id
  }

  lemma NoLinkNext(accounts: Accounts, op: Op, id: nat)
    requires id in AccountsNext(accounts, op) && (id in accounts ==> Verify !in accounts[id].slots)
    requires op.SetToken? && op.kind == Verify ==> op.id != id
    ensures Verify !in AccountsNext(accounts, op)[id].slots
  {
  }

  /** Accounts that were never sent a verification link are never purged. */
  lemma {:induction false} NeverSentNeverPurged(ops: seq<Op>, id: nat, now: int)
    requires NeverSentLink(ops, id) && id in AccountsAfter(ops)
    ensures Verify !in AccountsAfter(ops)[id].slots
    ensures id in AccountsAfter(ops + [Op.PurgeUnverified(now)])
  {
    var before, op := ops[..|ops| - 1], ops[|ops| - 1];
    if id in AccountsAfter(before) {
      NeverSentNeverPurged(before, id, now);
    }
    NoLinkNext(AccountsAfter(before), op, id);
    PurgeLast(ops, now);
  }

  /** No purge removes the account of a verification link that can still be redeemed at that time. */
  lemma LiveLinkSurvivesPurge(ops: seq<Op>, hash: string, now: int, i: nat, id: nat)
    requires Fresh(ops) && Redeemable(ops, Verify, hash, now, i, id)
    ensures var purged := ops + [Op.PurgeUnverified(now)];
      id in AccountsAfter(purged) && Matches(AccountsAfter(purged)[id], Verify, hash, now)
  {
    SlotsRefineHistory(ops, id, Verify);
    assert (ops + [Op.PurgeUnverified(now)])[..|ops|] == ops;
  }

  /**
   Without the gate at the moment of the write the flag can drop: a resend that looked
   before the link was clicked and writes after it un-verifies the account, and a week
   later the purge takes an account whose owner did confirm.
   */
  lemma LateResendLosesAccount()
    ensures var h1, h2 := Token("h1", 0, ""), Token("h2", 2, "");
      var ops := [CreateAccount(0, 1, "a@b.c", 1, "a", map[]), SetToken(0, 1, Verify, h1), Op.Redeem(1, Verify, "h1"), SetToken(2, 1, Verify, h2)];
      && Fresh(ops) && 1 in AccountsAfter(ops[..3]) && AccountsAfter(ops[..3])[1].verified
      && 1 in AccountsAfter(ops) && !AccountsAfter(ops)[1].verified
      && 1 !in Rows.PurgeUnverified(AccountsAfter(ops), 8 * DAY)
  {
    var o0, o1 := CreateAccount(0, 1, "a@b.c", 1, "a", map[]), SetToken(0, 1, Verify, Token("h1", 0, ""));
    var o2, o3 := Op.Redeem(1, Verify, "h1"), SetToken(2, 1, Verify, Token("h2", 2, ""));
    var ops := [o0, o1, o2, o3];
    assert ops[..3] == [o0, o1, o2];
    assert [o0, o1, o2][..2] == [o0, o1];
    assert [o0, o1][..1] == [o0];
    assert [o0][..0] == [];
    var none: Accounts := map[];
    assert AccountsAfter([]) == none;
    var a0 := AccountsAfter([o0]);
    assert a0 == AccountsNext(none, o0);
    assert 1 in a0;
    var a1 := AccountsAfter([o0, o1]);
    assert a1 == AccountsNext(a0, o1);
    assert Matches(a1[1], Verify, "h1", 1);
    assert 1 in Peek(a1, Verify, "h1", 1);
    var a2 := AccountsAfter([o0, o1, o2]);
    assert a2 == AccountsNext(a1, o2);
    assert AccountsAfter(ops) == AccountsNext(a2, o3);
    assert "h1" != "h2" by { assert "h1"[1] != "h2"[1]; }
  }

  // ---- addresses

  /** An account whose addresses are in the database's lower-case form. */
  predicate CanonicalRow(a: Account, lower: string -> string) {
    lower(a.email) == a.email
    && (EmailChange in a.slots ==> lower(a.slots[EmailChange].pending) == a.slots[EmailChange].pending)
  }

  ghost predicate AllCanonical(accounts: Accounts, lower: string -> string) {
    forall id | id in accounts :: CanonicalRow(accounts[id], lower)
  }

  /** Every address the run writes has been through the canonical form. */
  ghost predicate WritesCanonical(op: Op, lower: string -> string) {
    && (op.CreateAccount? || op.UpdateEmail? ==> lower(op.email) == op.email)
    && (op.SetToken? && op.kind == EmailChange ==> lower(op.token.pending) == op.token.pending)
  }

  lemma CanonicalRowNext(accounts: Accounts, op: Op, lower: string -> string, id: nat)
    requires WritesCanonical(op, lower) && id in AccountsNext(accounts, op)
    requires id in accounts ==> CanonicalRow(accounts[id], lower)
    ensures CanonicalRow(AccountsNext(accounts, op)[id], lower)
  {
  }

  lemma CanonicalNext(accounts: Accounts, op: Op, lower: string -> string)
    requires AllCanonical(accounts, lower) && WritesCanonical(op, lower)
    ensures AllCanonical(AccountsNext(accounts, op), lower)
  {
    forall id | id in AccountsNext(accounts, op)
      ensures CanonicalRow(AccountsNext(accounts, op)[id], lower)
    {
      CanonicalRowNext(accounts, op, lower, id);
    }
  }

  lemma {:induction false} AddressesStayCanonical(ops: seq<Op>, lower: string -> string)
    requires forall i | 0 <= i < |ops| :: WritesCanonical(ops[i], lower)
    ensures AllCanonical(AccountsAfter(ops), lower)
  {
    if ops != [] {
      AddressesStayCanonical(ops[..|ops| - 1], lower);
      CanonicalNext(AccountsAfter(ops[..|ops| - 1]), ops[|ops| - 1], lower);
    }
  }

  /** AccountByEmail: the accounts a case-insensitive lookup finds. */
  ghost function ByEmail(accounts: Accounts, lower: string -> string, email: string): set<nat> {
    set id | id in accounts && lower(accounts[id].email) == lower(email)
  }

  /** So the exact-case constraint is case-insensitive: a lookup finds at most one account, whatever the casing asked for. */
  lemma LookupByEmailIsUnique(ops: seq<Op>, lower: string -> string, email: string, i: nat, j: nat)
    requires forall k | 0 <= k < |ops| :: WritesCanonical(ops[k], lower)
    requires i in ByEmail(AccountsAfter(ops), lower, email) && j in ByEmail(AccountsAfter(ops), lower, email)
    ensures i == j
  {
    AddressesStayCanonical(ops, lower);
    EmailsStayUnique(ops);
  }

  // ---- sessions

  /** In every reachable state each session belongs to an existing account. */
  lemma {:induction false} SessionsReferToAccounts(ops: seq<Op>, sid: string)
    requires sid in SessionsAfter(ops)
    ensures SessionsAfter(ops)[sid].account in AccountsAfter(ops)
  {
    var before := ops[..|ops| - 1];
    if sid in SessionsAfter(before) {
      SessionsReferToAccounts(before, sid);
    }
  }

  /** A confirmed deletion leaves neither the account nor any of its sessions, and all others as they were. */
  lemma DeletionErases(ops: seq<Op>, hash: string, now: int, id: nat)
    requires Fresh(ops) && id in Peek(AccountsAfter(ops), Deletion, hash, now)
    ensures var next := ops + [Op.Redeem(now, Deletion, hash)];
      && AccountsAfter(next) == AccountsAfter(ops) - {id}
      && SessionsOf(SessionsAfter(next), id) == {}
      && forall sid | sid in SessionsAfter(ops) && SessionsAfter(ops)[sid].account != id ::
           sid in SessionsAfter(next) && SessionsAfter(next)[sid] == SessionsAfter(ops)[sid]
  {
    var next := ops + [Op.Redeem(now, Deletion, hash)];
    assert next[..|ops|] == ops;
    PeekFindsAtMostOne(ops, Deletion, hash, now, id);
    DeletionApplies(ops, hash, now, id);
    forall sid | sid in SessionsAfter(ops) && SessionsAfter(ops)[sid].account != id
      ensures sid in SessionsAfter(next) && SessionsAfter(next)[sid] == SessionsAfter(ops)[sid]
    {
      SessionsReferToAccounts(ops, sid);
    }
  }

  lemma DeletionApplies(ops: seq<Op>, hash: string, now: int, id: nat)
    requires Peek(AccountsAfter(ops), Deletion, hash, now) == {id}
    ensures Rows.Redeem(AccountsAfter(ops), Deletion, hash, now) == AccountsAfter(ops) - {id}
  {
    EmailsStayUnique(ops);
    var accounts := AccountsAfter(ops);
    ConsumedUnique(accounts, Deletion, hash, now, id);
    assert forall x | x in accounts :: Matches(accounts[x], Deletion, hash, now) <==> x in Peek(accounts, Deletion, hash, now);
  }

  // ---- snapshots

  /** The operation brings a value for this key of this account. */
  predicate Brings(op: Op, id: nat, key: string) {
    (op.CreateAccount? || op.UpdateSnapshot?) && op.id == id && key in op.data
  }

  /** The stored value of a key is the one the latest sync that emitted the key brought. */
  lemma {:induction false} SnapshotHoldsLatest(ops: seq<Op>, id: nat, key: string) returns (j: nat)
    requires Fresh(ops) && id in AccountsAfter(ops) && key in AccountsAfter(ops)[id].data
    ensures j < |ops| && Brings(ops[j], id, key) && ops[j].data[key] == AccountsAfter(ops)[id].data[key]
    ensures forall i | j < i < |ops| && ops[i].UpdateSnapshot? :: !Brings(ops[i], id, key)
  {
    var before, op := ops[..|ops| - 1], ops[|ops| - 1];
    var accounts := AccountsAfter(before);
    if Brings(op, id, key) && (op.UpdateSnapshot? || id !in accounts) {
      j := |before|;
    } else {
      FreshPrefix(ops);
      if id in accounts {
        IdNotReused(ops, id);
      }
      DataKept(accounts, op, id, key);
      j := SnapshotHoldsLatest(before, id, key);
      assert ops[j] == before[j];
      forall i | j < i < |ops| && ops[i].UpdateSnapshot? ensures !Brings(ops[i], id, key) {
        if i < |before| {
          assert ops[i] == before[i];
        }
      }
    }
  }

  lemma DataKept(accounts: Accounts, op: Op, id: nat, key: string)
    requires id in AccountsNext(accounts, op) && key in AccountsNext(accounts, op)[id].data
    requires !Brings(op, id, key)
    ensures id in accounts && key in accounts[id].data && accounts[id].data[key] == AccountsNext(accounts, op)[id].data[key]
  {
  }

  lemma KeyKept(accounts: Accounts, op: Op, id: nat, key: string)
    requires id in accounts && id in AccountsNext(accounts, op) && !(op.CreateAccount? && op.id == id)
    requires key in accounts[id].data
    ensures key in AccountsNext(accounts, op)[id].data
  {
  }

  /** No statement makes a stored key disappear while its account exists. */
  lemma {:induction false} KeysStay(ops: seq<Op>, n: nat, id: nat, key: string)
    requires Fresh(ops) && n <= |ops|
    requires id in AccountsAfter(ops[..n]) && key in AccountsAfter(ops[..n])[id].data && id in AccountsAfter(ops)
    ensures key in AccountsAfter(ops)[id].data
  {
    if n < |ops| {
      var before := ops[..|ops| - 1];
      assert before[..n] == ops[..n];
      FreshPrefix(ops);
      NotCreatedAgain(ops, n, id);
      KeysStay(before, n, id, key);
      IdNotReused(ops, id);
      KeyKept(AccountsAfter(before), ops[|ops| - 1], id, key);
    } else {
      assert ops[..n] == ops;
    }
  }

  /** The snapshot is what curation made of some raw one. */
  ghost predicate Curated(data: Data) {
    exists raw :: Curation.CurationOf(data, raw)
  }

  /** When every sync curates what it stores, only curated keys are ever stored: the dropped resources never appear. */
  lemma {:induction false} OnlyCuratedKeys(ops: seq<Op>, id: nat, key: string)
    requires Fresh(ops)
    requires forall i | 0 <= i < |ops| && (ops[i].CreateAccount? || ops[i].UpdateSnapshot?) :: Curated(ops[i].data)
    requires id in AccountsAfter(ops) && key in AccountsAfter(ops)[id].data
    ensures key in Curation.CURATED_KEYS && key !in {"scale_teams", "cursus_users"}
  {
    var j := SnapshotHoldsLatest(ops, id, key);
    var raw :| Curation.CurationOf(ops[j].data, raw);
    Curation.EmitsOnlyCurated(ops[j].data, raw);
  }
}
