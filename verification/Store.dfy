/** The store as the program uses it: its tables, its zone index, and one method per query. */
module Store {
  import opened Wrappers
  import opened Rows
  import opened CampusZones
  import Cooldowns
  import Curation

  class Store {
    var accounts: Accounts
    var sessions: Sessions
    var cooldowns: Cooldowns.Slots
    var campusZones: Zones
    var lastId: nat

    /** The constraints of the schema: serial ids, unique addresses, 42 ids and logins, sessions of existing accounts. */
    ghost predicate Valid()
      reads this
    {
      && (forall id | id in accounts :: id <= lastId)
      && EmailsUnique(accounts)
      && (forall i, j | i in accounts && j in accounts && i != j ::
            accounts[i].ftId != accounts[j].ftId && accounts[i].ftLogin != accounts[j].ftLogin)
      && (forall sid | sid in sessions :: sessions[sid].account in accounts)
    }

    constructor ()
      ensures Valid() && accounts == map[] && sessions == map[] && cooldowns == map[] && campusZones == map[]
    {
      accounts, sessions, cooldowns, campusZones, lastId := map[], map[], map[], map[], 0;
    }

    method Open()
      requires Valid()
      modifies this`campusZones
      ensures Valid() && IsRebuild(accounts, campusZones)
    {
      campusZones := LoadCampusZones(accounts);
    }

    lemma InsertKeepsConstraints(id: nat, a: Account)
      requires Valid() && id > lastId
      ensures var next := Insert(accounts, id, a);
        && accounts.Keys <= next.Keys && (forall x | x in next :: x <= id) && EmailsUnique(next)
        && (forall i, j | i in next && j in next && i != j :: next[i].ftId != next[j].ftId && next[i].ftLogin != next[j].ftLogin)
    {
    }

    /** The serial moves on even when the insert is refused. */
    method CreateAccount(email: string, ftId: nat, ftLogin: string, raw: map<string, Curation.Raw>, now: int)
      returns (created: Option<nat>, ghost curated: Data)
      requires Valid()
      modifies this
      ensures Valid() && Curation.CurationOf(curated, raw)
      ensures sessions == old(sessions) && cooldowns == old(cooldowns) && lastId == old(lastId) + 1
      ensures created == if Taken(old(accounts), email, ftId, ftLogin) then None else Some(lastId)
      ensures created.None? <==> exists i | i in old(accounts) ::
        old(accounts)[i].email == email || old(accounts)[i].ftId == ftId || old(accounts)[i].ftLogin == ftLogin
      ensures created.None? ==> accounts == old(accounts)
      ensures created.Some? ==> created.value !in old(accounts)
      ensures created.Some? ==> accounts == old(accounts)[created.value := Account(email, ftId, ftLogin, curated, now, false, map[])]
      ensures accounts == Insert(old(accounts), lastId, NewAccount(email, ftId, ftLogin, curated, now))
      ensures campusZones == if created.Some? then Note(old(campusZones), curated) else old(campusZones)
    {
      var data := Curation.Curate(raw);
      curated := data;
      InsertKeepsConstraints(lastId + 1, NewAccount(email, ftId, ftLogin, data, now));
      lastId := lastId + 1;
      if Taken(accounts, email, ftId, ftLogin) {
        created := None;
      } else {
        created := Some(lastId);
        accounts := accounts[lastId := NewAccount(email, ftId, ftLogin, data, now)];
        campusZones := Note(campusZones, data);
      }
    }

    method UpdateSnapshot(id: nat, raw: map<string, Curation.Raw>, now: int) returns (ghost curated: Data)
      requires Valid()
      modifies this`accounts, this`campusZones
      ensures Valid() && Curation.CurationOf(curated, raw)
      ensures accounts == Rows.UpdateSnapshot(old(accounts), id, curated, now)
      ensures OthersSame(old(accounts), accounts, id) && (id in accounts <==> id in old(accounts))
      ensures id in accounts ==> accounts[id] == old(accounts)[id].(data := old(accounts)[id].data + curated, fetchedAt := now)
      ensures campusZones == Note(old(campusZones), curated)
    {
      var data := Curation.Curate(raw);
      curated := data;
      if id in accounts {
        accounts := accounts[id := accounts[id].(data := accounts[id].data + data, fetchedAt := now)];
      }
      campusZones := Note(campusZones, data);
    }

    method UpdateEmail(id: nat, email: string) returns (ok: bool)
      requires Valid()
      modifies this`accounts
      ensures Valid()
      ensures accounts == Rows.UpdateEmail(old(accounts), id, email)
      ensures ok == (id in accounts ==> EmailFreeFor(old(accounts), id, email))
      ensures ok <==> id !in old(accounts) || forall x | x in old(accounts) && x != id :: old(accounts)[x].email != email
      ensures OthersSame(old(accounts), accounts, id)
      ensures ok && id in old(accounts) ==> id in accounts && accounts[id] == old(accounts)[id].(email := email)
      ensures !ok || id !in old(accounts) ==> accounts == old(accounts)
    {
      ok := true;
      if id in accounts {
        if EmailFreeFor(accounts, id, email) {
          accounts := accounts[id := accounts[id].(email := email)];
        } else {
          ok := false;
        }
      }
    }

    /** SetVerifyToken, SetLoginToken, SetEmailChange and SetDeleteToken. */
    method SetToken(id: nat, kind: Kind, token: Token)
      requires Valid()
      modifies this`accounts
      ensures Valid() && accounts == Rows.SetToken(old(accounts), id, kind, token)
      ensures OthersSame(old(accounts), accounts, id) && (id in accounts <==> id in old(accounts))
      ensures id in accounts ==> WithToken(old(accounts)[id], accounts[id], kind, token)
    {
      if id in accounts {
        accounts := accounts[id := Issued(accounts[id], kind, token)];
      }
    }

    /** PeekLoginToken, PeekEmailChange and PeekDeleteToken. */
    method PeekToken(kind: Kind, hash: string, now: int) returns (found: Option<nat>)
      ensures found.None? <==> Peek(accounts, kind, hash, now) == {}
      ensures found.Some? ==> found.value in Peek(accounts, kind, hash, now)
      ensures found.Some? ==> found.value in accounts && Live(accounts[found.value], kind, hash, now)
      ensures found.None? ==> forall x | x in accounts :: !Live(accounts[x], kind, hash, now)
    {
      var hits := Peek(accounts, kind, hash, now);
      assert forall x | x in accounts :: Live(accounts[x], kind, hash, now) <==> x in hits;
      if hits == {} {
        return None;
      }
      var id :| id in hits;
      found := Some(id);
    }

    /**
     VerifyByToken, ConsumeLoginToken, ConsumeEmailChange and DeleteByToken: one statement
     matches, changes and returns, so its answer also carries the address held just before.
     */
    method RedeemToken(kind: Kind, hash: string, now: int) returns (answer: Answer, id: nat, oldEmail: string)
      requires Valid()
      modifies this`accounts, this`sessions
      ensures Valid()
      ensures answer == RedeemAnswer(old(accounts), kind, hash, now)
      ensures accounts == Rows.Redeem(old(accounts), kind, hash, now)
      ensures sessions == Cascade(old(sessions), accounts)
      ensures answer == Applied ==> id in Peek(old(accounts), kind, hash, now) && oldEmail == old(accounts)[id].email
    {
      answer, id, oldEmail := RedeemAnswer(accounts, kind, hash, now), 0, "";
      if answer == Applied {
        var hits := Peek(accounts, kind, hash, now);
        id :| id in hits;
        oldEmail := accounts[id].email;
      }
      RedeemKeepsConstraints(kind, hash, now);
      accounts := Rows.Redeem(accounts, kind, hash, now);
      sessions := Cascade(sessions, accounts);
    }

    lemma RedeemKeepsConstraints(kind: Kind, hash: string, now: int)
      requires Valid()
      ensures var next := Rows.Redeem(accounts, kind, hash, now);
        && next.Keys <= accounts.Keys && EmailsUnique(next)
        && forall id | id in next :: next[id].ftId == accounts[id].ftId && next[id].ftLogin == accounts[id].ftLogin
    {
    }

    method DeleteAccount(id: nat)
      requires Valid()
      modifies this`accounts, this`sessions
      ensures Valid() && accounts == old(accounts) - {id} && sessions == Cascade(old(sessions), accounts)
      ensures SessionsOfThoseLeft(old(sessions), sessions, accounts)
    {
      accounts := accounts - {id};
      sessions := Cascade(sessions, accounts);
    }

    method PurgeUnverifiedAccounts(now: int) returns (removed: nat)
      requires Valid()
      modifies this`accounts, this`sessions
      ensures Valid() && accounts == Rows.PurgeUnverified(old(accounts), now) && sessions == Cascade(old(sessions), accounts)
      ensures removed + |accounts| == |old(accounts)|
      ensures SessionsOfThoseLeft(old(sessions), sessions, accounts)
      ensures forall x :: x in accounts <==> x in old(accounts) && !LinkLongUnused(old(accounts)[x], now)
      ensures forall x | x in accounts :: accounts[x] == old(accounts)[x]
    {
      var kept := Rows.PurgeUnverified(accounts, now);
      KeysShrink(accounts.Keys, kept.Keys);
      removed := |accounts.Keys| - |kept.Keys|;
      accounts := kept;
      sessions := Cascade(sessions, accounts);
    }

    static lemma KeysShrink(all: set<nat>, kept: set<nat>)
      requires kept <= all
      ensures |kept| <= |all|
    {
      assert all == kept + (all - kept);
    }

    method CreateSession(sid: string, id: nat, expires: int) returns (ok: bool)
      requires Valid()
      modifies this`sessions
      ensures Valid() && sessions == AddSession(old(sessions), accounts, sid, Session(id, expires))
      ensures ok == (id in accounts && sid !in old(sessions))
      ensures sessions == if ok then old(sessions)[sid := Session(id, expires)] else old(sessions)
    {
      ok := id in accounts && sid !in sessions;
      if ok {
        sessions := sessions[sid := Session(id, expires)];
      }
    }

    method SessionAccount(sid: string, now: int) returns (account: Option<nat>)
      requires Valid()
      ensures account == Resolve(sessions, sid, now)
      ensures account.Some? ==> account.value in accounts
      ensures account.Some? <==> sid in sessions && sessions[sid].expires > now
      ensures account.Some? ==> account.value == sessions[sid].account
    {
      account := Resolve(sessions, sid, now);
    }

    method DeleteSession(sid: string)
      requires Valid()
      modifies this`sessions
      ensures Valid() && sessions == old(sessions) - {sid}
    {
      sessions := sessions - {sid};
    }

    method DeleteOtherSessions(id: nat, keep: string)
      requires Valid()
      modifies this`sessions
      ensures Valid() && sessions == DeleteOthers(old(sessions), id, keep)
      ensures forall x :: x in sessions <==> x in old(sessions) && (old(sessions)[x].account == id ==> x == keep)
      ensures forall x | x in sessions :: sessions[x] == old(sessions)[x]
    {
      sessions := DeleteOthers(sessions, id, keep);
    }

    method PurgeExpiredSessions(now: int)
      requires Valid()
      modifies this`sessions
      ensures Valid() && sessions == PurgeExpired(old(sessions), now)
      ensures forall x :: x in sessions <==> x in old(sessions) && old(sessions)[x].expires > now
      ensures forall x | x in sessions :: sessions[x] == old(sessions)[x]
    {
      sessions := PurgeExpired(sessions, now);
    }

    /** One upsert both checks and claims; a refusal reports the row that stood in the way. */
    method ReserveSync(ft: nat, now: int, cooldown: nat) returns (granted: bool, blocked: Option<Cooldowns.Wait>)
      modifies this`cooldowns
      ensures granted == Cooldowns.Free(old(cooldowns), ft, now, cooldown)
      ensures cooldowns == Cooldowns.Reserve(old(cooldowns), ft, now, cooldown)
      ensures blocked == if granted then None else Cooldowns.Remaining(old(cooldowns), ft, now, cooldown)
      ensures granted <==> ft !in old(cooldowns) || now - old(cooldowns)[ft] >= cooldown
      ensures cooldowns == if granted then old(cooldowns)[ft := now] else old(cooldowns)
      ensures !granted ==> blocked == Some(Cooldowns.Wait(old(cooldowns)[ft] + cooldown - now, old(cooldowns)[ft]))
    {
      granted, blocked := ft !in cooldowns || cooldowns[ft] <= now - cooldown, None;
      if granted {
        cooldowns := cooldowns[ft := now];
      } else {
        blocked := Some(Cooldowns.Wait(cooldowns[ft] + cooldown - now, cooldowns[ft]));
      }
    }

    method ReleaseSync(ft: nat)
      modifies this`cooldowns
      ensures cooldowns == Cooldowns.Release(old(cooldowns), ft)
      ensures cooldowns == old(cooldowns) - {ft}
    {
      cooldowns := cooldowns - {ft};
    }

    method PurgeStaleCooldowns(now: int, olderThan: nat)
      modifies this`cooldowns
      ensures cooldowns == Cooldowns.Purge(old(cooldowns), now, olderThan)
      ensures forall x :: x in cooldowns <==> x in old(cooldowns) && now - old(cooldowns)[x] <= olderThan
      ensures forall x | x in cooldowns :: cooldowns[x] == old(cooldowns)[x]
    {
      cooldowns := Cooldowns.Purge(cooldowns, now, olderThan);
    }
  }
}
