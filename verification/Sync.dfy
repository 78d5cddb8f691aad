/** One sync from pull to stored snapshot: the pull's progress, the worker's protocol, and what the callback starts. */
module Sync {
  import opened Wrappers
  import opened Jobs
  import opened Rows
  import opened Store
  import Cooldowns
  import Curation
  import StoreRuns

  const COLLECTIONS := ["projects_users", "cursus_users", "scale_teams", "scale_teams_as_corrector",
    "scale_teams_as_corrected", "locations", "events_users", "correction_point_historics", "coalitions", "quests_users"]
  const STEPS: nat := 3 + |COLLECTIONS|

  /** Ten collections after the profile, its photo and its titles; everything that curation keeps is fetched. */
  lemma FetchesAllThatIsKept(key: string)
    requires key in Curation.CURATED_KEYS && key != "me" && key != "titles_users"
    ensures key in COLLECTIONS && |COLLECTIONS| == 10 && STEPS == 13
  {
  }

  type RawSnapshot = map<string, Curation.Raw>

  /** What 42 answers: the profile, unless its request fails, and every collection that can be fetched. */
  datatype Remote = Remote(me: Option<Me>, resources: RawSnapshot)

  datatype Me = Me(ftId: nat, profile: Curation.Raw, titles: Curation.Raw)

  /** The progress events of the first n steps. */
  function Steps(n: nat): seq<Event> {
    if n == 0 then [] else Steps(n - 1) + [Progress(n - 1, STEPS)]
  }

  /** The snapshot of a pull that skipped every collection it could not fetch. */
  function Pulled(remote: Remote, n: nat): RawSnapshot
    requires remote.me.Some? && n <= |COLLECTIONS|
  {
    if n == 0 then map["me" := remote.me.value.profile, "titles_users" := remote.me.value.titles]
    else
      var before, key := Pulled(remote, n - 1), COLLECTIONS[n - 1];
      if key in remote.resources then before[key := remote.resources[key]] else before
  }

  /** A skipped collection is not in the snapshot, a fetched one is there as fetched. */
  lemma {:induction false} PulledKeys(remote: Remote, n: nat, key: string)
    requires remote.me.Some? && n <= |COLLECTIONS| && key !in {"me", "titles_users"}
    ensures key in Pulled(remote, n) <==> key in COLLECTIONS[..n] && key in remote.resources
    ensures key in Pulled(remote, n) ==> Pulled(remote, n)[key] == remote.resources[key]
    ensures "me" in Pulled(remote, n) && Pulled(remote, n)["me"] == remote.me.value.profile
    ensures "titles_users" in Pulled(remote, n) && Pulled(remote, n)["titles_users"] == remote.me.value.titles
  {
    if n > 0 {
      PulledKeys(remote, n - 1, key);
      assert COLLECTIONS[..n] == COLLECTIONS[..n - 1] + [COLLECTIONS[n - 1]];
      assert COLLECTIONS[n - 1] != "me" by { assert COLLECTIONS[n - 1][1] != "me"[1]; }
      assert COLLECTIONS[n - 1] != "titles_users" by { assert COLLECTIONS[n - 1][0] != "titles_users"[0]; }
    }
  }

  /** Curation emits nothing for a collection the pull skipped, so the merge keeps its old value. */
  lemma SkippedCollectionKeepsOldValue(remote: Remote, curated: Data, stored: Data, key: string)
    requires remote.me.Some? && key in COLLECTIONS && key !in remote.resources
    requires Curation.CurationOf(curated, Pulled(remote, |COLLECTIONS|))
    ensures key in stored + curated <==> key in stored
    ensures key in stored ==> (stored + curated)[key] == stored[key]
  {
    assert key !in {"me", "titles_users"};
    PulledKeys(remote, |COLLECTIONS|, key);
    assert !Curation.Emits(Pulled(remote, |COLLECTIONS|), key);
  }

  datatype PullEnd = NoProfile | Refused | Complete(ftId: nat, snapshot: RawSnapshot)

  /** Pull, with the reservation it makes as soon as the profile names the 42 user. */
  method Pull(j: Job, s: Store, remote: Remote, now: int) returns (end: PullEnd)
    modifies j`step, j`total, j`log, s`cooldowns
    ensures end.NoProfile? <==> remote.me.None? || remote.me.value.ftId == 0
    ensures end.Refused? ==> remote.me.value.ftId in old(s.cooldowns) && now - old(s.cooldowns)[remote.me.value.ftId] < 15 * 60
    ensures end.Complete? && end.ftId in old(s.cooldowns) ==> now - old(s.cooldowns)[end.ftId] >= 15 * 60
    ensures end.Refused? ==> !Cooldowns.Free(old(s.cooldowns), remote.me.value.ftId, now, StoreRuns.SYNC_COOLDOWN)
    ensures end.Complete? ==> Cooldowns.Free(old(s.cooldowns), remote.me.value.ftId, now, StoreRuns.SYNC_COOLDOWN)
    ensures end.Complete? ==> s.cooldowns == old(s.cooldowns)[end.ftId := now]
    ensures !end.Complete? ==> s.cooldowns == old(s.cooldowns)
    ensures end.Complete? ==> end.ftId == remote.me.value.ftId && end.snapshot == Pulled(remote, |COLLECTIONS|)
    ensures j.log == old(j.log) + Steps(if end.Complete? then STEPS else 1)
    ensures j.total == STEPS
  {
    var step: nat := 0;
    j.SetProgress(step, STEPS);
    step := step + 1;
    assert Steps(1) == Steps(0) + [Progress(0, STEPS)];
    if remote.me.None? || remote.me.value.ftId == 0 {
      return NoProfile;
    }
    var me := remote.me.value;
    var granted, blocked := s.ReserveSync(me.ftId, now, StoreRuns.SYNC_COOLDOWN);
    if !granted {
      return Refused;
    }
    j.SetProgress(step, STEPS);
    step := step + 1;
    assert Steps(2) == Steps(1) + [Progress(1, STEPS)];
    j.SetProgress(step, STEPS);
    step := step + 1;
    assert Steps(3) == Steps(2) + [Progress(2, STEPS)];
    var snapshot := map["me" := me.profile, "titles_users" := me.titles];
    for i := 0 to |COLLECTIONS|
      invariant step == 3 + i
      invariant j.log == old(j.log) + Steps(step) && j.total == STEPS
      invariant s.cooldowns == old(s.cooldowns)[me.ftId := now]
      invariant snapshot == Pulled(remote, i)
    {
      j.SetProgress(step, STEPS);
      step := step + 1;
      if COLLECTIONS[i] in remote.resources {
        snapshot := snapshot[COLLECTIONS[i] := remote.resources[COLLECTIONS[i]]];
      }
    }
    end := Complete(me.ftId, snapshot);
  }

  /** A logged-in user's account and the 42 id it is bound to. */
  datatype Claim = Claim(account: nat, expectFtId: nat)

  /** Steps come in order from 0, with a fixed total they never exceed. */
  lemma {:induction false} StepsInOrder(n: nat, i: nat)
    requires i < |Steps(n)|
    ensures |Steps(n)| == n && Steps(n)[i] == Progress(i, STEPS)
  {
    StepsLength(n);
    if i < n - 1 {
      StepsInOrder(n - 1, i);
    } else {
      StepsLength(n - 1);
    }
  }

  lemma {:induction false} StepsLength(n: nat)
    ensures |Steps(n)| == n
  {
    if n > 0 {
      StepsLength(n - 1);
    }
  }

  /** The account a logged-out sync turns out to belong to. */
  ghost predicate BoundTo(accounts: Accounts, ftId: nat, id: nat) {
    id in accounts && accounts[id].ftId == ftId
  }

  method AccountByFtId(s: Store, ftId: nat) returns (found: Option<nat>)
    ensures found.Some? ==> BoundTo(s.accounts, ftId, found.value)
    ensures found.None? ==> forall id :: !BoundTo(s.accounts, ftId, id)
  {
    var hits := set id | id in s.accounts && s.accounts[id].ftId == ftId;
    assert forall id: nat :: BoundTo(s.accounts, ftId, id) <==> id in hits;
    if hits == {} {
      return None;
    }
    var id :| id in hits;
    found := Some(id);
  }

  /** Where a finished pull goes: the claiming account if the 42 user is the right one, else the account bound to the user. */
  ghost predicate GoesTo(accounts: Accounts, ftId: nat, claim: Option<Claim>, target: Option<nat>) {
    if claim.Some? then target == (if ftId == claim.value.expectFtId then Some(claim.value.account) else None)
    else if target.Some? then BoundTo(accounts, ftId, target.value)
    else forall id :: !BoundTo(accounts, ftId, id)
  }

  /** A claim holds for its own 42 user only; without one, the account bound to the user is found whenever there is one. */
  lemma WhereItGoes(accounts: Accounts, ftId: nat, claim: Option<Claim>, target: Option<nat>)
    requires GoesTo(accounts, ftId, claim, target)
    ensures claim.Some? && claim.value.expectFtId != ftId ==> target == None
    ensures claim.Some? && claim.value.expectFtId == ftId ==> target == Some(claim.value.account)
    ensures claim.None? && target.Some? ==> target.value in accounts && accounts[target.value].ftId == ftId
    ensures claim.None? && target.None? ==> forall id | id in accounts :: accounts[id].ftId != ftId
  {
    assert forall id | id in accounts && accounts[id].ftId == ftId :: BoundTo(accounts, ftId, id);
  }

  /** Merges the snapshot into its account. It fails for the wrong 42 user, or when the write fails. */
  method StoreSnapshot(s: Store, snapshot: RawSnapshot, ftId: nat, claim: Option<Claim>, writes: bool, now: int)
    returns (ok: bool, target: Option<nat>, ghost curated: Data)
    requires s.Valid()
    modifies s`accounts, s`campusZones
    ensures s.Valid() && GoesTo(old(s.accounts), ftId, claim, target)
    ensures ok <==> (target.Some? && writes) || (target.None? && claim.None?)
    ensures ok && target.Some? ==> Curation.CurationOf(curated, snapshot)
    ensures s.accounts == if ok && target.Some? then Rows.UpdateSnapshot(old(s.accounts), target.value, curated, now) else old(s.accounts)
  {
    curated := map[];
    if claim.Some? {
      target := if ftId == claim.value.expectFtId then Some(claim.value.account) else None;
      ok := target.Some? && writes;
    } else {
      target := AccountByFtId(s, ftId);
      ok := target.None? || writes;
    }
    if ok && target.Some? {
      curated := s.UpdateSnapshot(target.value, snapshot, now);
    }
  }

  /** The whole log of a worker's job. */
  function WorkerLog(complete: bool, linked: Option<nat>, ok: bool): seq<Event> {
    Steps(if complete then STEPS else 1) + (if linked.Some? then [Linked(linked.value)] else []) + [Ended(ok)]
  }

  /** One terminal transition, and it comes last: after every step and after the match. */
  lemma WorkerEndsOnce(complete: bool, linked: Option<nat>, ok: bool, i: nat)
    requires i < |WorkerLog(complete, linked, ok)|
    ensures WorkerLog(complete, linked, ok)[i].Ended? <==> i == |WorkerLog(complete, linked, ok)| - 1
    ensures linked.Some? ==> exists k :: 0 <= k < |WorkerLog(complete, linked, ok)| - 1 && WorkerLog(complete, linked, ok)[k] == Linked(linked.value)
  {
    var n := if complete then STEPS else 1;
    var log := WorkerLog(complete, linked, ok);
    StepsLength(n);
    if linked.Some? {
      assert log[n] == Linked(linked.value);
    }
    if i < n {
      StepsInOrder(n, i);
      assert log[i] == Steps(n)[i];
    }
  }

  /** The worker's end of a complete pull: merge, record a match, and end the job; a failure frees the slot. */
  method Settle(s: Store, j: Job, snapshot: RawSnapshot, ftId: nat, claim: Option<Claim>, writes: bool, now: int)
    returns (target: Option<nat>, ghost curated: Data)
    requires s.Valid() && j.status == Running
    modifies j, s`accounts, s`campusZones, s`cooldowns
    ensures s.Valid() && GoesTo(old(s.accounts), ftId, claim, target)
    ensures j.status == if (target.Some? && writes) || (target.None? && claim.None?) then Done else Error
    ensures j.log == old(j.log) + (if claim.None? && j.status == Done && target.Some? then [Linked(target.value)] else []) + [Ended(j.status == Done)]
    ensures j.total == old(j.total) && (j.status == Done ==> j.step == j.total)
    ensures s.cooldowns == if j.status == Done then old(s.cooldowns) else Cooldowns.Release(old(s.cooldowns), ftId)
    ensures j.status == Done && target.Some? ==> Curation.CurationOf(curated, snapshot)
    ensures s.accounts == if j.status == Done && target.Some?
      then Rows.UpdateSnapshot(old(s.accounts), target.value, curated, now) else old(s.accounts)
  {
    var ok;
    ok, target, curated := StoreSnapshot(s, snapshot, ftId, claim, writes, now);
    if ok {
      if claim.None? && target.Some? {
        j.LinkAccount(target.value);
      }
      j.Finish(now);
    } else {
      j.Fail(now);
      s.ReleaseSync(ftId);
    }
  }

  /**
   The sync worker. A failure after the reservation frees the slot again, a success
   keeps it, and a refusal or an earlier failure leaves everything alone.
   */
  method StartSync(s: Store, j: Job, remote: Remote, claim: Option<Claim>, writes: bool, reservedAt: int, endedAt: int)
    returns (end: PullEnd, target: Option<nat>, ghost curated: Data)
    requires s.Valid() && j.status == Running && j.log == []
    modifies j, s`accounts, s`campusZones, s`cooldowns
    ensures s.Valid()
    ensures j.status == if end.Complete? && ((target.Some? && writes) || (target.None? && claim.None?)) then Done else Error
    ensures j.log == WorkerLog(end.Complete?, if claim.None? && j.status == Done then target else None, j.status == Done)
    ensures j.status == Done ==> j.step == j.total == STEPS
    ensures end.Complete? ==> GoesTo(old(s.accounts), end.ftId, claim, target)
    ensures !end.Complete? ==> s.cooldowns == old(s.cooldowns)
    ensures end.Complete? && j.status == Done ==> s.cooldowns == old(s.cooldowns)[end.ftId := reservedAt]
    ensures end.Complete? && j.status == Error ==> s.cooldowns == Cooldowns.Release(old(s.cooldowns), end.ftId)
    ensures j.status == Done && target.Some? ==> remote.me.Some? && Curation.CurationOf(curated, Pulled(remote, |COLLECTIONS|))
    ensures s.accounts == if j.status == Done && target.Some?
      then Rows.UpdateSnapshot(old(s.accounts), target.value, curated, endedAt) else old(s.accounts)
  {
    target, curated := None, map[];
    end := Pull(j, s, remote, reservedAt);
    if !end.Complete? {
      j.Fail(endedAt);
      return;
    }
    target, curated := Settle(s, j, end.snapshot, end.ftId, claim, writes, endedAt);
  }

  /**
   What the OAuth callback does with a job it just created: a known user still cooling
   down gets it failed at once (end is None), anyone else gets exactly one worker for it.
   Either way the job ends exactly once.
   */
  method RunJob(s: Store, j: Job, remote: Remote, claim: Option<Claim>, writes: bool, now: int, reservedAt: int, endedAt: int)
    returns (end: Option<PullEnd>, target: Option<nat>, ghost curated: Data)
    requires s.Valid() && j.status == Running && j.log == []
    modifies j, s`accounts, s`campusZones, s`cooldowns
    ensures s.Valid() && j.status != Running
    ensures end.None? <==>
      claim.Some? && Cooldowns.Remaining(old(s.cooldowns), claim.value.expectFtId, now, StoreRuns.SYNC_COOLDOWN).Some?
    ensures end.None? ==> j.log == [Ended(false)]
    ensures end.None? || !end.value.Complete? ==> s.cooldowns == old(s.cooldowns) && s.accounts == old(s.accounts) && j.status == Error
    ensures end.Some? ==>
      j.log == WorkerLog(end.value.Complete?, if claim.None? && j.status == Done then target else None, j.status == Done)
    ensures end.Some? && end.value.Complete? ==> GoesTo(old(s.accounts), end.value.ftId, claim, target)
    ensures end.Some? && end.value.Complete? ==>
      (j.status == Done <==> (target.Some? && writes) || (target.None? && claim.None?))
    ensures end.Some? && end.value.Complete? && j.status == Done ==> s.cooldowns == old(s.cooldowns)[end.value.ftId := reservedAt]
    ensures end.Some? && end.value.Complete? && j.status == Error ==> s.cooldowns == Cooldowns.Release(old(s.cooldowns), end.value.ftId)
    ensures j.status == Done && target.Some? ==> remote.me.Some? && Curation.CurationOf(curated, Pulled(remote, |COLLECTIONS|))
    ensures s.accounts == if j.status == Done && target.Some?
      then Rows.UpdateSnapshot(old(s.accounts), target.value, curated, endedAt) else old(s.accounts)
  {
    end, target, curated := None, None, map[];
    if claim.Some? && Cooldowns.Remaining(s.cooldowns, claim.value.expectFtId, now, StoreRuns.SYNC_COOLDOWN).Some? {
      j.Fail(endedAt);
    } else {
      var e;
      e, target, curated := StartSync(s, j, remote, claim, writes, reservedAt, endedAt);
      end := Some(e);
    }
  }
}
