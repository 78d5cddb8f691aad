/**
 Many concurrent sync workers share the cooldown table. A worker reserves its 42
 id's slot, then keeps it on success, releases it on failure, or dies with the process.
 */
module SyncProtocol {
  import opened Wrappers
  import opened Cooldowns

  datatype Hold = Hold(ft: nat, since: int)

  datatype Event = Granted(ft: nat, at: int) | Released(ft: nat) | Succeeded(ft: nat, since: int)

  datatype State = State(now: int, slots: Slots, holders: map<nat, Hold>, log: seq<Event>)

  datatype Action =
    | Reserve(worker: nat, ft: nat)
    | Succeed(worker: nat)
    | Fail(worker: nat)
    | Die(worker: nat)
    | Purge
    | Tick(passed: nat)

  /** A fresh worker may try to reserve; only a holder can end; anything else is no step. */
  function Next(s: State, a: Action, cooldown: nat): State {
    match a
    case Reserve(w, ft) =>
      if w in s.holders || !Free(s.slots, ft, s.now, cooldown) then s
      else State(s.now, Cooldowns.Reserve(s.slots, ft, s.now, cooldown), s.holders[w := Hold(ft, s.now)], s.log + [Granted(ft, s.now)])
    case Succeed(w) =>
      if w !in s.holders then s
      else s.(holders := s.holders - {w}, log := s.log + [Succeeded(s.holders[w].ft, s.holders[w].since)])
    case Fail(w) =>
      if w !in s.holders then s
      else
        var ft := s.holders[w].ft;
        State(s.now, Release(s.slots, ft), s.holders - {w}, s.log + [Released(ft)])
    case Die(w) => s.(holders := s.holders - {w})
    case Purge => s.(slots := Cooldowns.Purge(s.slots, s.now, cooldown))
    case Tick(passed) => s.(now := s.now + passed)
  }

  const START := State(0, map[], map[], [])

  ghost function After(run: seq<Action>, cooldown: nat): State {
    if run == [] then START else Next(After(run[..|run| - 1], cooldown), run[|run| - 1], cooldown)
  }

  /** Every worker that holds a slot has held it for less than the limit. */
  ghost predicate Prompt(s: State, limit: nat) {
    forall w | w in s.holders :: s.now < s.holders[w].since + limit
  }

  /** A run in which the time limit on workers is kept at every moment. */
  ghost predicate PromptRun(run: seq<Action>, cooldown: nat, limit: nat) {
    Prompt(After(run, cooldown), limit) && (run != [] ==> PromptRun(run[..|run| - 1], cooldown, limit))
  }

  // ---- with workers that end within a cooldown

  ghost predicate OwnSlots(s: State) {
    && (forall w | w in s.holders :: s.holders[w].ft in s.slots && s.slots[s.holders[w].ft] == s.holders[w].since)
    && (forall v, w | v in s.holders && w in s.holders && v != w :: s.holders[v].ft != s.holders[w].ft)
  }

  /** A success keeps its slot until a cooldown later, and no later worker starts before that. */
  ghost predicate KeepsSlot(s: State, ft: nat, since: int, cooldown: nat) {
    && (since + cooldown <= s.now || (ft in s.slots && s.slots[ft] == since))
    && (forall w | w in s.holders && s.holders[w].ft == ft :: since + cooldown <= s.holders[w].since)
  }

  ghost predicate SuccessesKeepSlots(s: State, cooldown: nat) {
    forall i | 0 <= i < |s.log| && s.log[i].Succeeded? :: KeepsSlot(s, s.log[i].ft, s.log[i].since, cooldown)
  }

  ghost predicate SuccessesApart(log: seq<Event>, cooldown: nat) {
    forall i, j | 0 <= i < j < |log| && log[i].Succeeded? && log[j].Succeeded? && log[i].ft == log[j].ft ::
      log[i].since + cooldown <= log[j].since
  }

  lemma ReserveKeeps(s: State, w: nat, ft: nat, cooldown: nat)
    requires OwnSlots(s) && SuccessesKeepSlots(s, cooldown) && SuccessesApart(s.log, cooldown) && Prompt(s, cooldown)
    ensures var t := Next(s, Reserve(w, ft), cooldown);
      OwnSlots(t) && SuccessesKeepSlots(t, cooldown) && SuccessesApart(t.log, cooldown)
  {
    var t := Next(s, Reserve(w, ft), cooldown);
    if t != s {
      assert forall v | v in s.holders :: s.holders[v].ft != ft;
      forall i | 0 <= i < |t.log| && t.log[i].Succeeded? ensures KeepsSlot(t, t.log[i].ft, t.log[i].since, cooldown) {
        assert t.log[i] == s.log[i];
        assert KeepsSlot(s, t.log[i].ft, t.log[i].since, cooldown);
      }
    }
  }

  lemma SucceedKeeps(s: State, w: nat, cooldown: nat)
    requires OwnSlots(s) && SuccessesKeepSlots(s, cooldown) && SuccessesApart(s.log, cooldown)
    ensures var t := Next(s, Succeed(w), cooldown);
      OwnSlots(t) && SuccessesKeepSlots(t, cooldown) && SuccessesApart(t.log, cooldown)
  {
    var t := Next(s, Succeed(w), cooldown);
    if w in s.holders {
      forall i | 0 <= i < |t.log| && t.log[i].Succeeded? ensures KeepsSlot(t, t.log[i].ft, t.log[i].since, cooldown) {
        if i < |s.log| {
          assert KeepsSlot(s, s.log[i].ft, s.log[i].since, cooldown);
        }
      }
    }
  }

  lemma FailKeeps(s: State, w: nat, cooldown: nat)
    requires OwnSlots(s) && SuccessesKeepSlots(s, cooldown) && SuccessesApart(s.log, cooldown) && Prompt(s, cooldown)
    requires StartedByNow(s)
    ensures var t := Next(s, Fail(w), cooldown);
      OwnSlots(t) && SuccessesKeepSlots(t, cooldown) && SuccessesApart(t.log, cooldown)
  {
    var t := Next(s, Fail(w), cooldown);
    if w in s.holders {
      forall i | 0 <= i < |t.log| && t.log[i].Succeeded? ensures KeepsSlot(t, t.log[i].ft, t.log[i].since, cooldown) {
        assert t.log[i] == s.log[i];
        assert KeepsSlot(s, s.log[i].ft, s.log[i].since, cooldown);
      }
    }
  }

  lemma OtherStepKeeps(s: State, a: Action, cooldown: nat)
    requires a.Die? || a.Purge? || a.Tick?
    requires OwnSlots(s) && SuccessesKeepSlots(s, cooldown) && SuccessesApart(s.log, cooldown) && Prompt(s, cooldown)
    ensures var t := Next(s, a, cooldown);
      OwnSlots(t) && SuccessesKeepSlots(t, cooldown) && SuccessesApart(t.log, cooldown)
  {
    var t := Next(s, a, cooldown);
    forall i | 0 <= i < |t.log| && t.log[i].Succeeded? ensures KeepsSlot(t, t.log[i].ft, t.log[i].since, cooldown) {
      assert KeepsSlot(s, s.log[i].ft, s.log[i].since, cooldown);
    }
  }

  ghost predicate StartedByNow(s: State) {
    forall w | w in s.holders :: s.holders[w].since <= s.now
  }

  lemma {:induction false} HoldsStartedByNow(run: seq<Action>, cooldown: nat)
    ensures StartedByNow(After(run, cooldown))
  {
    if run != [] {
      HoldsStartedByNow(run[..|run| - 1], cooldown);
      assert StartedByNow(After(run[..|run| - 1], cooldown));
    }
  }

  lemma {:induction false} PromptRunsKeepSlots(run: seq<Action>, cooldown: nat, limit: nat)
    requires PromptRun(run, cooldown, limit) && limit <= cooldown
    ensures var s := After(run, cooldown);
      OwnSlots(s) && SuccessesKeepSlots(s, cooldown) && SuccessesApart(s.log, cooldown)
  {
    if run != [] {
      var before, a := run[..|run| - 1], run[|run| - 1];
      PromptRunsKeepSlots(before, cooldown, limit);
      HoldsStartedByNow(before, cooldown);
      var s := After(before, cooldown);
      match a {
        case Reserve(w, ft) => ReserveKeeps(s, w, ft, cooldown);
        case Succeed(w) => SucceedKeeps(s, w, cooldown);
        case Fail(w) => FailKeeps(s, w, cooldown);
        case _ => OtherStepKeeps(s, a, cooldown);
      }
    }
  }

  /** At most one worker holds each 42 id. */
  ghost predicate OneHolder(s: State) {
    forall v, w | v in s.holders && w in s.holders && s.holders[v].ft == s.holders[w].ft :: v == w
  }

  /** The row this worker would delete is the one it wrote, and every other holder keeps its own. */
  ghost predicate ReleasesOwn(s: State, w: nat, cooldown: nat)
    requires w in s.holders
  {
    var t := Next(s, Fail(w), cooldown);
    && s.holders[w].ft in s.slots && s.slots[s.holders[w].ft] == s.holders[w].since
    && t.slots == s.slots - {s.holders[w].ft}
    && forall v | v in t.holders :: t.holders[v].ft in t.slots && t.slots[t.holders[v].ft] == t.holders[v].since
  }

  lemma PromptRunIsSafe(run: seq<Action>, cooldown: nat, limit: nat)
    requires PromptRun(run, cooldown, limit) && limit <= cooldown
    ensures OneHolder(After(run, cooldown))
    ensures forall w | w in After(run, cooldown).holders :: ReleasesOwn(After(run, cooldown), w, cooldown)
    ensures SuccessesApart(After(run, cooldown).log, cooldown)
  {
    PromptRunsKeepSlots(run, cooldown, limit);
  }

  // ---- and with workers that may take longer

  /** A worker still at it when its cooldown has passed is joined by a second one. */
  lemma SlowWorkerIsJoined(cooldown: nat, limit: nat)
    requires cooldown < limit
    ensures var run := [Reserve(1, 7), Tick(cooldown), Reserve(2, 7)];
      && PromptRun(run, cooldown, limit)
      && After(run, cooldown) == State(cooldown, map[7 := cooldown], map[1 := Hold(7, 0), 2 := Hold(7, cooldown)], [Granted(7, 0), Granted(7, cooldown)])
  {
    var a0, a1, a2 := Reserve(1, 7), Tick(cooldown), Reserve(2, 7);
    assert [a0, a1, a2][..2] == [a0, a1];
    assert [a0, a1][..1] == [a0];
    assert [a0][..0] == [];
    assert After([a0], cooldown) == Next(START, a0, cooldown);
    assert After([a0, a1], cooldown) == Next(After([a0], cooldown), a1, cooldown);
    assert After([a0, a1, a2], cooldown) == Next(After([a0, a1], cooldown), a2, cooldown);
    assert PromptRun([], cooldown, limit);
    assert PromptRun([a0], cooldown, limit);
    assert PromptRun([a0, a1], cooldown, limit);
  }

  /** At most one worker holds a 42 id in every run exactly when workers are limited to the cooldown. */
  lemma OneHolderIff(cooldown: nat, limit: nat)
    ensures (forall run | PromptRun(run, cooldown, limit) :: OneHolder(After(run, cooldown))) <==> limit <= cooldown
  {
    if limit <= cooldown {
      forall run | PromptRun(run, cooldown, limit)
        ensures OneHolder(After(run, cooldown))
      {
        PromptRunIsSafe(run, cooldown, limit);
      }
    } else {
      SlowWorkerIsJoined(cooldown, limit);
      var s := After([Reserve(1, 7), Tick(cooldown), Reserve(2, 7)], cooldown);
      assert 1 in s.holders && 2 in s.holders && s.holders[1].ft == s.holders[2].ft;
    }
  }

  /** A failing worker's release removes only its own slot, in every run, under exactly the same limit. */
  lemma ReleaseIsOwnIff(cooldown: nat, limit: nat)
    ensures (forall run, w | PromptRun(run, cooldown, limit) && w in After(run, cooldown).holders :: ReleasesOwn(After(run, cooldown), w, cooldown))
      <==> limit <= cooldown
  {
    if limit <= cooldown {
      forall run, w | PromptRun(run, cooldown, limit) && w in After(run, cooldown).holders
        ensures ReleasesOwn(After(run, cooldown), w, cooldown)
      {
        PromptRunIsSafe(run, cooldown, limit);
      }
    } else {
      SlowWorkerIsJoined(cooldown, limit);
      var s := After([Reserve(1, 7), Tick(cooldown), Reserve(2, 7)], cooldown);
      var t := Next(s, Fail(1), cooldown);
      assert 2 in t.holders && t.holders[2].ft == 7 && 7 !in t.slots;
      assert !ReleasesOwn(s, 1, cooldown);
    }
  }

  /** The overdue worker fails and frees the other's slot, a third one joins, and both that are left succeed. */
  lemma SlowWorkerLetsTwoSucceed(cooldown: nat, limit: nat)
    requires cooldown < limit
    ensures var run := [Reserve(1, 7), Tick(cooldown), Reserve(2, 7), Fail(1), Reserve(3, 7), Succeed(2), Succeed(3)];
      && PromptRun(run, cooldown, limit)
      && After(run, cooldown).log == [Granted(7, 0), Granted(7, cooldown), Released(7), Granted(7, cooldown), Succeeded(7, cooldown), Succeeded(7, cooldown)]
  {
    var a0, a1, a2, a3, a4, a5, a6 := Reserve(1, 7), Tick(cooldown), Reserve(2, 7), Fail(1), Reserve(3, 7), Succeed(2), Succeed(3);
    SlowWorkerIsJoined(cooldown, limit);
    assert [a0, a1, a2, a3, a4, a5, a6][..6] == [a0, a1, a2, a3, a4, a5];
    assert [a0, a1, a2, a3, a4, a5][..5] == [a0, a1, a2, a3, a4];
    assert [a0, a1, a2, a3, a4][..4] == [a0, a1, a2, a3];
    assert [a0, a1, a2, a3][..3] == [a0, a1, a2];
    var s2 := After([a0, a1, a2], cooldown);
    var s3 := After([a0, a1, a2, a3], cooldown);
    assert s3 == Next(s2, a3, cooldown);
    var s4 := After([a0, a1, a2, a3, a4], cooldown);
    assert s4 == Next(s3, a4, cooldown);
    var s5 := After([a0, a1, a2, a3, a4, a5], cooldown);
    assert s5 == Next(s4, a5, cooldown);
    assert After([a0, a1, a2, a3, a4, a5, a6], cooldown) == Next(s5, a6, cooldown);
    assert PromptRun([a0, a1, a2, a3], cooldown, limit);
    assert PromptRun([a0, a1, a2, a3, a4], cooldown, limit);
    assert PromptRun([a0, a1, a2, a3, a4, a5], cooldown, limit);
  }

  /** Any two successes of one id were reserved a cooldown apart, in whichever order they ended. */
  ghost predicate ReservedApart(log: seq<Event>, cooldown: nat) {
    forall i, j | 0 <= i < j < |log| && log[i].Succeeded? && log[j].Succeeded? && log[i].ft == log[j].ft ::
      log[i].since + cooldown <= log[j].since || log[j].since + cooldown <= log[i].since
  }

  /**
   Successful syncs of one id are reserved at least a cooldown apart in every run exactly when
   workers are limited to the cooldown (or there is no cooldown to keep).
   */
  lemma SuccessesApartIff(cooldown: nat, limit: nat)
    ensures (forall run | PromptRun(run, cooldown, limit) :: ReservedApart(After(run, cooldown).log, cooldown))
      <==> limit <= cooldown || cooldown == 0
    ensures cooldown > 0 ==>
      ((forall run | PromptRun(run, cooldown, limit) :: SuccessesApart(After(run, cooldown).log, cooldown)) <==> limit <= cooldown)
  {
    if limit <= cooldown {
      forall run | PromptRun(run, cooldown, limit)
        ensures ReservedApart(After(run, cooldown).log, cooldown) && SuccessesApart(After(run, cooldown).log, cooldown)
      {
        PromptRunIsSafe(run, cooldown, limit);
      }
    } else if cooldown > 0 {
      SlowWorkerLetsTwoSucceed(cooldown, limit);
      var run := [Reserve(1, 7), Tick(cooldown), Reserve(2, 7), Fail(1), Reserve(3, 7), Succeed(2), Succeed(3)];
      var log := After(run, cooldown).log;
      assert log[4] == log[5] == Succeeded(7, cooldown);
    }
  }

  // ---- with no assumption on the workers

  /** The latest grant of the id that no release has followed. */
  ghost function OpenGrant(log: seq<Event>, ft: nat): Option<int> {
    if log == [] then None
    else
      var e := log[|log| - 1];
      if e.ft != ft || e.Succeeded? then OpenGrant(log[..|log| - 1], ft)
      else if e.Granted? then Some(e.at) else None
  }

  ghost predicate OpenGrantKept(s: State, ft: nat, cooldown: nat) {
    match OpenGrant(s.log, ft)
    case None => ft !in s.slots
    case Some(t) => if ft in s.slots then s.slots[ft] == t else t + cooldown <= s.now
  }

  lemma {:induction false} OpenGrantsKept(run: seq<Action>, cooldown: nat, ft: nat)
    ensures OpenGrantKept(After(run, cooldown), ft, cooldown)
  {
    if run != [] {
      var before := run[..|run| - 1];
      OpenGrantsKept(before, cooldown, ft);
      var s, t := After(before, cooldown), After(run, cooldown);
      if |t.log| > |s.log| {
        assert t.log[..|t.log| - 1] == s.log;
      }
    }
  }

  ghost predicate ReleasedBetween(log: seq<Event>, i: int, j: int, ft: nat) {
    exists k :: i < k < j && 0 <= k < |log| && log[k] == Released(ft)
  }

  /** Two grants of an id with no release between them are at least a cooldown apart. */
  ghost predicate GrantsApart(log: seq<Event>, cooldown: nat) {
    forall i, j | 0 <= i < j < |log| && log[i].Granted? && log[j].Granted? && log[i].ft == log[j].ft ::
      ReleasedBetween(log, i, j, log[i].ft) || log[i].at + cooldown <= log[j].at
  }

  /** A grant that no release follows is not younger than the open one. */
  lemma {:induction false} OpenGrantIsLatest(log: seq<Event>, i: nat, cooldown: nat)
    requires i < |log| && log[i].Granted? && GrantsApart(log, cooldown)
    requires !ReleasedBetween(log, i, |log|, log[i].ft)
    ensures OpenGrant(log, log[i].ft).Some? && log[i].at <= OpenGrant(log, log[i].ft).value
  {
    var ft, last := log[i].ft, |log| - 1;
    if i < last {
      assert log[last] != Released(ft);
      if log[last].ft != ft || log[last].Succeeded? {
        var rest := log[..last];
        assert rest[i] == log[i];
        GrantsApartPrefix(log, last, cooldown);
        OpenGrantIsLatest(rest, i, cooldown);
      } else {
        assert log[i].at + cooldown <= log[last].at;
      }
    }
  }

  lemma GrantsApartPrefix(log: seq<Event>, n: nat, cooldown: nat)
    requires n <= |log| && GrantsApart(log, cooldown)
    ensures GrantsApart(log[..n], cooldown)
  {
    var p := log[..n];
    forall i, j | 0 <= i < j < |p| && p[i].Granted? && p[j].Granted? && p[i].ft == p[j].ft
      ensures ReleasedBetween(p, i, j, p[i].ft) || p[i].at + cooldown <= p[j].at
    {
      if ReleasedBetween(log, i, j, log[i].ft) {
        var k :| i < k < j && 0 <= k < |log| && log[k] == Released(log[i].ft);
        assert p[k] == log[k];
      }
    }
  }

  lemma {:induction false} GrantsCooledDown(run: seq<Action>, cooldown: nat)
    ensures GrantsApart(After(run, cooldown).log, cooldown)
  {
    if run != [] {
      var before := run[..|run| - 1];
      GrantsCooledDown(before, cooldown);
      var s, t := After(before, cooldown), After(run, cooldown);
      if |t.log| > |s.log| {
        GrantStepApart(s, run[|run| - 1], cooldown, before);
      }
    }
  }

  lemma GrantStepApart(s: State, a: Action, cooldown: nat, before: seq<Action>)
    requires s == After(before, cooldown) && GrantsApart(s.log, cooldown)
    ensures GrantsApart(Next(s, a, cooldown).log, cooldown)
  {
    var log, next := s.log, Next(s, a, cooldown).log;
    forall i, j | 0 <= i < j < |next| && next[i].Granted? && next[j].Granted? && next[i].ft == next[j].ft
      ensures ReleasedBetween(next, i, j, next[i].ft) || next[i].at + cooldown <= next[j].at
    {
      assert next[i] == log[i];
      if ReleasedBetween(log, i, j, log[i].ft) {
        var k :| i < k < j && 0 <= k < |log| && log[k] == Released(log[i].ft);
        assert next[k] == log[k];
      } else if j == |log| {
        OpenGrantIsLatest(log, i, cooldown);
        OpenGrantsKept(before, cooldown, log[i].ft);
      } else {
        assert next[j] == log[j];
      }
    }
  }
}
