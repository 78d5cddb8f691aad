/**
 The sliding-window attempt limiter. Times are clock readings; a take reads the
 clock twice, once to count and once to stamp.
 */
module Limiter {

  /** The stamps younger than the cutoff, in order. */
  function Recent(stamps: seq<int>, cutoff: int): (kept: seq<int>)
    ensures |kept| <= |stamps|
  {
    if stamps == [] then []
    else
      var rest := Recent(stamps[..|stamps| - 1], cutoff);
      var t := stamps[|stamps| - 1];
      if t > cutoff then rest + [t] else rest
  }

  /** The positions of the stamps later than the cutoff. */
  function Later(stamps: seq<int>, cutoff: int): set<nat> {
    set i: nat | i < |stamps| && stamps[i] > cutoff
  }

  lemma {:induction false} RecentAreLater(stamps: seq<int>, cutoff: int)
    ensures |Recent(stamps, cutoff)| == |Later(stamps, cutoff)|
    ensures forall t :: t in Recent(stamps, cutoff) <==> t in stamps && t > cutoff
  {
    if stamps != [] {
      var front, n := stamps[..|stamps| - 1], |stamps| - 1;
      RecentAreLater(front, cutoff);
      assert stamps == front + [stamps[n]];
      if stamps[n] > cutoff {
        assert Later(stamps, cutoff) == Later(front, cutoff) + {n};
      } else {
        assert Later(stamps, cutoff) == Later(front, cutoff);
      }
    }
  }

  /** The same compaction on a slice's own storage: kept stamps slide to the front, reads stay ahead of writes. */
  method CompactInPlace(list: array<int>, cutoff: int) returns (n: nat)
    modifies list
    ensures n <= list.Length
    ensures list[..n] == Recent(old(list[..]), cutoff)
  {
    n := 0;
    ghost var was := list[..];
    for i := 0 to list.Length
      invariant n <= i
      invariant list[..n] == Recent(was[..i], cutoff)
      invariant forall k | i <= k < list.Length :: list[k] == was[k]
    {
      assert was[..i + 1][..i] == was[..i];
      ghost var kept := list[..n];
      if list[i] > cutoff {
        list[n] := list[i];
        n := n + 1;
        assert list[..n] == kept + [was[i]];
      }
    }
    assert was[..list.Length] == was;
  }

  type Attempts<T> = map<T, seq<int>>

  function Stamps<T>(attempts: Attempts<T>, key: T): seq<int> {
    if key in attempts then attempts[key] else []
  }

  function Put<T>(attempts: Attempts<T>, key: T, stamps: seq<int>): Attempts<T> {
    if stamps == [] then attempts - {key} else attempts[key := stamps]
  }

  datatype Op<T> =
    | Take(key: T, checkedAt: int, stampedAt: int)
    | Allowed(key: T, at: int)
    | RecordFailed(key: T, at: int)
    | Clear(key: T, at: int)
    | Prune(at: int)
  {
    function Start(): int { if Take? then checkedAt else at }
    function End(): int { if Take? then stampedAt else at }
  }

  datatype Config = Config(max: nat, window: nat)

  /** What an operation on a key (or a prune) does to that key's stamps. */
  function NewStamps<T>(c: Config, stamps: seq<int>, op: Op<T>): seq<int> {
    match op
    case Take(_, checkedAt, stampedAt) =>
      var kept := Recent(stamps, checkedAt - c.window);
      if |kept| < c.max then kept + [stampedAt] else kept
    case Allowed(_, at) => Recent(stamps, at - c.window)
    case RecordFailed(_, at) => stamps + [at]
    case Clear(_, _) => []
    case Prune(at) => Recent(stamps, at - c.window)
  }

  /** What take and allowed answer; the other operations have nothing to say. */
  function Reply<T>(c: Config, stamps: seq<int>, op: Op<T>): bool {
    op.Take? || op.Allowed? ==> |Recent(stamps, op.Start() - c.window)| < c.max
  }

  /** One locked operation on the whole map. */
  function Step<T>(c: Config, attempts: Attempts<T>, op: Op<T>): Attempts<T> {
    if op.Prune? then
      map key | key in attempts && NewStamps(c, attempts[key], op) != [] :: NewStamps(c, attempts[key], op)
    else Put(attempts, op.key, NewStamps(c, Stamps(attempts, op.key), op))
  }

  function StepReply<T>(c: Config, attempts: Attempts<T>, op: Op<T>): bool {
    op.Prune? || Reply(c, Stamps(attempts, op.key), op)
  }

  /** The map half-way through a prune: compacted at every key but those still to do. */
  ghost predicate PartlyPruned<T(!new)>(attempts: Attempts<T>, before: Attempts<T>, todo: set<T>, cutoff: int) {
    && (forall k :: k in attempts <==> k in before && (k in todo || Recent(before[k], cutoff) != []))
    && (forall k | k in attempts :: attempts[k] == if k in todo then before[k] else Recent(before[k], cutoff))
  }

  lemma PruneOne<T(!new)>(attempts: Attempts<T>, before: Attempts<T>, todo: set<T>, cutoff: int, key: T)
    requires PartlyPruned(attempts, before, todo, cutoff) && key in todo && todo <= before.Keys
    ensures PartlyPruned(Put(attempts, key, Recent(Stamps(attempts, key), cutoff)), before, todo - {key}, cutoff)
  {
  }

  class AttemptLimiter<T(==,!new)> {
    var attempts: map<T, seq<int>>
    const max: nat
    const window: nat

    constructor (max: nat, window: nat)
      ensures attempts == map[] && this.max == max && this.window == window
    {
      this.max, this.window := max, window;
      attempts := map[];
    }

    function Cfg(): Config { Config(max, window) }

    /** Compacts the key's stamps and counts what is left. */
    method CountRecent(key: T, now: int) returns (n: nat)
      modifies this
      ensures attempts == Put(old(attempts), key, Recent(Stamps(old(attempts), key), now - window))
      ensures n == |Recent(Stamps(old(attempts), key), now - window)| == |Later(Stamps(old(attempts), key), now - window)|
    {
      RecentAreLater(Stamps(attempts, key), now - window);
      var list := Stamps(attempts, key);
      var kept: seq<int> := [];
      for i := 0 to |list|
        invariant kept == Recent(list[..i], now - window)
      {
        assert list[..i + 1][..i] == list[..i];
        if list[i] > now - window {
          kept := kept + [list[i]];
        }
      }
      assert list[..|list|] == list;
      if |kept| == 0 {
        attempts := attempts - {key};
      } else {
        attempts := attempts[key := kept];
      }
      n := |kept|;
    }

    method Allowed(key: T, now: int) returns (ok: bool)
      modifies this
      ensures attempts == Step(Cfg(), old(attempts), Op.Allowed(key, now))
      ensures ok == StepReply(Cfg(), old(attempts), Op.Allowed(key, now))
      ensures ok <==> |Later(Stamps(old(attempts), key), now - window)| < max
    {
      var n := CountRecent(key, now);
      ok := n < max;
    }

    method RecordFailed(key: T, now: int)
      modifies this
      ensures attempts == Step(Cfg(), old(attempts), Op.RecordFailed(key, now))
      ensures attempts == old(attempts)[key := Stamps(old(attempts), key) + [now]]
    {
      attempts := attempts[key := Stamps(attempts, key) + [now]];
    }

    method Take(key: T, checkedAt: int, stampedAt: int) returns (ok: bool)
      modifies this
      ensures attempts == Step(Cfg(), old(attempts), Op.Take(key, checkedAt, stampedAt))
      ensures ok == StepReply(Cfg(), old(attempts), Op.Take(key, checkedAt, stampedAt))
      ensures ok <==> |Later(Stamps(old(attempts), key), checkedAt - window)| < max
      ensures Stamps(attempts, key) == Recent(Stamps(old(attempts), key), checkedAt - window) + if ok then [stampedAt] else []
    {
      ghost var kept := Recent(Stamps(attempts, key), checkedAt - window);
      var n := CountRecent(key, checkedAt);
      if n >= max {
        return false;
      }
      assert Stamps(attempts, key) == kept;
      attempts := attempts[key := Stamps(attempts, key) + [stampedAt]];
      ok := true;
    }

    method Clear(key: T, now: int)
      modifies this
      ensures attempts == Step(Cfg(), old(attempts), Op.Clear(key, now))
      ensures attempts == old(attempts) - {key}
    {
      attempts := attempts - {key};
    }

    method Prune(now: int)
      modifies this
      ensures attempts == Step(Cfg(), old(attempts), Op.Prune(now))
      ensures forall k :: Stamps(attempts, k) == Recent(Stamps(old(attempts), k), now - window)
    {
      var todo := attempts.Keys;
      ghost var before := attempts;
      while todo != {}
        invariant todo <= before.Keys
        invariant PartlyPruned(attempts, before, todo, now - window)
        decreases todo
      {
        var key :| key in todo;
        PruneOne(attempts, before, todo, now - window, key);
        var n := CountRecent(key, now);
        todo := todo - {key};
      }
    }
  }

  // ---- runs

  /** The whole map after a run. */
  ghost function After<T>(c: Config, ops: seq<Op<T>>): Attempts<T> {
    if ops == [] then map[]
    else Step(c, After(c, ops[..|ops| - 1]), ops[|ops| - 1])
  }

  /** One key's stamps after a run. */
  ghost function Stored<T>(c: Config, ops: seq<Op<T>>, key: T): seq<int> {
    if ops == [] then []
    else
      var before, op := Stored(c, ops[..|ops| - 1], key), ops[|ops| - 1];
      if op.Prune? || op.key == key then NewStamps(c, before, op) else before
  }

  lemma StepAtKey<T>(c: Config, attempts: Attempts<T>, op: Op<T>, key: T)
    ensures Stamps(Step(c, attempts, op), key)
         == if op.Prune? || op.key == key then NewStamps(c, Stamps(attempts, key), op) else Stamps(attempts, key)
  {
  }

  /** Keys do not disturb each other. */
  lemma {:induction false} MapHoldsStored<T>(c: Config, ops: seq<Op<T>>, key: T)
    ensures Stamps(After(c, ops), key) == Stored(c, ops, key)
  {
    if ops != [] {
      var before := ops[..|ops| - 1];
      MapHoldsStored(c, before, key);
      StepAtKey(c, After(c, before), ops[|ops| - 1], key);
    }
  }

  /** A key without stamps takes no room in the map. */
  lemma {:induction false} NoEmptyEntries<T>(c: Config, ops: seq<Op<T>>, key: T)
    ensures key in After(c, ops) ==> After(c, ops)[key] != []
  {
    if ops != [] {
      NoEmptyEntries(c, ops[..|ops| - 1], key);
    }
  }

  /** The answer of the last operation of the run. */
  ghost function Answer<T>(c: Config, ops: seq<Op<T>>): bool
    requires ops != []
  {
    var op := ops[|ops| - 1];
    op.Prune? || Reply(c, Stored(c, ops[..|ops| - 1], op.key), op)
  }

  lemma AnswerIsStepReply<T>(c: Config, ops: seq<Op<T>>)
    requires ops != []
    ensures Answer(c, ops) == StepReply(c, After(c, ops[..|ops| - 1]), ops[|ops| - 1])
  {
    var op := ops[|ops| - 1];
    if !op.Prune? {
      MapHoldsStored(c, ops[..|ops| - 1], op.key);
    }
  }

  /** The clock never decreases along the run. */
  ghost predicate Clocked<T>(ops: seq<Op<T>>) {
    ops == [] ||
    var before, op := ops[..|ops| - 1], ops[|ops| - 1];
    && Clocked(before)
    && op.Start() <= op.End()
    && (before != [] ==> before[|before| - 1].End() <= op.Start())
  }

  /** The effect of one answered operation on the key's log of charges. */
  ghost function Charged<T>(log: seq<int>, op: Op<T>, ok: bool, key: T): seq<int> {
    if op.Prune? || op.key != key then log
    else match op
      case Take(_, _, at) => if ok then log + [at] else log
      case RecordFailed(_, at) => log + [at]
      case Clear(_, _) => []
      case _ => log
  }

  /** Every charge to the key since it was last cleared, none ever dropped: the log the limiter stands for. */
  ghost function Charges<T>(c: Config, ops: seq<Op<T>>, key: T): seq<int> {
    if ops == [] then []
    else Charged(Charges(c, ops[..|ops| - 1], key), ops[|ops| - 1], Answer(c, ops), key)
  }

  lemma {:induction false} RecentAppend(a: seq<int>, t: int, cutoff: int)
    ensures Recent(a + [t], cutoff) == Recent(a, cutoff) + (if t > cutoff then [t] else [])
  {
    assert (a + [t])[..|a|] == a;
  }

  lemma {:induction false} RecentTwice(a: seq<int>, early: int, late: int)
    requires early <= late
    ensures Recent(Recent(a, early), late) == Recent(a, late)
  {
    if a != [] {
      var rest, t := a[..|a| - 1], a[|a| - 1];
      RecentTwice(rest, early, late);
      if t > early {
        RecentAppend(Recent(rest, early), t, late);
      }
    }
  }

  lemma TakeRefines(kept: seq<int>, log: seq<int>, at: int, cutoff: int, granted: bool)
    requires Recent(kept, cutoff) == Recent(log, cutoff)
    ensures Recent(if granted then kept + [at] else kept, cutoff) == Recent(if granted then log + [at] else log, cutoff)
  {
    RecentAppend(kept, at, cutoff);
    RecentAppend(log, at, cutoff);
  }

  lemma StepRefines<T>(c: Config, stamps: seq<int>, log: seq<int>, op: Op<T>, cutoff: int)
    requires op.Start() <= op.End() && op.End() - c.window <= cutoff
    requires Recent(stamps, cutoff) == Recent(log, cutoff)
    requires !op.Prune?
    ensures Recent(NewStamps(c, stamps, op), cutoff) == Recent(Charged(log, op, Reply(c, stamps, op), op.key), cutoff)
  {
    var early := op.Start() - c.window;
    RecentTwice(stamps, early, cutoff);
    if op.Take? {
      TakeRefines(Recent(stamps, early), log, op.End(), cutoff, Reply(c, stamps, op));
    } else if op.RecordFailed? {
      TakeRefines(stamps, log, op.End(), cutoff, true);
    }
  }

  /** From the last clock reading on, the compacted list and the full log show the same recent stamps. */
  lemma {:induction false} RefinesCharges<T>(c: Config, ops: seq<Op<T>>, key: T, cutoff: int)
    requires Clocked(ops)
    requires ops != [] ==> ops[|ops| - 1].End() - c.window <= cutoff
    ensures Recent(Stored(c, ops, key), cutoff) == Recent(Charges(c, ops, key), cutoff)
  {
    if ops != [] {
      var before, op := ops[..|ops| - 1], ops[|ops| - 1];
      RefinesCharges(c, before, key, cutoff);
      var stamps := Stored(c, before, key);
      if op.Prune? {
        RecentTwice(stamps, op.at - c.window, cutoff);
      } else if op.key == key {
        StepRefines(c, stamps, Charges(c, before, key), op, cutoff);
      }
    }
  }

  /** take and allowed answer from the full log, as if nothing had ever been compacted. */
  lemma AnswersFromLog<T>(c: Config, ops: seq<Op<T>>)
    requires Clocked(ops) && ops != [] && !ops[|ops| - 1].Prune?
    ensures var op := ops[|ops| - 1]; Answer(c, ops) == Reply(c, Charges(c, ops[..|ops| - 1], op.key), op)
  {
    var before, op := ops[..|ops| - 1], ops[|ops| - 1];
    if op.Take? || op.Allowed? {
      assert before != [] ==> before[|before| - 1].End() <= op.Start();
      RefinesCharges(c, before, op.key, op.Start() - c.window);
    }
  }

  /**
   take and allowed succeed exactly when fewer than max charges of the key, out of all
   ever made since it was last cleared, are younger than the window at the time of the count.
   */
  lemma {:induction false} AnswerCountsCharges<T>(c: Config, ops: seq<Op<T>>)
    requires Clocked(ops) && ops != [] && (ops[|ops| - 1].Take? || ops[|ops| - 1].Allowed?)
    ensures var op := ops[|ops| - 1];
      Answer(c, ops) <==> |Later(Charges(c, ops[..|ops| - 1], op.key), op.Start() - c.window)| < c.max
  {
    var op := ops[|ops| - 1];
    var log := Charges(c, ops[..|ops| - 1], op.key);
    AnswersFromLog(c, ops);
    RecentAreLater(log, op.Start() - c.window);
  }

  // ---- pruning cannot be observed

  ghost function WithoutPrunes<T>(ops: seq<Op<T>>): seq<Op<T>> {
    if ops == [] then []
    else
      var before, op := WithoutPrunes(ops[..|ops| - 1]), ops[|ops| - 1];
      if op.Prune? then before else before + [op]
  }

  /** The answers of all operations but the prunes, in order. */
  ghost function Answers<T>(c: Config, ops: seq<Op<T>>): seq<bool> {
    if ops == [] then []
    else
      var before := Answers(c, ops[..|ops| - 1]);
      if ops[|ops| - 1].Prune? then before else before + [Answer(c, ops)]
  }

  lemma {:induction false} WithoutPrunesClocked<T>(ops: seq<Op<T>>, now: int)
    requires Clocked(ops) && (ops != [] ==> ops[|ops| - 1].End() <= now)
    ensures Clocked(WithoutPrunes(ops))
    ensures WithoutPrunes(ops) != [] ==> WithoutPrunes(ops)[|WithoutPrunes(ops)| - 1].End() <= now
  {
    if ops != [] {
      var before, op := ops[..|ops| - 1], ops[|ops| - 1];
      WithoutPrunesClocked(before, op.Start());
      var w := WithoutPrunes(before);
      assert (w + [op])[..|w|] == w;
    }
  }

  /** Equal logs give equal answers, prunes or not. */
  lemma SameLogSameAnswer<T>(c: Config, ops: seq<Op<T>>, other: seq<Op<T>>)
    requires Clocked(ops) && ops != [] && Clocked(other) && other != []
    requires ops[|ops| - 1] == other[|other| - 1] && !ops[|ops| - 1].Prune?
    requires var key := ops[|ops| - 1].key; Charges(c, ops[..|ops| - 1], key) == Charges(c, other[..|other| - 1], key)
    ensures Answer(c, ops) == Answer(c, other)
  {
    AnswersFromLog(c, ops);
    AnswersFromLog(c, other);
  }

  lemma {:induction false} PruningKeepsLog<T>(c: Config, ops: seq<Op<T>>, key: T)
    requires Clocked(ops)
    ensures Charges(c, ops, key) == Charges(c, WithoutPrunes(ops), key)
  {
    if ops != [] {
      var before, op := ops[..|ops| - 1], ops[|ops| - 1];
      PruningKeepsLog(c, before, key);
      if !op.Prune? {
        PruningKeepsLog(c, before, op.key);
        var w := WithoutPrunes(ops);
        assert w[..|w| - 1] == WithoutPrunes(before);
        WithoutPrunesClocked(ops, op.End());
        SameLogSameAnswer(c, ops, w);
      }
    }
  }

  /** Dropping every prune from a run changes no answer. */
  lemma {:induction false} PruningIsInvisible<T>(c: Config, ops: seq<Op<T>>)
    requires Clocked(ops)
    ensures Answers(c, ops) == Answers(c, WithoutPrunes(ops))
  {
    if ops != [] {
      var before, op := ops[..|ops| - 1], ops[|ops| - 1];
      PruningIsInvisible(c, before);
      if !op.Prune? {
        PruningKeepsLog(c, before, op.key);
        var w := WithoutPrunes(ops);
        assert w[..|w| - 1] == WithoutPrunes(before);
        WithoutPrunesClocked(ops, op.End());
        SameLogSameAnswer(c, ops, w);
      }
    }
  }

  // ---- at most max successes in any window

  /** The two clock readings of every successful take of the key, in order. */
  ghost function Successes<T>(c: Config, ops: seq<Op<T>>, key: T): seq<(int, int)> {
    if ops == [] then []
    else
      var before, op := Successes(c, ops[..|ops| - 1], key), ops[|ops| - 1];
      if op.Take? && op.key == key && Answer(c, ops) then before + [(op.checkedAt, op.stampedAt)] else before
  }

  ghost predicate TakeOnly<T>(ops: seq<Op<T>>, key: T) {
    forall i | 0 <= i < |ops| :: (ops[i].RecordFailed? || ops[i].Clear?) ==> ops[i].key != key
  }

  predicate SortedUpTo(xs: seq<int>, bound: int) {
    && (forall i, j | 0 <= i < j < |xs| :: xs[i] <= xs[j])
    && (forall i | 0 <= i < |xs| :: xs[i] <= bound)
  }

  lemma {:induction false} RecentSorted(xs: seq<int>, cutoff: int, bound: int)
    requires SortedUpTo(xs, bound)
    ensures SortedUpTo(Recent(xs, cutoff), bound)
  {
    if xs != [] {
      var t := xs[|xs| - 1];
      RecentSorted(xs[..|xs| - 1], cutoff, t);
    }
  }

  lemma AppendSorted(xs: seq<int>, t: int, early: int)
    requires SortedUpTo(xs, early) && early <= t
    ensures SortedUpTo(xs + [t], t) && SortedUpTo(xs, t)
  {
  }

  lemma NewStampsSorted<T>(c: Config, stamps: seq<int>, op: Op<T>)
    requires op.Start() <= op.End() && SortedUpTo(stamps, op.Start())
    ensures SortedUpTo(NewStamps(c, stamps, op), op.End())
  {
    var kept := Recent(stamps, op.Start() - c.window);
    RecentSorted(stamps, op.Start() - c.window, op.Start());
    AppendSorted(stamps, op.End(), op.Start());
    AppendSorted(kept, op.End(), op.Start());
  }

  /** The stored stamps of every key come in clock order. */
  lemma {:induction false} StoredInClockOrder<T>(c: Config, ops: seq<Op<T>>, key: T, now: int)
    requires Clocked(ops) && (ops != [] ==> ops[|ops| - 1].End() <= now)
    ensures SortedUpTo(Stored(c, ops, key), now)
  {
    if ops != [] {
      var before, op := ops[..|ops| - 1], ops[|ops| - 1];
      StoredInClockOrder(c, before, key, op.Start());
      NewStampsSorted(c, Stored(c, before, key), op);
    }
  }

  /** So do the charges of the log. */
  lemma {:induction false} ChargesInClockOrder<T>(c: Config, ops: seq<Op<T>>, key: T, now: int)
    requires Clocked(ops) && (ops != [] ==> ops[|ops| - 1].End() <= now)
    ensures SortedUpTo(Charges(c, ops, key), now)
  {
    if ops != [] {
      var before, op := ops[..|ops| - 1], ops[|ops| - 1];
      ChargesInClockOrder(c, before, key, op.Start());
      AppendSorted(Charges(c, before, key), op.End(), op.Start());
    }
  }

  /** The stored list of a take-only key stays sorted and never grows beyond max. */
  lemma {:induction false} StoredListBounded<T>(c: Config, ops: seq<Op<T>>, key: T)
    requires Clocked(ops) && TakeOnly(ops, key)
    ensures |Stored(c, ops, key)| <= c.max
    ensures ops != [] ==> SortedUpTo(Stored(c, ops, key), ops[|ops| - 1].End())
  {
    if ops != [] {
      StoredListBounded(c, ops[..|ops| - 1], key);
      StoredInClockOrder(c, ops, key, ops[|ops| - 1].End());
    }
  }

  lemma {:induction false} TakeOnlyCharges<T>(c: Config, ops: seq<Op<T>>, key: T)
    requires TakeOnly(ops, key)
    ensures |Charges(c, ops, key)| == |Successes(c, ops, key)|
    ensures forall i | 0 <= i < |Charges(c, ops, key)| :: Charges(c, ops, key)[i] == Successes(c, ops, key)[i].1
  {
    if ops != [] {
      TakeOnlyCharges(c, ops[..|ops| - 1], key);
    }
  }

  /** Few recent stamps in a sorted list push the older ones back behind the cutoff. */
  lemma {:induction false} FewRecent(xs: seq<int>, cutoff: int, m: nat, bound: int)
    requires SortedUpTo(xs, bound) && |Recent(xs, cutoff)| < m <= |xs|
    ensures xs[|xs| - m] <= cutoff
  {
    var rest, t := xs[..|xs| - 1], xs[|xs| - 1];
    if t > cutoff {
      assert m > 1;
      FewRecent(rest, cutoff, m - 1, bound);
    }
  }

  /** Successes that are max apart are a whole window apart, from the earlier stamp to the later count. */
  ghost predicate Spaced(c: Config, s: seq<(int, int)>) {
    && (forall i | 0 <= i < |s| :: s[i].0 <= s[i].1)
    && (forall i, j | 0 <= i && i + c.max <= j < |s| :: s[i].1 + c.window <= s[j].0)
  }

  lemma SpacedAppend(c: Config, s: seq<(int, int)>, stamps: seq<int>, checkedAt: int, stampedAt: int)
    requires Spaced(c, s) && checkedAt <= stampedAt
    requires |stamps| == |s| && forall i | 0 <= i < |s| :: stamps[i] == s[i].1
    requires SortedUpTo(stamps, checkedAt) && |Recent(stamps, checkedAt - c.window)| < c.max
    ensures Spaced(c, s + [(checkedAt, stampedAt)])
  {
    if c.max <= |stamps| {
      FewRecent(stamps, checkedAt - c.window, c.max, checkedAt);
    }
  }

  lemma TakeOnlyPrefix<T>(ops: seq<Op<T>>, key: T)
    requires Clocked(ops) && TakeOnly(ops, key) && ops != []
    ensures var before, op := ops[..|ops| - 1], ops[|ops| - 1];
      Clocked(before) && TakeOnly(before, key) && op.Start() <= op.End() && (before != [] ==> before[|before| - 1].End() <= op.Start())
  {
  }

  lemma GrantedSpaced<T>(c: Config, before: seq<Op<T>>, key: T, checkedAt: int, stampedAt: int)
    requires Clocked(before) && TakeOnly(before, key) && Spaced(c, Successes(c, before, key))
    requires checkedAt <= stampedAt && (before != [] ==> before[|before| - 1].End() <= checkedAt)
    requires |Recent(Charges(c, before, key), checkedAt - c.window)| < c.max
    ensures Spaced(c, Successes(c, before, key) + [(checkedAt, stampedAt)])
  {
    TakeOnlyCharges(c, before, key);
    ChargesInClockOrder(c, before, key, checkedAt);
    SpacedAppend(c, Successes(c, before, key), Charges(c, before, key), checkedAt, stampedAt);
  }

  lemma {:induction false} SuccessesSpaced<T>(c: Config, ops: seq<Op<T>>, key: T)
    requires Clocked(ops) && TakeOnly(ops, key)
    ensures Spaced(c, Successes(c, ops, key))
  {
    if ops != [] {
      var before, op := ops[..|ops| - 1], ops[|ops| - 1];
      TakeOnlyPrefix(ops, key);
      SuccessesSpaced(c, before, key);
      if op.Take? && op.key == key && Answer(c, ops) {
        AnswersFromLog(c, ops);
        GrantedSpaced(c, before, key, op.checkedAt, op.stampedAt);
      }
    }
  }

  /** The instants that fall into [from, from + window), by position. */
  ghost function InWindow(instants: seq<int>, from: int, window: nat): set<nat> {
    set i: nat | i < |instants| && from <= instants[i] < from + window
  }

  lemma ConsecutiveSize(xs: set<nat>, first: nat, n: nat)
    requires forall x | x in xs :: first <= x < first + n
    ensures |xs| <= n
    decreases n
  {
    if n > 0 {
      var last: nat := first + n - 1;
      ConsecutiveSize(xs - {last}, first, n - 1);
    } else {
      assert xs == {};
    }
  }

  lemma SpacedFits(c: Config, s: seq<(int, int)>, instants: seq<int>, from: int, i: nat, j: nat)
    requires Spaced(c, s) && |instants| == |s|
    requires forall k | 0 <= k < |s| :: s[k].0 <= instants[k] <= s[k].1
    requires i in InWindow(instants, from, c.window) && j in InWindow(instants, from, c.window)
    ensures j < i + c.max
  {
    var a, b := s[i].1, s[j].0;
  }

  /**
   The limiter's promise: whatever instant between its two clock readings is
   taken for each success, no half-open interval of the window's length holds
   more than max successes of a take-only key.
   */
  lemma AtMostMaxPerWindow<T>(c: Config, ops: seq<Op<T>>, key: T, instants: seq<int>, from: int)
    requires Clocked(ops) && TakeOnly(ops, key)
    requires |instants| == |Successes(c, ops, key)|
    requires forall i | 0 <= i < |instants| :: Successes(c, ops, key)[i].0 <= instants[i] <= Successes(c, ops, key)[i].1
    ensures |InWindow(instants, from, c.window)| <= c.max
  {
    SuccessesSpaced(c, ops, key);
    InWindowAtMost(c, Successes(c, ops, key), instants, from);
  }

  lemma InWindowAtMost(c: Config, s: seq<(int, int)>, instants: seq<int>, from: int)
    requires Spaced(c, s) && |instants| == |s|
    requires forall k | 0 <= k < |s| :: s[k].0 <= instants[k] <= s[k].1
    ensures |InWindow(instants, from, c.window)| <= c.max
  {
    var inside := InWindow(instants, from, c.window);
    var first: nat := 0;
    while first < |instants| && first !in inside
      invariant 0 <= first <= |instants|
      invariant forall i | i in inside :: i >= first
    {
      first := first + 1;
    }
    forall i | i in inside
      ensures first <= i < first + c.max
    {
      SpacedFits(c, s, instants, from, first, i);
    }
    ConsecutiveSize(inside, first, c.max);
  }
}
