/**
 The migration runner: under an advisory lock, read the recorded versions, then
 apply and record each new file in one transaction. Processes may crash anywhere.
 */
module Migrations {
  import opened Wrappers

  /** A file in name order; version is the leading number of its name, if it has one. */
  datatype File = File(name: string, version: Option<int>, body: string)

  datatype Row = Row(version: int, name: string, body: string)

  /** What SQL means: the schema before any migration, and what a body does to a schema (None: it fails). */
  datatype Engine<!S> = Engine(init: S, exec: (S, string) -> Option<S>)

  /** The schema and the rows of schema_migrations in commit order. */
  datatype Database<S> = Database(schema: S, rows: seq<Row>)

  datatype Error = BadName | Modified | ApplyFailed | RecordFailed

  datatype Outcome = Done | Failed(error: Error) | Crashed

  /** The body recorded for a version. */
  function Lookup(rows: seq<Row>, version: int): Option<string> {
    if rows == [] then None
    else if rows[|rows| - 1].version == version then Some(rows[|rows| - 1].body)
    else Lookup(rows[..|rows| - 1], version)
  }

  /** The schema reached by running the recorded bodies in commit order. */
  function Fold<S>(e: Engine<S>, rows: seq<Row>): Option<S> {
    if rows == [] then Some(e.init)
    else match Fold(e, rows[..|rows| - 1])
      case None => None
      case Some(s) => e.exec(s, rows[|rows| - 1].body)
  }

  predicate DistinctVersions(rows: seq<Row>) {
    forall i, j | 0 <= i < j < |rows| :: rows[i].version != rows[j].version
  }

  ghost predicate Consistent<S>(e: Engine<S>, db: Database<S>) {
    Fold(e, db.rows) == Some(db.schema) && DistinctVersions(db.rows)
  }

  datatype FileResult<S> = Skip | Reject(error: Error) | Commit(db: Database<S>)

  /** One file against the rows read at the start; the insert still meets the primary key. */
  function ApplyFile<S>(e: Engine<S>, db: Database<S>, applied: seq<Row>, f: File): FileResult<S> {
    match f.version
    case None => Reject(BadName)
    case Some(v) =>
      match Lookup(applied, v)
      case Some(stored) => if stored != f.body then Reject(Modified) else Skip
      case None =>
        match e.exec(db.schema, f.body)
        case None => Reject(ApplyFailed)
        case Some(next) =>
          if Lookup(db.rows, v).Some? then Reject(RecordFailed)
          else Commit(Database(next, db.rows + [Row(v, f.name, f.body)]))
  }

  /** A whole uninterrupted pass over the files. */
  function Walk<S>(e: Engine<S>, db: Database<S>, applied: seq<Row>, files: seq<File>): (Database<S>, Outcome)
    decreases |files|
  {
    if files == [] then (db, Done)
    else match ApplyFile(e, db, applied, files[0])
      case Skip => Walk(e, db, applied, files[1..])
      case Reject(err) => (db, Failed(err))
      case Commit(next) => Walk(e, next, applied, files[1..])
  }

  function CleanRun<S>(e: Engine<S>, db: Database<S>, files: seq<File>): (Database<S>, Outcome) {
    Walk(e, db, db.rows, files)
  }

  class Store<S> {
    var schema: S
    var rows: seq<Row>

    constructor (schema: S)
      ensures this.schema == schema && rows == []
    {
      this.schema := schema;
      rows := [];
    }

    function Db(): Database<S>
      reads this
    {
      Database(schema, rows)
    }

    /** Migrate under the lock; the process dies before file number crashAt, if there is one. */
    method Migrate(e: Engine<S>, files: seq<File>, crashAt: nat) returns (outcome: Outcome)
      modifies this
      ensures |files| <= crashAt ==> (Db(), outcome) == CleanRun(e, old(Db()), files)
      ensures crashAt < |files| ==>
        var cut := CleanRun(e, old(Db()), files[..crashAt]);
        Db() == cut.0 && outcome == if cut.1.Done? then Crashed else cut.1
    {
      var applied: map<int, string> := map[];
      ghost var read := rows;
      for i := 0 to |rows|
        invariant rows == read
        invariant forall v :: v in applied <==> Lookup(read[..i], v).Some?
        invariant forall v | v in applied :: applied[v] == Lookup(read[..i], v).value
      {
        assert read[..i + 1][..i] == read[..i];
        applied := applied[rows[i].version := rows[i].body];
      }
      assert read[..|read|] == read;
      var upTo := if crashAt < |files| then files[..crashAt] else files;
      for i := 0 to |upTo|
        invariant Walk(e, Db(), read, upTo[i..]) == CleanRun(e, old(Db()), upTo)
      {
        var f := upTo[i];
        assert upTo[i..][1..] == upTo[i + 1..];
        if f.version == None {
          return Failed(BadName);
        }
        var v := f.version.value;
        if v in applied {
          if applied[v] != f.body {
            return Failed(Modified);
          }
        } else {
          // begin; both statements of the transaction take effect together at commit
          var next := e.exec(schema, f.body);
          if next == None {
            return Failed(ApplyFailed);
          }
          if Lookup(rows, v).Some? {
            return Failed(RecordFailed);
          }
          schema, rows := next.value, rows + [Row(v, f.name, f.body)];
        }
      }
      outcome := if crashAt < |files| then Crashed else Done;
    }
  }

  // ---- many processes

  /** A process holding the lock; read is what it saw in schema_migrations, once it looked. */
  datatype Holder = Holder(files: seq<File>, read: Option<seq<Row>>, next: nat)

  datatype State<S> = State(db: Database<S>, lock: Option<Holder>, finished: seq<(seq<File>, Outcome)>)

  datatype Action = Acquire(files: seq<File>) | Read | Work | Finish | Crash

  function Next<S>(e: Engine<S>, s: State<S>, a: Action): State<S> {
    match a
    case Acquire(files) => if s.lock.Some? then s else s.(lock := Some(Holder(files, None, 0)))
    case Read => if s.lock.None? || s.lock.value.read.Some? then s else s.(lock := Some(s.lock.value.(read := Some(s.db.rows))))
    case Work =>
      if s.lock.None? || s.lock.value.read.None? || s.lock.value.next >= |s.lock.value.files| then s
      else
        var h := s.lock.value;
        (match ApplyFile(e, s.db, h.read.value, h.files[h.next])
         case Skip => s.(lock := Some(h.(next := h.next + 1)))
         case Reject(err) => State(s.db, None, s.finished + [(h.files, Failed(err))])
         case Commit(db) => State(db, Some(h.(next := h.next + 1)), s.finished))
    case Finish =>
      if s.lock.None? || s.lock.value.read.None? || s.lock.value.next < |s.lock.value.files| then s
      else State(s.db, None, s.finished + [(s.lock.value.files, Done)])
    case Crash => if s.lock.None? then s else State(s.db, None, s.finished + [(s.lock.value.files, Crashed)])
  }

  ghost function After<S>(e: Engine<S>, db: Database<S>, run: seq<Action>): State<S> {
    if run == [] then State(db, None, []) else Next(e, After(e, db, run[..|run| - 1]), run[|run| - 1])
  }

  lemma {:induction false} LookupFinds(rows: seq<Row>, i: nat)
    requires i < |rows|
    ensures Lookup(rows, rows[i].version).Some?
  {
    var last := |rows| - 1;
    if i < last {
      LookupFinds(rows[..last], i);
    }
  }

  lemma {:induction false} LookupSound(rows: seq<Row>, version: int) returns (i: nat)
    requires Lookup(rows, version).Some?
    ensures i < |rows| && rows[i].version == version && rows[i].body == Lookup(rows, version).value
  {
    var last := |rows| - 1;
    if rows[last].version == version {
      i := last;
    } else {
      i := LookupSound(rows[..last], version);
    }
  }

  lemma CommitConsistent<S>(e: Engine<S>, db: Database<S>, applied: seq<Row>, f: File)
    requires Consistent(e, db)
    ensures var r := ApplyFile(e, db, applied, f); r.Commit? ==> Consistent(e, r.db) && r.db.rows[..|db.rows|] == db.rows
  {
    var r := ApplyFile(e, db, applied, f);
    if r.Commit? {
      assert r.db.rows[..|db.rows|] == db.rows;
      forall i | 0 <= i < |db.rows| ensures db.rows[i].version != f.version.value {
        LookupFinds(db.rows, i);
      }
    }
  }

  /**
   Whatever the processes, their files and their crashes: the schema is the fold of
   the recorded bodies in commit order, no version is recorded twice, and no record is lost.
   */
  lemma {:induction false} SchemaIsFoldOfRecords<S>(e: Engine<S>, db: Database<S>, run: seq<Action>)
    requires Consistent(e, db)
    ensures Consistent(e, After(e, db, run).db)
    ensures db.rows <= After(e, db, run).db.rows
  {
    if run != [] {
      var before := run[..|run| - 1];
      SchemaIsFoldOfRecords(e, db, before);
      var s := After(e, db, before);
      if s.lock.Some? && s.lock.value.read.Some? && s.lock.value.next < |s.lock.value.files| {
        CommitConsistent(e, s.db, s.lock.value.read.value, s.lock.value.files[s.lock.value.next]);
      }
    }
  }

  // ---- the lock keeps what the holder read current

  ghost predicate VersionAmong(files: seq<File>, version: int) {
    exists i | 0 <= i < |files| :: files[i].version == Some(version)
  }

  /** Every row beyond those read was committed by the holder itself. */
  ghost predicate ReadIsCurrent(rows: seq<Row>, h: Holder) {
    && h.next <= |h.files|
    && (h.read.Some? ==> h.read.value <= rows)
    && (h.read.Some? ==> forall k | |h.read.value| <= k < |rows| :: VersionAmong(h.files[..h.next], rows[k].version))
  }

  lemma {:induction false} LockKeepsReadCurrent<S>(e: Engine<S>, db: Database<S>, run: seq<Action>)
    ensures var s := After(e, db, run); s.lock.Some? ==> ReadIsCurrent(s.db.rows, s.lock.value)
  {
    if run != [] {
      var before := run[..|run| - 1];
      LockKeepsReadCurrent(e, db, before);
      var s, t := After(e, db, before), After(e, db, run);
      if t.lock.Some? && s.lock.Some? && run[|run| - 1] == Work {
        ReadStaysCurrent(e, s);
      }
    }
  }

  lemma ReadStaysCurrent<S>(e: Engine<S>, s: State<S>)
    requires s.lock.Some? && ReadIsCurrent(s.db.rows, s.lock.value)
    ensures var t := Next(e, s, Work); t.lock.Some? ==> ReadIsCurrent(t.db.rows, t.lock.value)
  {
    var h, t := s.lock.value, Next(e, s, Work);
    if t.lock.Some? && t.lock.value.next > h.next {
      var done := h.files[..h.next + 1];
      forall k | |h.read.value| <= k < |t.db.rows| ensures VersionAmong(done, t.db.rows[k].version) {
        if k < |s.db.rows| {
          assert t.db.rows[k] == s.db.rows[k];
          var i :| 0 <= i < h.next && h.files[..h.next][i].version == Some(s.db.rows[k].version);
          assert done[i].version == Some(s.db.rows[k].version);
        } else {
          assert done[h.next].version == Some(t.db.rows[k].version);
        }
      }
    }
  }

  lemma {:induction false} LookupInPrefix(rows: seq<Row>, more: seq<Row>, version: int)
    requires rows <= more
    requires forall k | |rows| <= k < |more| :: more[k].version != version
    ensures Lookup(more, version) == Lookup(rows, version)
    decreases |more|
  {
    if |more| > |rows| {
      LookupInPrefix(rows, more[..|more| - 1], version);
    } else {
      assert rows == more;
    }
  }

  // ---- one set of files: interrupted runs add up to one clean run

  predicate ProperFiles(files: seq<File>) {
    && (forall i | 0 <= i < |files| :: files[i].version.Some?)
    && (forall i, j | 0 <= i < j < |files| :: files[i].version != files[j].version)
  }

  /** The rows the files lack in a database, in file order. */
  function Missing(files: seq<File>, rows: seq<Row>): seq<Row>
    requires forall i | 0 <= i < |files| :: files[i].version.Some?
  {
    if files == [] then []
    else
      var before, f := Missing(files[..|files| - 1], rows), files[|files| - 1];
      if Lookup(rows, f.version.value).Some? then before else before + [Row(f.version.value, f.name, f.body)]
  }

  /** The database after the first m files have been dealt with. */
  function Caught(files: seq<File>, rows: seq<Row>, m: nat): seq<Row>
    requires ProperFiles(files) && m <= |files|
  {
    rows + Missing(files[..m], rows)
  }

  lemma CaughtNext(files: seq<File>, rows: seq<Row>, m: nat)
    requires ProperFiles(files) && m < |files|
    ensures var f := files[m];
      Caught(files, rows, m + 1) == if Lookup(rows, f.version.value).Some? then Caught(files, rows, m)
        else Caught(files, rows, m) + [Row(f.version.value, f.name, f.body)]
  {
    assert files[..m + 1][..m] == files[..m];
  }

  /** After m files, exactly the original versions and those of the first m files are recorded. */
  lemma {:induction false} CaughtLookup(files: seq<File>, rows: seq<Row>, m: nat, i: nat)
    requires ProperFiles(files) && m <= |files| && i < |files|
    ensures var v := files[i].version.value;
      i >= m ==> Lookup(Caught(files, rows, m), v) == Lookup(rows, v)
    ensures var v := files[i].version.value;
      i < m ==> Lookup(Caught(files, rows, m), v) == (if Lookup(rows, v).Some? then Lookup(rows, v) else Some(files[i].body))
  {
    if m == 0 {
      assert Caught(files, rows, 0) == rows;
    } else {
      CaughtNext(files, rows, m - 1);
      CaughtLookup(files, rows, m - 1, i);
      var c, f := Caught(files, rows, m - 1), files[m - 1];
      if Lookup(rows, f.version.value).None? {
        var r := Row(f.version.value, f.name, f.body);
        assert (c + [r])[..|c|] == c;
      }
    }
  }

  /** How far the database has come: all of the first m files, with the holder not ahead of that. */
  ghost predicate CaughtUp<S>(s: State<S>, files: seq<File>, rows: seq<Row>, m: nat)
    requires ProperFiles(files)
  {
    && m <= |files| && s.db.rows == Caught(files, rows, m)
    && (s.lock.Some? ==> s.lock.value.files == files && s.lock.value.next <= m)
  }

  /** The files the holder has passed are recorded with the bodies they have now. */
  ghost predicate PassedMatch(rows: seq<Row>, files: seq<File>, n: nat) {
    n <= |files| && forall i | 0 <= i < n :: files[i].version.Some? && Lookup(rows, files[i].version.value) == Some(files[i].body)
  }

  ghost predicate OnlyFiles(run: seq<Action>, files: seq<File>) {
    forall i | 0 <= i < |run| && run[i].Acquire? :: run[i].files == files
  }

  lemma {:induction false} WorkCatchesUp<S>(e: Engine<S>, s: State<S>, files: seq<File>, rows: seq<Row>, m: nat) returns (n: nat)
    requires ProperFiles(files) && CaughtUp(s, files, rows, m)
    requires s.lock.Some? && ReadIsCurrent(s.db.rows, s.lock.value) && PassedMatch(s.db.rows, files, s.lock.value.next)
    ensures var t := Next(e, s, Work);
      m <= n && CaughtUp(t, files, rows, n) && (t.lock.Some? ==> PassedMatch(t.db.rows, files, t.lock.value.next))
  {
    var h, t := s.lock.value, Next(e, s, Work);
    n := m;
    if t.lock.Some? && t.lock.value.next > h.next {
      var f, i := files[h.next], h.next;
      var v := f.version.value;
      assert Lookup(s.db.rows, v) == Lookup(h.read.value, v) by {
        assert forall k | 0 <= k < i :: files[..i][k] == files[k];
        LookupInPrefix(h.read.value, s.db.rows, v);
      }
      CaughtLookup(files, rows, m, i);
      if m == i {
        CaughtNext(files, rows, i);
        n := i + 1;
      }
      forall j | 0 <= j < i + 1 ensures Lookup(t.db.rows, files[j].version.value) == Some(files[j].body) {
        if t.db.rows != s.db.rows {
          assert t.db.rows[..|s.db.rows|] == s.db.rows;
        }
      }
    }
  }

  /** A process that ended well has seen every file through. */
  ghost predicate DoneMeansAll<S>(s: State<S>, files: seq<File>, m: nat) {
    forall i | 0 <= i < |s.finished| && s.finished[i].1.Done? :: m == |files| && PassedMatch(s.db.rows, files, |files|)
  }

  ghost predicate Progress<S>(s: State<S>, files: seq<File>, rows: seq<Row>, m: nat)
    requires ProperFiles(files)
  {
    && CaughtUp(s, files, rows, m)
    && (s.lock.Some? ==> PassedMatch(s.db.rows, files, s.lock.value.next))
    && DoneMeansAll(s, files, m)
  }

  lemma WorkProgress<S>(e: Engine<S>, s: State<S>, files: seq<File>, rows: seq<Row>, m: nat) returns (n: nat)
    requires ProperFiles(files) && Progress(s, files, rows, m)
    requires s.lock.Some? && ReadIsCurrent(s.db.rows, s.lock.value)
    ensures Progress(Next(e, s, Work), files, rows, n)
  {
    n := WorkCatchesUp(e, s, files, rows, m);
    var t := Next(e, s, Work);
    assert forall i | 0 <= i < |t.finished| && t.finished[i].1.Done? :: i < |s.finished| && t.finished[i] == s.finished[i];
  }

  lemma OtherProgress<S>(e: Engine<S>, s: State<S>, a: Action, files: seq<File>, rows: seq<Row>, m: nat)
    requires ProperFiles(files) && Progress(s, files, rows, m)
    requires a != Work && (a.Acquire? ==> a.files == files)
    ensures Progress(Next(e, s, a), files, rows, m)
  {
    var t := Next(e, s, a);
    assert forall i | 0 <= i < |t.finished| && t.finished[i].1.Done? && i < |s.finished| :: t.finished[i] == s.finished[i];
  }

  lemma {:induction false} EveryRunProgresses<S>(e: Engine<S>, db: Database<S>, run: seq<Action>, files: seq<File>) returns (m: nat)
    requires ProperFiles(files) && OnlyFiles(run, files)
    ensures Progress(After(e, db, run), files, db.rows, m)
  {
    if run == [] {
      m := 0;
      assert Caught(files, db.rows, 0) == db.rows;
    } else {
      var before, a := run[..|run| - 1], run[|run| - 1];
      m := EveryRunProgresses(e, db, before, files);
      LockKeepsReadCurrent(e, db, before);
      var s := After(e, db, before);
      if a == Work && s.lock.Some? {
        m := WorkProgress(e, s, files, db.rows, m);
      } else if a != Work {
        OtherProgress(e, s, a, files, db.rows, m);
      }
    }
  }

  /** Walking on from the first m files when every file fits reaches the end. */
  lemma {:induction false} WalkCompletes<S>(e: Engine<S>, db: Database<S>, files: seq<File>, rows: seq<Row>, m: nat)
    requires ProperFiles(files) && m <= |files|
    requires db.rows == Caught(files, rows, m) && Fold(e, db.rows) == Some(db.schema)
    requires Fold(e, Caught(files, rows, |files|)).Some?
    requires PassedMatch(Caught(files, rows, |files|), files, |files|)
    ensures Walk(e, db, rows, files[m..]) == (Database(Fold(e, Caught(files, rows, |files|)).value, Caught(files, rows, |files|)), Done)
    decreases |files| - m
  {
    if m < |files| {
      var f := files[m];
      var v := f.version.value;
      assert files[m..][1..] == files[m + 1..];
      CaughtLookup(files, rows, |files|, m);
      CaughtLookup(files, rows, m, m);
      CaughtNext(files, rows, m);
      var next := Caught(files, rows, m + 1);
      CaughtGrows(files, rows, m + 1, |files|);
      FoldPrefix(e, next, Caught(files, rows, |files|));
      if Lookup(rows, v).None? {
        assert next[..|next| - 1] == db.rows;
      }
      WalkCompletes(e, Database(Fold(e, next).value, next), files, rows, m + 1);
    }
  }

  lemma {:induction false} CaughtGrows(files: seq<File>, rows: seq<Row>, m: nat, n: nat)
    requires ProperFiles(files) && m <= n <= |files|
    ensures Caught(files, rows, m) <= Caught(files, rows, n)
    decreases n
  {
    if m < n {
      CaughtGrows(files, rows, m, n - 1);
      CaughtNext(files, rows, n - 1);
    }
  }

  lemma {:induction false} FoldPrefix<S>(e: Engine<S>, rows: seq<Row>, more: seq<Row>)
    requires rows <= more && Fold(e, more).Some?
    ensures Fold(e, rows).Some?
    decreases |more|
  {
    if |rows| < |more| {
      FoldPrefix(e, rows, more[..|more| - 1]);
    } else {
      assert rows == more;
    }
  }

  /**
   However often the runs before it crashed or failed half way, once some process
   with these files ends successfully the database is the one a single clean run makes.
   */
  lemma InterruptedRunsEqualOneCleanRun<S>(e: Engine<S>, db: Database<S>, run: seq<Action>, files: seq<File>, p: nat)
    requires Consistent(e, db) && ProperFiles(files) && OnlyFiles(run, files)
    requires var s := After(e, db, run); p < |s.finished| && s.finished[p].1.Done?
    ensures CleanRun(e, db, files) == (After(e, db, run).db, Done)
  {
    var s := After(e, db, run);
    var m := EveryRunProgresses(e, db, run, files);
    SchemaIsFoldOfRecords(e, db, run);
    assert s.finished[p].1.Done?;
    assert Caught(files, db.rows, 0) == db.rows;
    WalkCompletes(e, db, files, db.rows, 0);
    assert files[0..] == files;
  }

  // ---- what a pass leaves behind

  /** The file has a version, and a row with that version and the file's body exists. */
  ghost predicate HasRow(rows: seq<Row>, f: File) {
    f.version.Some? && exists k :: 0 <= k < |rows| && rows[k].version == f.version.value && rows[k].body == f.body
  }

  /** The row says what one of the files says. */
  ghost predicate RowOfFile(r: Row, files: seq<File>) {
    exists i :: 0 <= i < |files| && files[i].version == Some(r.version) && files[i].name == r.name && files[i].body == r.body
  }

  lemma HasRowLater(rows: seq<Row>, more: seq<Row>, f: File)
    requires HasRow(rows, f) && rows <= more
    ensures HasRow(more, f)
  {
    var k :| 0 <= k < |rows| && rows[k].version == f.version.value && rows[k].body == f.body;
    assert more[k] == rows[k];
  }

  lemma DealtWith<S>(e: Engine<S>, db: Database<S>, applied: seq<Row>, f: File)
    requires applied <= db.rows
    ensures ApplyFile(e, db, applied, f).Skip? ==> HasRow(db.rows, f)
    ensures ApplyFile(e, db, applied, f).Commit? ==>
      db.rows <= ApplyFile(e, db, applied, f).db.rows && HasRow(ApplyFile(e, db, applied, f).db.rows, f)
  {
    match ApplyFile(e, db, applied, f) {
      case Skip =>
        var k := LookupSound(applied, f.version.value);
        assert db.rows[k] == applied[k];
      case Commit(next) =>
        assert next.rows[|db.rows|].version == f.version.value;
      case Reject(_) =>
    }
  }

  /** After a pass that ends well every file is recorded as it stands. */
  lemma {:induction false} DoneRecordsAll<S>(e: Engine<S>, db: Database<S>, applied: seq<Row>, files: seq<File>, i: nat)
    requires applied <= db.rows && i < |files| && Walk(e, db, applied, files).1.Done?
    ensures HasRow(Walk(e, db, applied, files).0.rows, files[i])
    decreases i
  {
    DealtWith(e, db, applied, files[0]);
    var r := ApplyFile(e, db, applied, files[0]);
    var next := if r.Commit? then r.db else db;
    if i > 0 {
      DoneRecordsAll(e, next, applied, files[1..], i - 1);
    } else {
      WalkKeepsRows(e, next, applied, files[1..]);
      HasRowLater(next.rows, Walk(e, db, applied, files).0.rows, files[0]);
    }
  }

  /** However a pass ends, the rows it adds are those of files. */
  lemma {:induction false} AddedRowsAreFiles<S>(e: Engine<S>, db: Database<S>, applied: seq<Row>, files: seq<File>, k: nat)
    requires |db.rows| <= k < |Walk(e, db, applied, files).0.rows|
    ensures RowOfFile(Walk(e, db, applied, files).0.rows[k], files)
    decreases |files|
  {
    var rows := Walk(e, db, applied, files).0.rows;
    var r := ApplyFile(e, db, applied, files[0]);
    var next := if r.Commit? then r.db else db;
    WalkKeepsRows(e, next, applied, files[1..]);
    if k < |next.rows| {
      assert rows[k] == next.rows[k];
      assert files[0].version == Some(rows[k].version);
    } else {
      AddedRowsAreFiles(e, next, applied, files[1..], k);
      var i :| 0 <= i < |files[1..]| && files[1..][i].version == Some(rows[k].version)
        && files[1..][i].name == rows[k].name && files[1..][i].body == rows[k].body;
      assert files[i + 1] == files[1..][i];
    }
  }

  /** The version was not there when the rows were read, but is now. */
  predicate RecordedMeanwhile(rows: seq<Row>, applied: seq<Row>, f: File) {
    f.version.Some? && Lookup(applied, f.version.value).None? && Lookup(rows, f.version.value).Some?
  }

  /** Every failure has its reason: a name without a version, an edit, a body that fails on the schema reached, or a version used twice. */
  ghost predicate HasReason<S>(e: Engine<S>, after: Database<S>, applied: seq<Row>, files: seq<File>, error: Error) {
    match error
    case BadName => exists i :: 0 <= i < |files| && files[i].version.None?
    case Modified => exists i :: 0 <= i < |files| && Edited(applied, files[i])
    case ApplyFailed => exists i :: 0 <= i < |files| && e.exec(after.schema, files[i].body).None?
    case RecordFailed => exists i :: 0 <= i < |files| && RecordedMeanwhile(after.rows, applied, files[i])
  }

  lemma ReasonLater<S>(e: Engine<S>, after: Database<S>, applied: seq<Row>, files: seq<File>, error: Error)
    requires files != [] && HasReason(e, after, applied, files[1..], error)
    ensures HasReason(e, after, applied, files, error)
  {
    assert forall i | 0 <= i < |files[1..]| :: files[1..][i] == files[i + 1];
  }

  lemma {:induction false} FailuresHaveReasons<S>(e: Engine<S>, db: Database<S>, applied: seq<Row>, files: seq<File>)
    requires Walk(e, db, applied, files).1.Failed?
    ensures HasReason(e, Walk(e, db, applied, files).0, applied, files, Walk(e, db, applied, files).1.error)
    decreases |files|
  {
    match ApplyFile(e, db, applied, files[0]) {
      case Skip =>
        FailuresHaveReasons(e, db, applied, files[1..]);
        ReasonLater(e, Walk(e, db, applied, files).0, applied, files, Walk(e, db, applied, files).1.error);
      case Commit(next) =>
        FailuresHaveReasons(e, next, applied, files[1..]);
        ReasonLater(e, Walk(e, db, applied, files).0, applied, files, Walk(e, db, applied, files).1.error);
      case Reject(_) =>
        assert files[0] in files;
    }
  }

  // ---- edited files

  predicate Edited(rows: seq<Row>, f: File) {
    f.version.Some? && Lookup(rows, f.version.value).Some? && Lookup(rows, f.version.value).value != f.body
  }

  predicate Recorded(rows: seq<Row>, f: File) {
    f.version.Some? && Lookup(rows, f.version.value) == Some(f.body)
  }

  lemma {:induction false} WalkRejectsEdited<S>(e: Engine<S>, db: Database<S>, applied: seq<Row>, files: seq<File>, k: nat)
    requires k < |files| && Edited(applied, files[k])
    ensures Walk(e, db, applied, files).1.Failed?
    decreases k
  {
    if k > 0 {
      match ApplyFile(e, db, applied, files[0])
      case Skip => WalkRejectsEdited(e, db, applied, files[1..], k - 1);
      case Commit(next) => WalkRejectsEdited(e, next, applied, files[1..], k - 1);
      case Reject(_) =>
    }
  }

  lemma {:induction false} WalkKeepsRows<S>(e: Engine<S>, db: Database<S>, applied: seq<Row>, files: seq<File>)
    ensures db.rows <= Walk(e, db, applied, files).0.rows
    decreases |files|
  {
    if files != [] {
      match ApplyFile(e, db, applied, files[0])
      case Skip => WalkKeepsRows(e, db, applied, files[1..]);
      case Commit(next) => WalkKeepsRows(e, next, applied, files[1..]);
      case Reject(_) =>
    }
  }

  /** The first file that is not simply skipped decides: the pass commits something exactly when that file commits. */
  lemma {:induction false} FirstNewFileDecides<S>(e: Engine<S>, db: Database<S>, applied: seq<Row>, files: seq<File>, k: nat)
    requires k < |files| && (forall i | 0 <= i < k :: Recorded(applied, files[i])) && !Recorded(applied, files[k])
    ensures var r := Walk(e, db, applied, files);
      (r.0.rows == db.rows <==> !ApplyFile(e, db, applied, files[k]).Commit?)
    ensures ApplyFile(e, db, applied, files[k]).Reject? ==>
      Walk(e, db, applied, files) == (db, Failed(ApplyFile(e, db, applied, files[k]).error))
  {
    if k > 0 {
      assert Recorded(applied, files[0]);
      FirstNewFileDecides(e, db, applied, files[1..], k - 1);
    } else {
      var r := ApplyFile(e, db, applied, files[0]);
      if r.Commit? {
        WalkKeepsRows(e, r.db, applied, files[1..]);
      }
    }
  }

  /**
   An applied file that was edited always makes Migrate fail. When the files before
   it are all recorded, the failure names the edit and nothing is applied.
   */
  lemma EditedFileStopsMigrate<S>(e: Engine<S>, db: Database<S>, files: seq<File>, k: nat)
    requires k < |files| && Edited(db.rows, files[k])
    ensures CleanRun(e, db, files).1.Failed?
    ensures (forall i | 0 <= i < k :: Recorded(db.rows, files[i])) ==> CleanRun(e, db, files) == (db, Failed(Modified))
  {
    WalkRejectsEdited(e, db, db.rows, files, k);
    if forall i | 0 <= i < k :: Recorded(db.rows, files[i]) {
      FirstNewFileDecides(e, db, db.rows, files, k);
    }
  }

  /**
   Exactly when a failing Migrate leaves the database alone: j being the first file that
   is not recorded as it stands, when that file is edited, misnamed, or fails to run.
   */
  lemma EditedFileAppliesNothingIff<S>(e: Engine<S>, db: Database<S>, files: seq<File>, k: nat, j: nat)
    requires k < |files| && Edited(db.rows, files[k])
    requires j <= k && (forall i | 0 <= i < j :: Recorded(db.rows, files[i])) && !Recorded(db.rows, files[j])
    ensures CleanRun(e, db, files).0.rows == db.rows
      <==> files[j].version.None? || Edited(db.rows, files[j]) || e.exec(db.schema, files[j].body).None?
  {
    FirstNewFileDecides(e, db, db.rows, files, j);
  }
}
