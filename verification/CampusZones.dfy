/** The in-memory index of campus time zones, kept current by syncs and rebuilt when the store opens. */
module CampusZones {
  import opened Wrappers
  import opened Rows
  import opened StoreRuns

  type Zones = map<string, string>

  datatype Report = Report(campus: string, zone: string)

  /** The campus and zone a snapshot's profile carries, when it carries both. */
  function Reported(data: Data): Option<Report> {
    if "me" !in data || !data["me"].Profile? || data["me"].campus == "" || data["me"].zone == "" then None
    else Some(Report(data["me"].campus, data["me"].zone))
  }

  function Note(zones: Zones, data: Data): Zones {
    match Reported(data)
    case None => zones
    case Some(r) => zones[r.campus := r.zone]
  }

  function ZonesNext(zones: Zones, accounts: Accounts, op: Op): Zones {
    match op
    case CreateAccount(_, _, email, ftId, ftLogin, data) => if Taken(accounts, email, ftId, ftLogin) then zones else Note(zones, data)
    case UpdateSnapshot(_, _, data) => Note(zones, data)
    case _ => zones
  }

  /** The snapshot's profile names this campus and this zone, both not blank. */
  predicate Carries(data: Data, campus: string, zone: string) {
    "me" in data && data["me"].Profile? && data["me"].campus == campus != "" && data["me"].zone == zone != ""
  }

  /** A sync, or a sign-up that succeeds, sets the zone of the campus it reports; nothing else changes the index. */
  lemma IndexFollowsSyncs(zones: Zones, accounts: Accounts, op: Op, campus: string, zone: string)
    ensures op.UpdateSnapshot? && Carries(op.data, campus, zone) ==> ZonesNext(zones, accounts, op) == zones[campus := zone]
    ensures op.CreateAccount? && Carries(op.data, campus, zone) && !Taken(accounts, op.email, op.ftId, op.ftLogin) ==>
      ZonesNext(zones, accounts, op) == zones[campus := zone]
    ensures op.CreateAccount? && Taken(accounts, op.email, op.ftId, op.ftLogin) ==> ZonesNext(zones, accounts, op) == zones
    ensures !op.CreateAccount? && !op.UpdateSnapshot? ==> ZonesNext(zones, accounts, op) == zones
    ensures op.CreateAccount? || op.UpdateSnapshot? ==>
      ZonesNext(zones, accounts, op) == zones || exists c, z :: Carries(op.data, c, z) && ZonesNext(zones, accounts, op) == zones[c := z]
  {
    if (op.CreateAccount? || op.UpdateSnapshot?) && Reported(op.data).Some? {
      assert Carries(op.data, op.data["me"].campus, op.data["me"].zone);
    }
  }

  /** The newest account that reports the campus decides its zone. */
  ghost predicate Newest(accounts: Accounts, campus: string, id: nat) {
    && id in accounts && Reported(accounts[id].data).Some? && Reported(accounts[id].data).value.campus == campus
    && forall j | j in accounts && Reported(accounts[j].data).Some? && Reported(accounts[j].data).value.campus == campus ::
         accounts[j].fetchedAt <= accounts[id].fetchedAt
  }

  /** The accounts seen so far, each campus they report leading to the newest of them that does. */
  ghost predicate Indexed(seen: Accounts, newest: map<string, nat>) {
    && (forall c | c in newest :: Newest(seen, c, newest[c]))
    && (forall id | id in seen && Reported(seen[id].data).Some? :: Reported(seen[id].data).value.campus in newest)
  }

  lemma NewestKept(seen: Accounts, campus: string, best: nat, id: nat, a: Account)
    requires Newest(seen, campus, best) && id !in seen
    requires Reported(a.data).Some? && Reported(a.data).value.campus == campus ==> a.fetchedAt <= seen[best].fetchedAt
    ensures Newest(seen[id := a], campus, best)
  {
  }

  lemma IndexedSame(seen: Accounts, newest: map<string, nat>, id: nat, a: Account)
    requires Indexed(seen, newest) && id !in seen
    requires Reported(a.data).Some? ==>
      Reported(a.data).value.campus in newest && a.fetchedAt <= seen[newest[Reported(a.data).value.campus]].fetchedAt
    ensures Indexed(seen[id := a], newest)
  {
    forall c | c in newest
      ensures Newest(seen[id := a], c, newest[c])
    {
      NewestKept(seen, c, newest[c], id, a);
    }
  }

  lemma IndexedNewer(seen: Accounts, newest: map<string, nat>, id: nat, a: Account, campus: string)
    requires Indexed(seen, newest) && id !in seen && Reported(a.data).Some? && Reported(a.data).value.campus == campus
    requires campus in newest ==> seen[newest[campus]].fetchedAt < a.fetchedAt
    ensures Indexed(seen[id := a], newest[campus := id])
  {
    forall c | c in newest && c != campus
      ensures Newest(seen[id := a], c, newest[c])
    {
      NewestKept(seen, c, newest[c], id, a);
    }
  }

  ghost predicate IsRebuild(accounts: Accounts, zones: Zones) {
    && (forall id | id in accounts && Reported(accounts[id].data).Some? :: Reported(accounts[id].data).value.campus in zones)
    && (forall c | c in zones :: exists id :: Newest(accounts, c, id) && zones[c] == Reported(accounts[id].data).value.zone)
  }

  /** Some account carries the pair, and none that names the campus was fetched later. */
  ghost predicate LatestTold(accounts: Accounts, campus: string, zone: string) {
    exists id :: id in accounts && Carries(accounts[id].data, campus, zone) && NoneLater(accounts, campus, accounts[id].fetchedAt)
  }

  ghost predicate NoneLater(accounts: Accounts, campus: string, time: int) {
    forall j, z | j in accounts && Carries(accounts[j].data, campus, z) :: accounts[j].fetchedAt <= time
  }

  /** A rebuild knows exactly the campuses some profile names with a zone, each with the zone told last. */
  lemma RebuildTells(accounts: Accounts, zones: Zones, campus: string)
    requires IsRebuild(accounts, zones)
    ensures campus in zones <==> exists id, z :: id in accounts && Carries(accounts[id].data, campus, z)
    ensures campus in zones ==> LatestTold(accounts, campus, zones[campus])
  {
    if campus in zones {
      var id :| Newest(accounts, campus, id) && zones[campus] == Reported(accounts[id].data).value.zone;
      assert Carries(accounts[id].data, campus, zones[campus]);
    }
  }

  method LoadCampusZones(accounts: Accounts) returns (zones: Zones)
    ensures IsRebuild(accounts, zones)
  {
    var newest: map<string, nat> := map[];
    var todo := accounts.Keys;
    ghost var seen: Accounts := map[];
    while todo != {}
      invariant todo <= accounts.Keys
      invariant seen == map id | id in accounts && id !in todo :: accounts[id]
      invariant Indexed(seen, newest)
      decreases todo
    {
      var id :| id in todo;
      var a := accounts[id];
      var reported := Reported(a.data);
      if reported.Some? && (reported.value.campus !in newest || accounts[newest[reported.value.campus]].fetchedAt < a.fetchedAt) {
        IndexedNewer(seen, newest, id, a, reported.value.campus);
        newest := newest[reported.value.campus := id];
      } else {
        IndexedSame(seen, newest, id, a);
      }
      todo, seen := todo - {id}, seen[id := a];
    }
    assert seen == accounts;
    zones := map c | c in newest :: Reported(accounts[newest[c]].data).value.zone;
  }

  // ---- from Open onward

  ghost function AccountsFrom(initial: Accounts, ops: seq<Op>): Accounts {
    if ops == [] then initial else AccountsNext(AccountsFrom(initial, ops[..|ops| - 1]), ops[|ops| - 1])
  }

  ghost function ZonesFrom(initial: Accounts, zones: Zones, ops: seq<Op>): Zones {
    if ops == [] then zones
    else ZonesNext(ZonesFrom(initial, zones, ops[..|ops| - 1]), AccountsFrom(initial, ops[..|ops| - 1]), ops[|ops| - 1])
  }

  ghost predicate Covers(zones: Zones, accounts: Accounts) {
    forall id | id in accounts && Reported(accounts[id].data).Some? :: Reported(accounts[id].data).value.campus in zones
  }

  lemma CoversNext(zones: Zones, accounts: Accounts, op: Op)
    requires Covers(zones, accounts)
    ensures Covers(ZonesNext(zones, accounts, op), AccountsNext(accounts, op))
  {
    if op.CreateAccount? {
      CoversCreate(zones, accounts, op);
    } else if op.UpdateSnapshot? {
      CoversSync(zones, accounts, op);
    } else {
      forall id | id in AccountsNext(accounts, op)
        ensures id in accounts && AccountsNext(accounts, op)[id].data == accounts[id].data
      {
        OtherKeepsData(accounts, op, id);
      }
    }
  }

  lemma CoversCreate(zones: Zones, accounts: Accounts, op: Op)
    requires Covers(zones, accounts) && op.CreateAccount?
    ensures Covers(ZonesNext(zones, accounts, op), AccountsNext(accounts, op))
  {
  }

  lemma CoversSync(zones: Zones, accounts: Accounts, op: Op)
    requires Covers(zones, accounts) && op.UpdateSnapshot?
    ensures Covers(ZonesNext(zones, accounts, op), AccountsNext(accounts, op))
  {
    if op.id in accounts {
      var data := accounts[op.id].data + op.data;
      assert Reported(data) == if "me" in op.data then Reported(op.data) else Reported(accounts[op.id].data);
    }
  }

  /** Only sign-ups and syncs write snapshots. */
  lemma OtherKeepsData(accounts: Accounts, op: Op, id: nat)
    requires !op.CreateAccount? && !op.UpdateSnapshot? && id in AccountsNext(accounts, op)
    ensures id in accounts && AccountsNext(accounts, op)[id].data == accounts[id].data
  {
  }

  /** Every campus a rebuild from the stored accounts would find has an entry in the index. */
  lemma {:induction false} IndexCoversRebuild(initial: Accounts, zones: Zones, ops: seq<Op>)
    requires IsRebuild(initial, zones)
    ensures Covers(ZonesFrom(initial, zones, ops), AccountsFrom(initial, ops))
    ensures forall again | IsRebuild(AccountsFrom(initial, ops), again) :: again.Keys <= ZonesFrom(initial, zones, ops).Keys
  {
    if ops != [] {
      var before := ops[..|ops| - 1];
      IndexCoversRebuild(initial, zones, before);
      CoversNext(ZonesFrom(initial, zones, before), AccountsFrom(initial, before), ops[|ops| - 1]);
    }
  }

  /** Every report names the one zone its campus has. */
  ghost predicate Honest(data: Data, zoneOf: string -> string) {
    Reported(data).Some? ==> Reported(data).value.zone == zoneOf(Reported(data).value.campus)
  }

  ghost predicate HonestOp(op: Op, zoneOf: string -> string) {
    op.CreateAccount? || op.UpdateSnapshot? ==> Honest(op.data, zoneOf)
  }

  ghost predicate HonestState(zones: Zones, accounts: Accounts, zoneOf: string -> string) {
    && (forall c | c in zones :: zones[c] == zoneOf(c))
    && (forall id | id in accounts :: Honest(accounts[id].data, zoneOf))
  }

  lemma HonestData(accounts: Accounts, op: Op, zoneOf: string -> string, id: nat)
    requires HonestOp(op, zoneOf) && id in AccountsNext(accounts, op) && (id in accounts ==> Honest(accounts[id].data, zoneOf))
    ensures Honest(AccountsNext(accounts, op)[id].data, zoneOf)
  {
    if op.UpdateSnapshot? && op.id == id {
      var data := accounts[id].data + op.data;
      assert Reported(data) == if "me" in op.data then Reported(op.data) else Reported(accounts[id].data);
    } else if !op.CreateAccount? && !op.UpdateSnapshot? {
      OtherKeepsData(accounts, op, id);
    }
  }

  lemma HonestNext(zones: Zones, accounts: Accounts, op: Op, zoneOf: string -> string)
    requires HonestState(zones, accounts, zoneOf) && HonestOp(op, zoneOf)
    ensures HonestState(ZonesNext(zones, accounts, op), AccountsNext(accounts, op), zoneOf)
  {
    forall id | id in AccountsNext(accounts, op)
      ensures Honest(AccountsNext(accounts, op)[id].data, zoneOf)
    {
      HonestData(accounts, op, zoneOf, id);
    }
  }

  lemma {:induction false} RunStaysHonest(initial: Accounts, zones: Zones, ops: seq<Op>, zoneOf: string -> string)
    requires HonestState(zones, initial, zoneOf)
    requires forall i | 0 <= i < |ops| :: HonestOp(ops[i], zoneOf)
    ensures HonestState(ZonesFrom(initial, zones, ops), AccountsFrom(initial, ops), zoneOf)
  {
    if ops != [] {
      var before := ops[..|ops| - 1];
      RunStaysHonest(initial, zones, before, zoneOf);
      HonestNext(ZonesFrom(initial, zones, before), AccountsFrom(initial, before), ops[|ops| - 1], zoneOf);
    }
  }

  /** When each campus always reports one zone, the index agrees with a rebuild wherever the rebuild is defined. */
  lemma IndexEqualsRebuild(initial: Accounts, zones: Zones, ops: seq<Op>, again: Zones, zoneOf: string -> string)
    requires IsRebuild(initial, zones) && IsRebuild(AccountsFrom(initial, ops), again)
    requires forall id | id in initial :: Honest(initial[id].data, zoneOf)
    requires forall i | 0 <= i < |ops| :: HonestOp(ops[i], zoneOf)
    ensures forall c | c in again :: c in ZonesFrom(initial, zones, ops) && ZonesFrom(initial, zones, ops)[c] == again[c]
  {
    IndexCoversRebuild(initial, zones, ops);
    forall c | c in zones ensures zones[c] == zoneOf(c) {
      var id :| Newest(initial, c, id) && zones[c] == Reported(initial[id].data).value.zone;
    }
    RunStaysHonest(initial, zones, ops, zoneOf);
    var accounts := AccountsFrom(initial, ops);
    forall c | c in again ensures c in ZonesFrom(initial, zones, ops) && ZonesFrom(initial, zones, ops)[c] == again[c] {
      var id :| Newest(accounts, c, id) && again[c] == Reported(accounts[id].data).value.zone;
    }
  }
}
