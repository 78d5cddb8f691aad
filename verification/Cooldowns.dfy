/** The sync_cooldowns table: for each 42 id the start of its latest data fetch. */
module Cooldowns {
  import opened Wrappers

  type Slots = map<nat, int>

  /** The slot is free when there is no row or the row is at least a cooldown old. */
  predicate Free(slots: Slots, ft: nat, now: int, cooldown: nat) {
    ft in slots ==> slots[ft] <= now - cooldown
  }

  function Reserve(slots: Slots, ft: nat, now: int, cooldown: nat): Slots {
    if Free(slots, ft, now, cooldown) then slots[ft := now] else slots
  }

  function Release(slots: Slots, ft: nat): Slots {
    slots - {ft}
  }

  function Purge(slots: Slots, now: int, olderThan: nat): Slots {
    map ft | ft in slots && slots[ft] >= now - olderThan :: slots[ft]
  }

  datatype Wait = Wait(remaining: int, last: int)

  /** What a look at the row says: how long to wait, and since when. */
  function Remaining(slots: Slots, ft: nat, now: int, cooldown: nat): (w: Option<Wait>)
    ensures w.None? ==> Free(slots, ft, now, cooldown)
    ensures w.Some? ==> !Free(slots, ft, now, cooldown) && 0 < w.value.remaining == w.value.last + cooldown - now
    ensures w.Some? <==> ft in slots && now - slots[ft] < cooldown
    ensures w.Some? ==> w.value.last == slots[ft]
  {
    if ft in slots && slots[ft] + cooldown > now then Some(Wait(slots[ft] + cooldown - now, slots[ft])) else None
  }

  /** Two tables that show the same rows to anyone asking at this time or later. */
  ghost predicate SameFrom(a: Slots, b: Slots, now: int, cooldown: nat) {
    forall ft: nat :: Remaining(a, ft, now, cooldown) == Remaining(b, ft, now, cooldown)
  }

  lemma SameLater(a: Slots, b: Slots, now: int, later: int, cooldown: nat)
    requires SameFrom(a, b, now, cooldown) && now <= later
    ensures SameFrom(a, b, later, cooldown)
  {
    forall ft: nat ensures Remaining(a, ft, later, cooldown) == Remaining(b, ft, later, cooldown) {
      assert Remaining(a, ft, now, cooldown) == Remaining(b, ft, now, cooldown);
    }
  }

  lemma SameFree(a: Slots, b: Slots, now: int, cooldown: nat, ft: nat)
    requires SameFrom(a, b, now, cooldown)
    ensures Free(a, ft, now, cooldown) <==> Free(b, ft, now, cooldown)
  {
    assert Remaining(a, ft, now, cooldown) == Remaining(b, ft, now, cooldown);
  }

  lemma SameAfterReserve(a: Slots, b: Slots, now: int, cooldown: nat, ft: nat)
    requires SameFrom(a, b, now, cooldown)
    ensures SameFrom(Reserve(a, ft, now, cooldown), Reserve(b, ft, now, cooldown), now, cooldown)
  {
    SameFree(a, b, now, cooldown, ft);
    var x, y := Reserve(a, ft, now, cooldown), Reserve(b, ft, now, cooldown);
    forall f: nat ensures Remaining(x, f, now, cooldown) == Remaining(y, f, now, cooldown) {
      assert Remaining(a, f, now, cooldown) == Remaining(b, f, now, cooldown);
    }
  }

  lemma SameAfterRelease(a: Slots, b: Slots, now: int, cooldown: nat, ft: nat)
    requires SameFrom(a, b, now, cooldown)
    ensures SameFrom(Release(a, ft), Release(b, ft), now, cooldown)
  {
    forall f: nat ensures Remaining(Release(a, ft), f, now, cooldown) == Remaining(Release(b, ft), f, now, cooldown) {
      assert Remaining(a, f, now, cooldown) == Remaining(b, f, now, cooldown);
    }
  }

  /** Purging rows older than the cooldown shows nobody a difference. */
  lemma SameAfterPurge(a: Slots, now: int, cooldown: nat)
    ensures SameFrom(Purge(a, now, cooldown), a, now, cooldown)
  {
    forall f: nat ensures Remaining(Purge(a, now, cooldown), f, now, cooldown) == Remaining(a, f, now, cooldown) {
    }
  }
}
