/** The shared objects of a single-process deployment: clock, audit sink, and `contrib/memory.py`. */
module Memory {
  import opened Prelude
  import opened Domain
  import opened Repository
  import opened Ceremony

  /** `testing/clock.py`. */
  class FrozenClock {
    var time: Instant

    constructor (start: Instant)
      ensures time == start
    {
      time := start;
    }

    method Advance(delta: nat)
      modifies this
      ensures time == old(time) + delta
    {
      time := time + delta;
    }
  }

  class AuditSink {
    var events: seq<AuditEvent>

    constructor ()
      ensures events == []
    {
      events := [];
    }

    method Emit(e: AuditEvent)
      modifies this
      ensures events == old(events) + [e]
    {
      events := events + [e];
    }
  }

  /** The dict `_by_id`; its keys are the ids of its values. */
  class InMemoryCredentialRepository {
    var byId: Repo

    ghost predicate Valid()
      reads this
    {
      Unique(byId)
    }

    constructor ()
      ensures Valid() && byId == []
    {
      byId := [];
    }

    method Add(c: Credential)
      requires Valid()
      modifies this
      ensures Valid() && byId == Assign(old(byId), c)
      ensures forall id :: Find(byId, id) == if id == c.credentialId then Some(c) else Find(old(byId), id)
    {
      byId := Assign(byId, c);
      UniqueOfAssign(old(byId), c);
      forall id ensures Find(byId, id) == if id == c.credentialId then Some(c) else Find(old(byId), id) {
        FindOfAssign(old(byId), c, id);
      }
    }

    method UpdateUsage(id: Bytes, signCount: nat, lastUsedAt: Instant)
      requires Valid()
      modifies this
      ensures Valid() && byId == Repository.UpdateUsage(old(byId), id, signCount, lastUsedAt)
      ensures forall k :: Find(byId, k) ==
                          if k == id && Find(old(byId), id).Some?
                          then Some(Find(old(byId), id).value.(signCount := signCount, lastUsedAt := Some(lastUsedAt)))
                          else Find(old(byId), k)
    {
      var existing := Find(byId, id);
      if existing != None {
        Add(existing.value.(signCount := signCount, lastUsedAt := Some(lastUsedAt)));
      }
    }

    method Rename(id: Bytes, userId: Str, name: Str)
      requires Valid()
      modifies this
      ensures Valid() && byId == Repository.Rename(old(byId), id, userId, name)
      ensures forall k :: Find(byId, k) ==
                          if k == id && Find(old(byId), id).Some? && Find(old(byId), id).value.userId == userId
                          then Some(Find(old(byId), id).value.(deviceName := name))
                          else Find(old(byId), k)
    {
      var existing := Find(byId, id);
      if existing != None && existing.value.userId == userId {
        Add(existing.value.(deviceName := name));
      }
    }

    method Delete(id: Bytes, userId: Str)
      requires Valid()
      modifies this
      ensures Valid() && byId == Repository.Delete(old(byId), id, userId)
      ensures forall k :: Find(byId, k) ==
                          if k == id && Find(old(byId), id).Some? && Find(old(byId), id).value.userId == userId
                          then None else Find(old(byId), k)
    {
      var existing := Find(byId, id);
      if existing != None && existing.value.userId == userId {
        byId := Remove(byId, id);
        UniqueOfRemove(old(byId), id);
        forall k ensures Find(byId, k) == if k == id then None else Find(old(byId), k) {
          FindOfRemove(old(byId), id, k);
        }
      }
    }
  }

  /** The dict `_store`. The handle `put` draws at random is given by the caller. */
  class InMemoryChallengeStore {
    const clock: FrozenClock
    var store: ChallengeMap

    constructor (clock: FrozenClock)
      ensures this.clock == clock && store == map[]
    {
      this.clock := clock;
      store := map[];
    }

    method Put(challenge: Challenge, handle: Str)
      modifies this
      ensures store == old(store)[handle := challenge]
    {
      store := store[handle := challenge];
    }

    /** Single use: whatever it returns, the handle is gone afterwards, and nothing else is. */
    method Consume(handle: Str) returns (r: Option<Challenge>)
      modifies this
      ensures store == old(store) - {handle}
      ensures r == Consumed(old(store), handle, clock.time)
      ensures r.Some? <==> handle in old(store) && clock.time <= old(store)[handle].expiresAt
    {
      var entry: Option<Challenge> := None;
      if handle in store {
        entry := Some(store[handle]);
        store := store - {handle};
      }
      if entry == None {
        return None;
      }
      if clock.time > entry.value.expiresAt {
        return None;
      }
      return entry;
    }
  }
}
