/** The Redis store against the in-memory store over whole runs: the same puts and redemptions on both. */
module StoreRuns {
  import opened Prelude
  import opened Domain
  import Codec
  import Ceremony
  import RedisStore
  import StoreWindows

  datatype Call = Put(challenge: Challenge, handle: Str) | Redeem(handle: Str) | Wait(elapsed: nat)

  datatype Stores = Stores(now: Instant, memory: Ceremony.ChallengeMap, redis: RedisStore.Entries)

  function Next(s: Stores, prefix: Str, call: Call): Stores {
    match call
    case Put(c, handle) =>
      s.(memory := s.memory[handle := c], redis := s.redis[prefix + handle := RedisStore.PutEntry(c, s.now)])
    case Redeem(handle) => s.(memory := s.memory - {handle}, redis := s.redis - {prefix + handle})
    case Wait(elapsed) => s.(now := s.now + elapsed)
  }

  function After(calls: seq<Call>, prefix: Str): Stores {
    if calls == [] then Stores(0, map[], map[]) else Next(After(calls[..|calls| - 1], prefix), prefix, calls[|calls| - 1])
  }

  function FromMemory(s: Stores, handle: Str): Option<Challenge> {
    Ceremony.Consumed(s.memory, handle, s.now)
  }

  function FromRedis(s: Stores, prefix: Str, handle: Str): Codec.Decoded {
    RedisStore.Read(if prefix + handle in s.redis then Some(s.redis[prefix + handle]) else None, s.now)
  }

  ghost predicate PutBy(e: RedisStore.Entry, c: Challenge, now: Instant) {
    exists put: Instant :: put <= now && e == RedisStore.PutEntry(c, put)
  }

  /** Both hold the same handles, each with the same challenge. */
  ghost predicate Mirrors(s: Stores, prefix: Str) {
    && (forall h :: h in s.memory <==> prefix + h in s.redis)
    && (forall h :: h in s.memory && prefix + h in s.redis ==> PutBy(s.redis[prefix + h], s.memory[h], s.now))
  }

  lemma PrefixInjective(prefix: Str, a: Str, b: Str)
    ensures prefix + a == prefix + b <==> a == b
  {
    assert (prefix + a)[|prefix|..] == a && (prefix + b)[|prefix|..] == b;
  }

  lemma NextMirrors(s: Stores, prefix: Str, call: Call)
    requires Mirrors(s, prefix)
    ensures Mirrors(Next(s, prefix, call), prefix)
  {
    hide RedisStore.PutEntry;
    var s' := Next(s, prefix, call);
    forall h
      ensures h in s'.memory <==> prefix + h in s'.redis
      ensures h in s'.memory && prefix + h in s'.redis ==> PutBy(s'.redis[prefix + h], s'.memory[h], s'.now)
    {
      if !call.Wait? {
        PrefixInjective(prefix, h, call.handle);
      }
      if h in s'.memory && h in s.memory && prefix + h in s.redis {
        var put: Instant :| put <= s.now && s.redis[prefix + h] == RedisStore.PutEntry(s.memory[h], put);
        assert put <= s'.now;
      }
    }
  }

  lemma {:induction false} RunMirrors(calls: seq<Call>, prefix: Str)
    ensures Mirrors(After(calls, prefix), prefix)
  {
    if calls != [] {
      RunMirrors(calls[..|calls| - 1], prefix);
      NextMirrors(After(calls[..|calls| - 1], prefix), prefix, calls[|calls| - 1]);
    }
  }

  /**
   At every point of every run, for every handle: what Redis would return memory would too, cut to
   seconds; and what memory would return Redis would too until a second before the expiry.
   */
  lemma {:induction false} RedisRefinesMemory(calls: seq<Call>, prefix: Str, handle: Str)
    ensures var s := After(calls, prefix);
            var m, r := FromMemory(s, handle), FromRedis(s, prefix, handle);
            && (r.Accepted? ==> m.Some? && r.challenge == Codec.Received(m.value))
            && (m.Some? && s.now + SECOND <= m.value.expiresAt ==> r.Accepted?)
            && (m.Some? ==> s.now <= m.value.expiresAt)
            && !r.Unmodelled?
  {
    hide RedisStore.Read, RedisStore.PutEntry;
    RunMirrors(calls, prefix);
    var s := After(calls, prefix);
    if handle in s.memory {
      var c := s.memory[handle];
      assert PutBy(s.redis[prefix + handle], c, s.now);
      var put: Instant :| put <= s.now && s.redis[prefix + handle] == RedisStore.PutEntry(c, put);
      RedisStore.ReadPut(c, put, s.now);
      StoreWindows.LastSecond(c, put);
    } else {
      assert prefix + handle !in s.redis;
      NothingRead(s.now);
    }
  }

  /**
   Single use over runs: once a handle was redeemed, successfully or not, neither store returns
   anything for it at any later point, unless it was put anew.
   */
  lemma {:induction false} RedeemedStaysGone(calls: seq<Call>, prefix: Str, i: nat, j: nat, handle: Str)
    requires i < j <= |calls| && calls[i] == Redeem(handle)
    requires forall k :: i < k < j ==> !(calls[k].Put? && calls[k].handle == handle)
    ensures var s := After(calls[..j], prefix);
            && handle !in s.memory && prefix + handle !in s.redis
            && FromMemory(s, handle) == None && FromRedis(s, prefix, handle) == Codec.Rejected
    decreases j
  {
    hide RedisStore.Read, RedisStore.PutEntry;
    assert calls[..j][..j - 1] == calls[..j - 1];
    if i < j - 1 {
      RedeemedStaysGone(calls, prefix, i, j - 1, handle);
      var call := calls[j - 1];
      if call.Put? {
        PrefixInjective(prefix, call.handle, handle);
      }
    }
    NothingRead(After(calls[..j], prefix).now);
  }

  lemma NothingRead(now: Instant)
    ensures RedisStore.Read(None, now) == Codec.Rejected
  {
  }
}
