/** When the three challenge stores redeem a challenge, and that they agree up to the last second. */
module StoreWindows {
  import opened Prelude
  import opened Domain
  import opened Codec
  import Ceremony
  import RedisStore
  import StatelessStore

  /** First redemption at `now` of a challenge put at `put`, in each store. */
  function FromMemory(c: Challenge, handle: Str, now: Instant): Option<Challenge> {
    Ceremony.Consumed(map[handle := c], handle, now)
  }

  function FromStateless(c: Challenge, now: Instant, mac: StatelessStore.Mac): Decoded {
    StatelessStore.Consume(StatelessStore.Put(c, mac), now, mac)
  }

  function FromRedis(c: Challenge, put: Instant, now: Instant): Decoded {
    RedisStore.Read(Some(RedisStore.PutEntry(c, put)), now)
  }

  /**
   Redis redeems only when the stateless store does, that only when memory does, and memory only up
   to the true expiry; all three redeem at every time at least a second before the expiry, also when
   the time to live was clamped; each returns the challenge, cut to seconds outside memory.
   */
  lemma {:induction false} TimeAgreement(c: Challenge, handle: Str, put: Instant, now: Instant, mac: StatelessStore.Mac)
    requires put <= now
    ensures var m, s, r := FromMemory(c, handle, now), FromStateless(c, now, mac), FromRedis(c, put, now);
            && (r.Accepted? ==> s.Accepted?)
            && (s.Accepted? ==> m.Some?)
            && (m.Some? <==> now <= c.expiresAt)
            && (now + SECOND <= c.expiresAt ==> m.Some? && s.Accepted? && r.Accepted?)
            && (m.Some? ==> m.value == c)
            && (s.Accepted? ==> s.challenge == Received(c))
            && (r.Accepted? ==> r == s)
            && !s.Unmodelled? && !r.Unmodelled?
  {
    StatelessStore.ConsumePut(c, now, mac);
    RedisStore.ReadPut(c, put, now);
    LastSecond(c, put);
  }

  lemma LastSecond(c: Challenge, put: Instant)
    ensures WholeSeconds(c.expiresAt) * SECOND <= c.expiresAt < WholeSeconds(c.expiresAt) * SECOND + SECOND
    ensures c.expiresAt < put + RedisStore.Ttl(c, put) * SECOND + SECOND
  {
    if c.expiresAt >= put {
      var d := c.expiresAt - put;
      assert d < d / SECOND * SECOND + SECOND;
    }
  }

  /** Any disagreement between two of the stores falls strictly within the last second before expiry. */
  lemma DisagreeOnlyInLastSecond(c: Challenge, handle: Str, put: Instant, now: Instant, mac: StatelessStore.Mac)
    requires put <= now
    requires FromMemory(c, handle, now).Some? != FromStateless(c, now, mac).Accepted?
             || FromStateless(c, now, mac).Accepted? != FromRedis(c, put, now).Accepted?
    ensures c.expiresAt < now + SECOND && now <= c.expiresAt
  {
    TimeAgreement(c, handle, put, now, mac);
  }

  /**
   They do differ there: put half a second after a full second, to expire five and a half seconds
   later, the challenge is redeemed by all three, by two, by memory alone, and by none in turn.
   */
  lemma StoresDiffer(c: Challenge, handle: Str, mac: StatelessStore.Mac)
    requires c.expiresAt == 6_100_000
    ensures var put: Instant := 500_000;
            && FromRedis(c, put, 5_500_000).Accepted?
            && !FromRedis(c, put, 5_500_001).Accepted? && FromStateless(c, 6_000_000, mac).Accepted?
            && !FromStateless(c, 6_000_001, mac).Accepted? && FromMemory(c, handle, 6_100_000).Some?
            && FromMemory(c, handle, 6_100_001) == None
  {
    hide RedisStore.Read, RedisStore.PutEntry, StatelessStore.Consume, StatelessStore.Put, Received;
    RedisStore.ReadPut(c, 500_000, 5_500_000);
    RedisStore.ReadPut(c, 500_000, 5_500_001);
    StatelessStore.ConsumePut(c, 6_000_000, mac);
    StatelessStore.ConsumePut(c, 6_000_001, mac);
    assert RedisStore.TotalSeconds(5_600_000) == 5;
  }

  /** A time to live that would round to nothing is one second: expiry is then left to the payload. */
  lemma ClampedTtl(c: Challenge, put: Instant, now: Instant)
    requires put <= now && c.expiresAt < put + SECOND
    ensures RedisStore.Ttl(c, put) == 1
    ensures FromRedis(c, put, now).Accepted? <==> now <= WholeSeconds(c.expiresAt) * SECOND
  {
    RedisStore.ReadPut(c, put, now);
    LastSecond(c, put);
  }
}
