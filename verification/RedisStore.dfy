/**
 `contrib/redis/__init__.py`: challenges as JSON under keys with a time to live, fetched and deleted
 in one command. The Redis server is a keyed map with deadlines read against the same clock.
 */
module RedisStore {
  import opened Prelude
  import opened Domain
  import opened Json
  import opened JsonDumps
  import opened Codec
  import Memory

  datatype Entry = Entry(text: Str, deadline: Instant)

  type Entries = map<Str, Entry>

  /** A key is served up to and including its deadline. */
  predicate Alive(e: Entry, now: Instant) {
    now <= e.deadline
  }

  /** `int(d.total_seconds())`, truncating toward zero. */
  function TotalSeconds(microseconds: int): int {
    if microseconds >= 0 then microseconds / SECOND else -((-microseconds) / SECOND)
  }

  /** The `ex` argument of `put`. */
  function Ttl(c: Challenge, now: Instant): nat {
    var s := TotalSeconds(c.expiresAt - now);
    if s >= 1 then s else 1
  }

  function PutEntry(c: Challenge, now: Instant): Entry {
    Entry(Dumps(JObj(PayloadFields(c)), SPACED, false), now + Ttl(c, now) * SECOND)
  }

  /** What `consume` makes of the entry it fetched. */
  function Read(e: Option<Entry>, now: Instant): Decoded {
    if e == None || !Alive(e.value, now) then Rejected
    else
      match Loads(e.value.text)
      case None => Rejected
      case Some(payload) =>
        var d := PayloadToChallenge(payload);
        if d.Accepted? && now > d.challenge.expiresAt then Rejected else d
  }

  /** First redemption, at any time after the put: accepted until the earlier of deadline and cut expiry. */
  lemma ReadPut(c: Challenge, put: Instant, now: Instant)
    ensures Read(Some(PutEntry(c, put)), now)
            == if now <= put + Ttl(c, put) * SECOND && now <= WholeSeconds(c.expiresAt) * SECOND
               then Accepted(Received(c)) else Rejected
  {
    LoadsDumps(JObj(PayloadFields(c)), SPACED, false);
    PayloadRoundTrip(c, false);
  }

  /** The server side: `SET key value EX ttl` and `GETDEL key`. */
  class RedisClient {
    var entries: Entries

    constructor ()
      ensures entries == map[]
    {
      entries := map[];
    }

    method Set(key: Str, text: Str, ex: nat, now: Instant)
      modifies this
      ensures entries == old(entries)[key := Entry(text, now + ex * SECOND)]
    {
      entries := entries[key := Entry(text, now + ex * SECOND)];
    }

    method GetDel(key: Str, now: Instant) returns (r: Option<Str>)
      modifies this
      ensures entries == old(entries) - {key}
      ensures r == if key in old(entries) && Alive(old(entries)[key], now) then Some(old(entries)[key].text) else None
    {
      r := None;
      if key in entries {
        if Alive(entries[key], now) {
          r := Some(entries[key].text);
        }
        entries := entries - {key};
      }
    }
  }

  class RedisChallengeStore {
    const client: RedisClient
    const clock: Memory.FrozenClock
    const prefix: Str

    constructor (client: RedisClient, clock: Memory.FrozenClock, prefix: Str)
      ensures this.client == client && this.clock == clock && this.prefix == prefix
    {
      this.client := client;
      this.clock := clock;
      this.prefix := prefix;
    }

    method Put(challenge: Challenge, handle: Str)
      modifies client
      ensures client.entries == old(client.entries)[prefix + handle := PutEntry(challenge, clock.time)]
    {
      var payload := ChallengeToPayload(challenge);
      var seconds := TotalSeconds(challenge.expiresAt - clock.time);
      var ttl: nat := if 1 >= seconds then 1 else seconds;
      client.Set(prefix + handle, Dumps(payload, SPACED, false), ttl, clock.time);
    }

    /** Single use, whatever it returns; other keys are untouched. */
    method Consume(handle: Str) returns (r: Decoded)
      modifies client
      ensures client.entries == old(client.entries) - {prefix + handle}
      ensures r == Read(if prefix + handle in old(client.entries) then Some(old(client.entries)[prefix + handle]) else None,
                        clock.time)
    {
      var raw := client.GetDel(prefix + handle, clock.time);
      if raw == None {
        return Rejected;
      }
      var payload := Loads(raw.value);
      if payload == None {
        return Rejected;
      }
      r := PayloadToChallenge(payload.value);
      if r.Accepted? && clock.time > r.challenge.expiresAt {
        return Rejected;
      }
    }
  }
}
