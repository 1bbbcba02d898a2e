/**
 Registrations that overlap: lookup and insert are separate statements, so a call can crash on a
 duplicate key. Exactly when it does, and a run in which it happens.
 */
module OverlappingCrash {
  import opened Prelude
  import opened Domain
  import opened Json
  import opened Ceremony
  import opened Interleaving
  import opened OverlappingAudit
  import Base64Url
  import Sql = SqlRepository

  /** Step `a` of another call than `t` inserts `id`, which then stays stored until `w`. */
  ghost predicate InsertedByOther(env: Env, events: seq<Event>, a: nat, w: nat, t: nat, id: Bytes)
    requires w <= |events|
  {
    && a < w && events[a].Resume? && events[a].t != t && events[a].t in At(env, events, a).tasks
    && At(env, events, a).tasks[events[a].t].RegAdd?
    && At(env, events, a).tasks[events[a].t].credential.credentialId == id
    && RowNow(env, events, a, id) == None && StoredThroughout(env, events, a + 1, w, id)
  }

  /** Call `t` is about to insert `id` at step `w`. */
  predicate Inserts(env: Env, events: seq<Event>, w: nat, t: nat, id: Bytes) {
    && w < |events| && events[w] == Resume(t) && t in At(env, events, w).tasks
    && At(env, events, w).tasks[t].RegAdd? && At(env, events, w).tasks[t].credential.credentialId == id
  }

  /**
   When a registration crashes on a duplicate key: exactly if, between its lookup and its insert,
   another call inserted the id and it has been stored since.
   */
  lemma {:induction false} CrashIff(env: Env, events: seq<Event>, w: nat, t: nat, id: Bytes) returns (r: nat)
    requires Inserts(env, events, w, t, id)
    ensures r < w && events[r] == Resume(t) && t in At(env, events, r).tasks && At(env, events, r).tasks[t].RegLookup?
    ensures At(env, events, r).tasks[t].attested.credentialId == id
    ensures t in At(env, events, w + 1).tasks
    ensures At(env, events, w + 1).tasks[t].Crashed? <==> exists a: nat :: r < a && InsertedByOther(env, events, a, w, t, id)
  {
    hide Advanced, Sql.Get;
    r := Moved(env, events, w, t);
    AddStep(env, At(env, events, r), At(env, events, r).tasks[t]);
    NotStoredAt(env, events, r, id);
    AtNext(env, events, w);
    CrashStep(env, At(env, events, w), At(env, events, w).tasks[t]);
    if RowNow(env, events, w, id).Some? {
      var a := RowWasInserted(env, events, w, id);
      assert !(a + 1 <= r <= w) && a != r;
      NotByItself(env, events, r, a, w, t, At(env, events, w).tasks[t]);
      assert InsertedByOther(env, events, a, w, t, id);
    }
    if a: nat :| r < a && InsertedByOther(env, events, a, w, t, id) {
      assert RowNow(env, events, w, id).Some?;
    }
  }

  /** A call that waits for its insert makes no step meanwhile. */
  lemma NotByItself(env: Env, events: seq<Event>, r: nat, a: nat, w: nat, t: nat, task: Task)
    requires r < a < w <= |events| && task.RegAdd?
    requires forall k :: r < k <= w ==> t in At(env, events, k).tasks && At(env, events, k).tasks[t] == task
    ensures events[a] != Resume(t)
  {
    hide Advanced;
    AtNext(env, events, a);
    AddMoves(env, At(env, events, a), task);
    assert At(env, events, a).tasks[t] == At(env, events, a + 1).tasks[t] == task;
  }

  /** Every crashed call crashed so. */
  lemma {:induction false} CrashHasCause(env: Env, events: seq<Event>, n: nat, t: nat) returns (r: nat, a: nat, w: nat, id: Bytes)
    requires n <= |events| && t in At(env, events, n).tasks && At(env, events, n).tasks[t].Crashed?
    ensures r < a < w < n && Inserts(env, events, w, t, id) && InsertedByOther(env, events, a, w, t, id)
    ensures events[r] == Resume(t) && t in At(env, events, r).tasks && At(env, events, r).tasks[t].RegLookup?
  {
    hide Advanced;
    w := Moved(env, events, n, t);
    CrashComes(env, At(env, events, w), At(env, events, w).tasks[t]);
    id := At(env, events, w).tasks[t].credential.credentialId;
    r := CrashIff(env, events, w, t, id);
    AtNext(env, events, w);
    a :| r < a && InsertedByOther(env, events, a, w, t, id);
  }

  lemma CrashComes(env: Env, s: Sys, task: Task)
    requires Advanced(env, s, task).1.Crashed? && !task.Crashed?
    ensures task.RegAdd?
  {
  }

  lemma CrashStep(env: Env, s: Sys, task: Task)
    requires task.RegAdd?
    ensures Advanced(env, s, task).1.Crashed? <==> Sql.RowAt(s.table, task.credential.credentialId).Some?
  {
  }

  lemma AddStep(env: Env, s: Sys, task: Task)
    requires Advanced(env, s, task).1.RegAdd? && Advanced(env, s, task).1 != task
    ensures task.RegLookup? && task.attested.credentialId == Advanced(env, s, task).1.credential.credentialId
    ensures Sql.Get(s.table, task.attested.credentialId) == None
  {
    hide Sql.Get;
  }

  lemma AddMoves(env: Env, s: Sys, task: Task)
    requires task.RegAdd?
    ensures Advanced(env, s, task).1 != task
  {
  }

  /** A lookup misses only rows that are not there: every row converts. */
  lemma {:induction false} NotStoredAt(env: Env, events: seq<Event>, n: nat, id: Bytes)
    requires n <= |events| && Sql.Get(At(env, events, n).table, id) == None
    ensures RowNow(env, events, n, id) == None
  {
    hide At;
    if RowNow(env, events, n, id).Some? {
      var a := RowWasInserted(env, events, n, id);
      var row, c := RowNow(env, events, n, id).value, At(env, events, a).tasks[events[a].t].credential;
      assert Fixed(row).transports == row.transports && Fixed(Sql.ToRow(c)).transports == Sql.ToRow(c).transports;
      Sql.TransportsRoundTrip(c.transports);
    }
  }

  // ----- a run that crashes -----

  /** A registration that takes part: its task, and the response the engine accepts for its challenge. */
  datatype Newcomer = Newcomer(t: nat, handle: Str, challenge: Challenge, response: Fields)

  predicate Attests(env: Env, s: Sys, p: Newcomer, id: Bytes) {
    && p.t !in s.tasks && p.challenge.RegistrationChallenge? && s.now <= p.challenge.expiresAt
    && var v := env.verifyRegistration(p.response, p.challenge.challenge); v.Ok? && v.value.credentialId == id
  }

  function Attested(env: Env, p: Newcomer): Task
    requires p.challenge.RegistrationChallenge? && env.verifyRegistration(p.response, p.challenge.challenge).Ok?
  {
    RegLookup(p.challenge.user, env.verifyRegistration(p.response, p.challenge.challenge).value, [])
  }

  function Opening(p: Newcomer, q: Newcomer): seq<Event> {
    [Issue(p.handle, p.challenge), Issue(q.handle, q.challenge),
     Spawn(p.t, RegConsume(p.response, p.handle, [])), Spawn(q.t, RegConsume(q.response, q.handle, []))]
  }

  lemma Opened(env: Env, s: Sys, p: Newcomer, q: Newcomer)
    requires p.t != q.t && p.t !in s.tasks && q.t !in s.tasks
    ensures var e := Opening(p, q);
            Act(env, Act(env, Act(env, Act(env, s, e[0]), e[1]), e[2]), e[3])
            == s.(challenges := s.challenges[p.handle := p.challenge][q.handle := q.challenge],
                  tasks := s.tasks[p.t := RegConsume(p.response, p.handle, [])][q.t := RegConsume(q.response, q.handle, [])])
  {
    hide Advanced;
  }

  lemma Fetched(env: Env, s: Sys, p: Newcomer)
    requires p.t in s.tasks && s.tasks[p.t] == RegConsume(p.response, p.handle, [])
    requires p.handle in s.challenges && s.challenges[p.handle] == p.challenge && s.now <= p.challenge.expiresAt
    requires p.challenge.RegistrationChallenge? && env.verifyRegistration(p.response, p.challenge.challenge).Ok?
    ensures Act(env, s, Resume(p.t)) == s.(challenges := s.challenges - {p.handle}, tasks := s.tasks[p.t := Attested(env, p)])
  {
  }

  /** The lookup misses, so the call will insert. */
  lemma Missed(env: Env, s: Sys, t: nat)
    requires t in s.tasks && s.tasks[t].RegLookup? && s.tasks[t].attested.credentialId !in s.table
    ensures exists c: Credential, at: Instant :: c.credentialId == s.tasks[t].attested.credentialId
                            && Act(env, s, Resume(t)) == s.(tasks := s.tasks[t := RegAdd(c, at)])
  {
    hide Decide;
    var c := NewCredential(env.config, s.tasks[t].attested, s.tasks[t].user, s.tasks[t].deviceName, s.now);
    assert Act(env, s, Resume(t)) == s.(tasks := s.tasks[t := RegAdd(c, s.now)]);
  }

  lemma Crashes(env: Env, s: Sys, t: nat)
    requires t in s.tasks && s.tasks[t].RegAdd? && s.tasks[t].credential.credentialId in s.table
    ensures Act(env, s, Resume(t)) == s.(tasks := s.tasks[t := Crashed])
  {
    hide Decide;
  }

  /** Once both have fetched: one looks up, the other registers, and the first crashes. */
  lemma {:induction false} OneCrashes(env: Env, s: Sys, t: nat, u: nat, id: Bytes)
    requires t != u && t in s.tasks && u in s.tasks && s.tasks[t].RegLookup? && s.tasks[u].RegLookup?
    requires s.tasks[t].attested.credentialId == s.tasks[u].attested.credentialId == id && id !in s.table
    ensures var s' := Act(env, Act(env, Act(env, Act(env, Act(env, s, Resume(t)), Resume(u)), Resume(u)), Resume(u)), Resume(t));
            && t in s'.tasks && s'.tasks[t] == Crashed
            && u in s'.tasks && s'.tasks[u].Finished? && s'.tasks[u].outcome.Registered?
            && s'.tasks[u].outcome.credential.credentialId == id && s'.tasks[u].outcome.credential.userId == s.tasks[u].user.id
            && id in s'.table && s'.table[id] == Sql.ToRow(s'.tasks[u].outcome.credential)
            && |s'.log| == |s.log| + 1
  {
    hide Act, Sql.ToRow, Base64Url.Encode;
    Missed(env, s, t);
    var s1 := Act(env, s, Resume(t));
    Registers(env, s1, u);
    var s4 := Act(env, Act(env, Act(env, s1, Resume(u)), Resume(u)), Resume(u));
    Crashes(env, s4, t);
  }

  /**
   From every reachable state without an id, and for any two attestations of it that the engine
   accepts: two registrations that overlap so end with one registered and the other crashed, which has
   left no event.
   */
  lemma {:induction false} CrashHappens(env: Env, events: seq<Event>, p: Newcomer, q: Newcomer, id: Bytes) returns (all: seq<Event>)
    requires var s := After(env, events);
             Attests(env, s, p, id) && Attests(env, s, q, id) && p.t != q.t && p.handle != q.handle && id !in s.table
    ensures |events| <= |all| && all[..|events|] == events
    ensures var s, s' := After(env, events), After(env, all);
            && p.t in s'.tasks && s'.tasks[p.t] == Crashed
            && q.t in s'.tasks && s'.tasks[q.t].Finished? && s'.tasks[q.t].outcome.Registered?
            && OwnerOf(s', id) == Some(q.challenge.user.id) && |s'.log| == |s.log| + 1
  {
    hide Act, After, At, Sql.ToRow;
    var s, e := After(env, events), Opening(p, q);
    FourMore(env, events, e[0], e[1], e[2], e[3]);
    Opened(env, s, p, q);
    var first := events + e;
    var s1 := After(env, first);
    TwoMore(env, first, Resume(p.t), Resume(q.t));
    Fetched(env, s1, p);
    Fetched(env, Act(env, s1, Resume(p.t)), q);
    var second := first + [Resume(p.t), Resume(q.t)];
    var s2 := After(env, second);
    FourMore(env, second, Resume(p.t), Resume(q.t), Resume(q.t), Resume(q.t));
    var third := second + [Resume(p.t), Resume(q.t), Resume(q.t), Resume(q.t)];
    OneMore(env, third, Resume(p.t));
    all := third + [Resume(p.t)];
    OneCrashes(env, s2, p.t, q.t, id);
    OwnerInRow(After(env, all), id, After(env, all).tasks[q.t].outcome.credential);
  }

  lemma OwnerInRow(s: Sys, id: Bytes, c: Credential)
    requires id in s.table && s.table[id] == Sql.ToRow(c)
    ensures OwnerOf(s, id) == Some(c.userId)
  {
  }
}
