/**
 Exactly when the audit log tells who owns a credential, whatever overlaps: searches backward through
 the steps of a run, on the side of the log and on the side of the table.
 */
module OverlappingLog {
  import opened Prelude
  import opened Domain
  import opened Ceremony
  import opened Interleaving
  import opened OverlappingAudit
  import Base64Url
  import Sql = SqlRepository

  /** The task that event `k` resumes, if any. */
  function TaskAt(env: Env, events: seq<Event>, k: nat): Option<Task>
    requires k < |events|
  {
    var s := At(env, events, k);
    if events[k].Resume? && events[k].t in s.tasks then Some(s.tasks[events[k].t]) else None
  }

  function Tells(env: Env, events: seq<Event>, n: nat, id: Bytes): Option<Str>
    requires n <= |events|
  {
    TellsOf(env.config.signCountPolicy, At(env, events, n), id)
  }

  function Owner(env: Env, events: seq<Event>, n: nat, id: Bytes): Option<Str>
    requires n <= |events|
  {
    OwnerOf(At(env, events, n), id)
  }

  // ----- steps that speak, steps that change -----

  /** What step `k` says of `id`: `Some(word)` if it changes what the log tells, `word` being the owner it names, if any. */
  function Says(env: Env, events: seq<Event>, k: nat, id: Bytes): Option<Option<Str>>
    requires k < |events|
  {
    match TaskAt(env, events, k)
    case Some(RegReport(c, _)) => if c.credentialId == id then Some(Some(c.userId)) else None
    case Some(RevokeReport(who, idText, _)) =>
      if Base64Url.Decode(idText) == Some(id) && Tells(env, events, k, id) == Some(who) then Some(None) else None
    case Some(CloneReport(c, _, _)) =>
      if c.credentialId == id && env.config.signCountPolicy.FlagDisable? then Some(None) else None
    case _ => None
  }

  /** What step `k` does to the row of `id`: `Some(owner)` if it inserts or deletes it. */
  function Does(env: Env, events: seq<Event>, k: nat, id: Bytes): Option<Option<Str>>
    requires k < |events|
  {
    match TaskAt(env, events, k)
    case Some(RegAdd(c, _)) => if c.credentialId == id && Owner(env, events, k, id) == None then Some(Some(c.userId)) else None
    case Some(RevokeStart(who, x, _)) => if x == id && Owner(env, events, k, id) == Some(who) then Some(None) else None
    case Some(CloneDisable(c)) =>
      if c.credentialId == id && Owner(env, events, k, id) == Some(c.userId) then Some(None) else None
    case _ => None
  }

  lemma TellsNext(env: Env, events: seq<Event>, k: nat, id: Bytes)
    requires k < |events|
    ensures var said := Says(env, events, k, id);
            Tells(env, events, k + 1, id) == if said.Some? then said.value else Tells(env, events, k, id)
  {
    hide Act, At, Base64Url.Decode, TellsOf;
    AtNext(env, events, k);
    var s, e := At(env, events, k), events[k];
    if e.Resume? && e.t in s.tasks {
      TellsThen(env, s, e.t, id);
    } else {
      NothingElseMoves(env, s, e, id);
      SameLog(env.config.signCountPolicy, s, Act(env, s, e), id);
    }
  }

  lemma SameLog(policy: SignCountPolicy, s: Sys, s': Sys, id: Bytes)
    requires s'.log == s.log
    ensures TellsOf(policy, s', id) == TellsOf(policy, s, id)
  {
  }

  lemma OwnerNext(env: Env, events: seq<Event>, k: nat, id: Bytes)
    requires k < |events|
    ensures var done := Does(env, events, k, id);
            Owner(env, events, k + 1, id) == if done.Some? then done.value else Owner(env, events, k, id)
  {
    hide Act, At;
    AtNext(env, events, k);
    RunKeyed(env, events, k);
    var s, e := At(env, events, k), events[k];
    if e.Resume? && e.t in s.tasks {
      OwnerThen(env, s, e.t, id);
    } else {
      NothingElseMoves(env, s, e, id);
      SameOwner(s, Act(env, s, e), id);
    }
  }

  lemma NothingAtFirst(env: Env, events: seq<Event>, id: Bytes)
    ensures Tells(env, events, 0, id) == Owner(env, events, 0, id) == None
  {
    StartsEmpty(env, events);
  }

  // ----- the latest word against the latest deed -----

  /** The word of the latest step before `n` that changed what the log tells. */
  function LastWord(env: Env, events: seq<Event>, n: nat, id: Bytes): Option<Str>
    requires n <= |events|
  {
    if n == 0 then None
    else if Says(env, events, n - 1, id).Some? then Says(env, events, n - 1, id).value
    else LastWord(env, events, n - 1, id)
  }

  /** The owner left by the latest step before `n` that inserted or deleted the row. */
  function LastDeed(env: Env, events: seq<Event>, n: nat, id: Bytes): Option<Str>
    requires n <= |events|
  {
    if n == 0 then None
    else if Does(env, events, n - 1, id).Some? then Does(env, events, n - 1, id).value
    else LastDeed(env, events, n - 1, id)
  }

  /** In every run, at every point: the log tells the owner exactly if the latest word agrees with the latest deed. */
  lemma {:induction false} LogTellsIff(env: Env, events: seq<Event>, n: nat, id: Bytes)
    requires n <= |events|
    ensures Tells(env, events, n, id) == LastWord(env, events, n, id)
    ensures Owner(env, events, n, id) == LastDeed(env, events, n, id)
    ensures Tells(env, events, n, id) == Owner(env, events, n, id) <==> LastWord(env, events, n, id) == LastDeed(env, events, n, id)
  {
    hide Says, Does, Tells, Owner;
    if n == 0 {
      NothingAtFirst(env, events, id);
    } else {
      LogTellsIff(env, events, n - 1, id);
      TellsNext(env, events, n - 1, id);
      OwnerNext(env, events, n - 1, id);
    }
  }

  // ----- owner by owner, with guards that only read the step -----

  /** Step `k` reports a registration of `id` for `user`. */
  predicate Names(env: Env, events: seq<Event>, k: nat, id: Bytes, user: Str) {
    && k < |events|
    && match TaskAt(env, events, k)
       case Some(RegReport(c, _)) => c.credentialId == id && c.userId == user
       case _ => false
  }

  /** Step `k` reports a registration for someone else, a revocation by `user`, or a suspected clone that is disabled. */
  predicate Unsays(env: Env, events: seq<Event>, k: nat, id: Bytes, user: Str) {
    && k < |events|
    && match TaskAt(env, events, k)
       case Some(RegReport(c, _)) => c.credentialId == id && c.userId != user
       case Some(RevokeReport(who, idText, _)) => Base64Url.Decode(idText) == Some(id) && who == user
       case Some(CloneReport(c, _, _)) => c.credentialId == id && env.config.signCountPolicy.FlagDisable?
       case _ => false
  }

  lemma TellsUserNext(env: Env, events: seq<Event>, k: nat, id: Bytes, user: Str)
    requires k < |events|
    ensures Tells(env, events, k + 1, id) == Some(user)
            <==> Names(env, events, k, id, user)
                 || (Tells(env, events, k, id) == Some(user) && !Unsays(env, events, k, id, user))
  {
    hide Tells, TaskAt, Base64Url.Decode;
    TellsNext(env, events, k, id);
  }

  /** The log has told `user` since the report at `m`. */
  ghost predicate ToldSince(env: Env, events: seq<Event>, m: nat, n: nat, id: Bytes, user: Str) {
    m < n && Names(env, events, m, id, user) && forall k :: m < k < n ==> !Unsays(env, events, k, id, user)
  }

  /** The log tells a user exactly if some registration was reported for them and nothing has unsaid it since. */
  lemma {:induction false} TellsIff(env: Env, events: seq<Event>, n: nat, id: Bytes, user: Str)
    requires n <= |events|
    ensures Tells(env, events, n, id) == Some(user) <==> exists m: nat :: ToldSince(env, events, m, n, id, user)
  {
    hide Tells, Names, Unsays;
    if n == 0 {
      NothingAtFirst(env, events, id);
    } else {
      TellsIff(env, events, n - 1, id, user);
      TellsUserNext(env, events, n - 1, id, user);
      if Tells(env, events, n, id) == Some(user) {
        if Names(env, events, n - 1, id, user) {
          assert ToldSince(env, events, n - 1, n, id, user);
        } else {
          var m: nat :| ToldSince(env, events, m, n - 1, id, user);
          assert ToldSince(env, events, m, n, id, user);
        }
      }
      if m: nat :| ToldSince(env, events, m, n, id, user) {
        if m < n - 1 {
          assert ToldSince(env, events, m, n - 1, id, user);
        }
      }
    }
  }

  // ----- a stored credential at a settled point -----

  /** Every unsaying of `user` between `r` and `n` is followed by a report that names them. */
  ghost predicate SaidAgain(env: Env, events: seq<Event>, r: nat, n: nat, id: Bytes, user: Str) {
    forall k :: r < k < n && Unsays(env, events, k, id, user) ==> exists m :: k < m < n && Names(env, events, m, id, user)
  }

  /** The latest unsaying in a stretch, if there is one. */
  lemma {:induction false} LatestUnsaying(env: Env, events: seq<Event>, r: nat, n: nat, id: Bytes, user: Str) returns (k: nat)
    requires r < n
    ensures r <= k < n && (k == r || Unsays(env, events, k, id, user))
    ensures forall i :: k < i < n ==> !Unsays(env, events, i, id, user)
    decreases n
  {
    hide Unsays;
    if n == r + 1 || Unsays(env, events, n - 1, id, user) {
      k := n - 1;
    } else {
      k := LatestUnsaying(env, events, r, n - 1, id, user);
    }
  }

  lemma NamesOrUnsays(env: Env, events: seq<Event>, k: nat, id: Bytes, user: Str)
    ensures !(Names(env, events, k, id, user) && Unsays(env, events, k, id, user))
  {
  }

  /** From a report on, the log tells its user exactly if every unsaying is followed by another report. */
  lemma {:induction false} ToldFromReport(env: Env, events: seq<Event>, r: nat, n: nat, id: Bytes, user: Str)
    requires r < n <= |events| && Names(env, events, r, id, user)
    ensures Tells(env, events, n, id) == Some(user) <==> SaidAgain(env, events, r, n, id, user)
  {
    hide Tells, Names, Unsays;
    TellsIff(env, events, n, id, user);
    if Tells(env, events, n, id) == Some(user) {
      var m: nat :| ToldSince(env, events, m, n, id, user);
      forall k | r < k < n && Unsays(env, events, k, id, user) ensures exists m' :: k < m' < n && Names(env, events, m', id, user) {
        NamesOrUnsays(env, events, m, id, user);
        assert k < m;
      }
    }
    if SaidAgain(env, events, r, n, id, user) {
      var k := LatestUnsaying(env, events, r, n, id, user);
      if k == r {
        assert ToldSince(env, events, r, n, id, user);
      } else {
        var m :| k < m < n && Names(env, events, m, id, user);
        assert ToldSince(env, events, m, n, id, user);
      }
    }
  }

  /** Step `r` reports the registration that inserted the row at step `a`. */
  ghost predicate ReportOf(env: Env, events: seq<Event>, a: nat, r: nat, id: Bytes) {
    && a < r < |events| && events[a].Resume? && events[r] == events[a]
    && TaskAt(env, events, a).Some? && TaskAt(env, events, r).Some?
    && var add, report := TaskAt(env, events, a).value, TaskAt(env, events, r).value;
       add.RegAdd? && add.credential.credentialId == id && report == RegReport(add.credential, add.at)
  }

  /** A call that inserted a row and is no longer pending has reported it. */
  lemma {:induction false} FindReport(env: Env, events: seq<Event>, a: nat, k: nat, n: nat, c: Credential, at: Instant) returns (r: nat)
    requires a < k <= n <= |events| && events[a].Resume?
    requires var t := events[a].t;
             && t in At(env, events, k).tasks && At(env, events, k).tasks[t] == RegReport(c, at)
             && t in At(env, events, n).tasks && At(env, events, n).tasks[t] != RegReport(c, at)
    ensures k <= r < n && events[r] == events[a] && TaskAt(env, events, r) == Some(RegReport(c, at))
    decreases n - k
  {
    hide Advanced;
    AtNext(env, events, k);
    if events[k] == events[a] {
      r := k;
    } else {
      r := FindReport(env, events, a, k + 1, n, c, at);
    }
  }

  lemma InsertReports(env: Env, events: seq<Event>, a: nat, id: Bytes)
    requires a < |events| && TaskAt(env, events, a).Some? && TaskAt(env, events, a).value.RegAdd?
    requires TaskAt(env, events, a).value.credential.credentialId == id && RowNow(env, events, a, id) == None
    ensures var add, s' := TaskAt(env, events, a).value, At(env, events, a + 1);
            events[a].t in s'.tasks && s'.tasks[events[a].t] == RegReport(add.credential, add.at)
  {
    hide At, Decide;
    AtNext(env, events, a);
  }

  lemma {:induction false} TasksStay(env: Env, events: seq<Event>, k: nat, n: nat, t: nat)
    requires k <= n <= |events| && t in At(env, events, k).tasks
    ensures t in At(env, events, n).tasks
    decreases n
  {
    hide Advanced;
    if k < n {
      TasksStay(env, events, k, n - 1, t);
      AtNext(env, events, n - 1);
    }
  }

  /**
   A stored credential at a settled point: it was inserted by a step `a` of a call, whose report at `r`
   named its owner, and the log tells the owner exactly if every later step that unsays them is
   followed by a report that names them.
   */
  lemma {:induction false} StoredToldIff(env: Env, events: seq<Event>, n: nat, id: Bytes) returns (a: nat, r: nat)
    requires n <= |events| && RowNow(env, events, n, id).Some? && Settled(At(env, events, n), id)
    ensures ReportOf(env, events, a, r, id) && r < n && StoredThroughout(env, events, a + 1, n, id)
    ensures TaskAt(env, events, a).value.credential.userId == RowNow(env, events, n, id).value.userId
    ensures Tells(env, events, n, id) == Owner(env, events, n, id)
            <==> SaidAgain(env, events, r, n, id, RowNow(env, events, n, id).value.userId)
  {
    hide At, SaidAgain, Sql.ToRow;
    a := RowWasInserted(env, events, n, id);
    InsertReports(env, events, a, id);
    var t, c, at := events[a].t, TaskAt(env, events, a).value.credential, TaskAt(env, events, a).value.at;
    TasksStay(env, events, a + 1, n, t);
    assert !Pending(At(env, events, n).tasks[t], id);
    r := FindReport(env, events, a, a + 1, n, c, at);
    SameUser(RowNow(env, events, n, id).value, c);
    ToldFromReport(env, events, r, n, id, c.userId);
  }

  lemma SameUser(row: Sql.Row, c: Credential)
    requires Fixed(row) == Fixed(Sql.ToRow(c))
    ensures row.userId == c.userId
  {
    assert Fixed(row).userId == row.userId && Fixed(Sql.ToRow(c)).userId == c.userId;
  }

  /** An id that is not stored: the log tells no owner exactly if every report of a registration has been unsaid since. */
  lemma {:induction false} AbsentToldIff(env: Env, events: seq<Event>, n: nat, id: Bytes)
    requires n <= |events| && RowNow(env, events, n, id) == None
    ensures Tells(env, events, n, id) == Owner(env, events, n, id)
            <==> forall m: nat, user: Str :: m < n && Names(env, events, m, id, user) ==>
                   exists k :: m < k < n && Unsays(env, events, k, id, user)
  {
    hide At, Names, Unsays, TellsOf;
    if Tells(env, events, n, id).Some? {
      var user := Tells(env, events, n, id).value;
      TellsIff(env, events, n, id, user);
      var m: nat :| ToldSince(env, events, m, n, id, user);
      assert m < n && Names(env, events, m, id, user);
    } else {
      forall m: nat, user: Str | m < n && Names(env, events, m, id, user)
        ensures exists k :: m < k < n && Unsays(env, events, k, id, user)
      {
        TellsIff(env, events, n, id, user);
        assert !ToldSince(env, events, m, n, id, user);
      }
    }
  }
}
