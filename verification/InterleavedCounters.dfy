/**
 The signature counter when calls overlap: the count is read by one statement and written by another,
 so what the write does to the stored count depends on what happened in between.
 */
module InterleavedCounters {
  import opened Prelude
  import opened Domain
  import opened Ceremony
  import opened Interleaving
  import Sql = SqlRepository

  /** Step `r` is the lookup of call `t`, step `w` its next step, which records the use of `id`. */
  ghost predicate ReadWrite(env: Env, events: seq<Event>, r: nat, w: nat, t: nat, id: Bytes) {
    && r < w && Writes(env, events, w, t, id) && events[r] == Resume(t)
    && t in At(env, events, r).tasks && At(env, events, r).tasks[t].AuthLookup?
    && At(env, events, w).tasks[t] == Advanced(env, At(env, events, r), At(env, events, r).tasks[t]).1
    && forall k :: r < k < w ==> events[k] != Resume(t)
  }

  /** Step `w` writes the count that call `t` presents for `id`. */
  predicate Writes(env: Env, events: seq<Event>, w: nat, t: nat, id: Bytes) {
    && w < |events| && events[w] == Resume(t) && t in At(env, events, w).tasks
    && var task := At(env, events, w).tasks[t];
       task.AuthUpdate? && task.credential.credentialId == id
  }

  /** The count such a step writes. */
  function Presented(env: Env, events: seq<Event>, w: nat, t: nat, id: Bytes): nat
    requires Writes(env, events, w, t, id)
  {
    At(env, events, w).tasks[t].verified.newSignCount
  }

  /** Every write is preceded by its read. */
  lemma {:induction false} EveryWriteHasRead(env: Env, events: seq<Event>, w: nat, t: nat, id: Bytes) returns (r: nat)
    requires Writes(env, events, w, t, id)
    ensures ReadWrite(env, events, r, w, t, id)
  {
    r := Moved(env, events, w, t);
    var task := At(env, events, w).tasks[t];
    assert At(env, events, r).tasks[t].AuthLookup?;
    forall k | r < k < w ensures events[k] != Resume(t) {
      AtNext(env, events, k);
      assert At(env, events, k).tasks[t] == task && At(env, events, k + 1).tasks[t] == task;
    }
  }

  /** Only one lookup belongs to a write. */
  lemma ReadIsUnique(env: Env, events: seq<Event>, r: nat, r': nat, w: nat, t: nat, id: Bytes)
    requires ReadWrite(env, events, r, w, t, id) && ReadWrite(env, events, r', w, t, id)
    ensures r == r'
  {
  }

  // ----- what happens in between -----

  /** Step `k` adds `id`, deletes it or writes its count. */
  predicate Disturbs(env: Env, events: seq<Event>, k: nat, id: Bytes)
    requires k < |events|
  {
    var s, row := At(env, events, k), RowNow(env, events, k, id);
    && events[k].Resume? && events[k].t in s.tasks
    && match s.tasks[events[k].t]
       case AuthUpdate(c, _, _) => c.credentialId == id && row.Some?
       case RegAdd(c, _) => c.credentialId == id && row == None
       case CloneDisable(c) => c.credentialId == id && row.Some? && row.value.userId == c.userId
       case RevokeStart(owner, x, _) => x == id && row.Some? && row.value.userId == owner
       case _ => false
  }

  /** The latest such step strictly between `r` and `w`. */
  function LastDisturbance(env: Env, events: seq<Event>, r: nat, w: nat, id: Bytes): (k: Option<nat>)
    requires r < w <= |events|
    ensures k.Some? ==> r < k.value < w && Disturbs(env, events, k.value, id)
  {
    if w == r + 1 then None
    else if Disturbs(env, events, w - 1, id) then Some(w - 1)
    else LastDisturbance(env, events, r, w - 1, id)
  }

  function CountNow(env: Env, events: seq<Event>, n: nat, id: Bytes): Option<nat>
    requires n <= |events|
  {
    var row := RowNow(env, events, n, id);
    if row == None then None else Some(row.value.signCount)
  }

  /** What a disturbing step leaves behind: the count it wrote or added, or nothing. */
  function CountLeft(env: Env, events: seq<Event>, k: nat, id: Bytes): Option<nat>
    requires k < |events| && Disturbs(env, events, k, id)
  {
    match At(env, events, k).tasks[events[k].t]
    case AuthUpdate(_, v, _) => Some(v.newSignCount)
    case RegAdd(c, _) => Some(c.signCount)
    case _ => None
  }

  lemma CountNext(env: Env, events: seq<Event>, k: nat, id: Bytes)
    requires k < |events|
    ensures CountNow(env, events, k + 1, id)
            == if Disturbs(env, events, k, id) then CountLeft(env, events, k, id) else CountNow(env, events, k, id)
  {
    hide At;
    RowNext(env, events, k, id);
  }

  /** From its latest disturbance on, a count stands. */
  lemma {:induction false} CountStands(env: Env, events: seq<Event>, r: nat, w: nat, id: Bytes)
    requires r < w <= |events|
    ensures var d := LastDisturbance(env, events, r, w, id);
            CountNow(env, events, w, id)
            == if d.Some? then CountLeft(env, events, d.value, id) else CountNow(env, events, r + 1, id)
    decreases w
  {
    hide Disturbs, CountLeft, CountNow;
    if w > r + 1 {
      CountNext(env, events, w - 1, id);
      CountStands(env, events, r, w - 1, id);
    }
  }

  // ----- when a write advances the count -----

  /** The read found the row, passed the check against its count and left it alone. */
  lemma ReadChecks(env: Env, events: seq<Event>, r: nat, w: nat, t: nat, id: Bytes)
    requires ReadWrite(env, events, r, w, t, id)
    ensures CountNow(env, events, r + 1, id).Some?
    ensures CountAdvances(CountNow(env, events, r + 1, id).value, Presented(env, events, w, t, id))
  {
    hide At;
    RowNext(env, events, r, id);
    RunKeyed(env, events, r);
    var s := At(env, events, r);
    var found := Sql.Get(s.table, s.tasks[t].id);
    assert found.Some? && found.value.credentialId == id;
    assert s.tasks[t].id in s.table && s.table[s.tasks[t].id].credentialId == s.tasks[t].id;
  }

  /**
   What a write does, exactly. With d the latest step between read and write that added, deleted or
   wrote the credential: without a d the count advances; after a deletion the write finds no row and
   changes nothing; otherwise the write advances the stored count exactly if the presented count
   advances the one that d left.
   */
  lemma {:induction false} WriteAdvancesIff(env: Env, events: seq<Event>, r: nat, w: nat, t: nat, id: Bytes)
    requires ReadWrite(env, events, r, w, t, id)
    ensures var d := LastDisturbance(env, events, r, w, id);
            var before, after := CountNow(env, events, w, id), CountNow(env, events, w + 1, id);
            var n := Presented(env, events, w, t, id);
            && (d == None ==> before.Some? && CountAdvances(before.value, n))
            && (d.Some? && CountLeft(env, events, d.value, id) == None ==>
                  before == None && At(env, events, w + 1).table == At(env, events, w).table)
            && (d.Some? && CountLeft(env, events, d.value, id).Some? ==>
                  before.Some?
                  && (CountAdvances(before.value, n) <==> CountAdvances(CountLeft(env, events, d.value, id).value, n)))
            && (before.Some? ==> after == Some(n))
  {
    hide CountAdvances, CountLeft, LastDisturbance;
    ReadChecks(env, events, r, w, t, id);
    CountStands(env, events, r, w, id);
    WriteWrites(env, events, w, t, id);
  }

  lemma WriteWrites(env: Env, events: seq<Event>, w: nat, t: nat, id: Bytes)
    requires Writes(env, events, w, t, id)
    ensures CountNow(env, events, w, id).Some? ==> CountNow(env, events, w + 1, id) == Some(Presented(env, events, w, t, id))
    ensures CountNow(env, events, w, id) == None ==> At(env, events, w + 1).table == At(env, events, w).table
  {
    hide At;
    RowNext(env, events, w, id);
    if CountNow(env, events, w, id) == None {
      NoRowNoWrite(env, events, w, t, id);
    }
  }

  lemma NoRowNoWrite(env: Env, events: seq<Event>, w: nat, t: nat, id: Bytes)
    requires Writes(env, events, w, t, id) && id !in At(env, events, w).table
    ensures At(env, events, w + 1).table == At(env, events, w).table
  {
    hide At;
    AtNext(env, events, w);
    RunKeyed(env, events, w);
    ActTable(env, At(env, events, w), events[w]);
  }

  // ----- whole runs -----

  /** Step `w` writes a count below the one that a step between its read and itself had left. */
  ghost predicate Overtaken(env: Env, events: seq<Event>, w: nat, id: Bytes) {
    exists r: nat, t: nat ::
      && ReadWrite(env, events, r, w, t, id)
      && var d := LastDisturbance(env, events, r, w, id);
         && d.Some? && CountLeft(env, events, d.value, id).Some?
         && Presented(env, events, w, t, id) < CountLeft(env, events, d.value, id).value
  }

  /** Every lowered count, in every run, has this cause, and the cause has this effect. */
  lemma {:induction false} LoweredIff(env: Env, events: seq<Event>, w: nat, id: Bytes)
    requires w < |events| && StoredThroughout(env, events, w, w + 1, id)
    ensures CountNow(env, events, w + 1, id).value < CountNow(env, events, w, id).value <==> Overtaken(env, events, w, id)
  {
    hide At, CountLeft;
    assert RowNow(env, events, w, id).Some? && RowNow(env, events, w + 1, id).Some?;
    if CountNow(env, events, w + 1, id).value < CountNow(env, events, w, id).value {
      OnlyWritesLower(env, events, w, id);
      var t := events[w].t;
      var r := EveryWriteHasRead(env, events, w, t, id);
      WriteAdvancesIff(env, events, r, w, t, id);
      CountStands(env, events, r, w, id);
    }
    if Overtaken(env, events, w, id) {
      var r: nat, t: nat :| ReadWrite(env, events, r, w, t, id)
        && var d := LastDisturbance(env, events, r, w, id);
           && d.Some? && CountLeft(env, events, d.value, id).Some?
           && Presented(env, events, w, t, id) < CountLeft(env, events, d.value, id).value;
      WriteAdvancesIff(env, events, r, w, t, id);
      CountStands(env, events, r, w, id);
    }
  }

  lemma OnlyWritesLower(env: Env, events: seq<Event>, w: nat, id: Bytes)
    requires w < |events| && StoredThroughout(env, events, w, w + 1, id)
    requires CountNow(env, events, w + 1, id) != CountNow(env, events, w, id)
    ensures events[w].Resume? && Writes(env, events, w, events[w].t, id)
  {
    assert RowNow(env, events, w, id).Some? && RowNow(env, events, w + 1, id).Some?;
    CountNext(env, events, w, id);
  }

  /** Over any stretch of a run during which a credential is stored, its count never falls exactly if no write is overtaken. */
  lemma {:induction false} MonotoneIff(env: Env, events: seq<Event>, m: nat, n: nat, id: Bytes)
    requires m <= n <= |events| && StoredThroughout(env, events, m, n, id)
    ensures (forall i, j :: m <= i <= j <= n ==> CountNow(env, events, i, id).value <= CountNow(env, events, j, id).value)
            <==> (forall w :: m <= w < n ==> !Overtaken(env, events, w, id))
  {
    hide At, Overtaken;
    forall k | m <= k <= n ensures CountNow(env, events, k, id).Some? {
      assert RowNow(env, events, k, id).Some?;
    }
    forall w | m <= w < n
      ensures CountNow(env, events, w + 1, id).value < CountNow(env, events, w, id).value <==> Overtaken(env, events, w, id)
    {
      LoweredIff(env, events, w, id);
    }
    if forall w :: m <= w < n ==> !Overtaken(env, events, w, id) {
      forall i, j | m <= i <= j <= n
        ensures CountNow(env, events, i, id).value <= CountNow(env, events, j, id).value
      {
        StepwiseMonotone(env, events, i, j, id);
      }
    } else {
      var w :| m <= w < n && Overtaken(env, events, w, id);
      assert CountNow(env, events, w + 1, id).value < CountNow(env, events, w, id).value;
    }
  }

  lemma {:induction false} StepwiseMonotone(env: Env, events: seq<Event>, i: nat, j: nat, id: Bytes)
    requires i <= j <= |events|
    requires forall k :: i <= k <= j ==> CountNow(env, events, k, id).Some?
    requires forall w :: i <= w < j ==> CountNow(env, events, w + 1, id).value >= CountNow(env, events, w, id).value
    ensures CountNow(env, events, i, id).value <= CountNow(env, events, j, id).value
    decreases j
  {
    hide CountNow;
    if i < j {
      StepwiseMonotone(env, events, i, j - 1, id);
    }
  }

  /**
   In particular, counts stay monotone over a run if nothing else finishes an authentication of the
   credential, deletes it or adds it between the read and the write of any call.
   */
  lemma {:induction false} UndisturbedRunsAreMonotone(env: Env, events: seq<Event>, m: nat, n: nat, id: Bytes)
    requires m <= n <= |events| && StoredThroughout(env, events, m, n, id)
    requires forall r, w, t :: m <= w < n && ReadWrite(env, events, r, w, t, id) ==> LastDisturbance(env, events, r, w, id) == None
    ensures forall i, j :: m <= i <= j <= n ==> CountNow(env, events, i, id).value <= CountNow(env, events, j, id).value
  {
    forall w | m <= w < n ensures !Overtaken(env, events, w, id) {
    }
    MonotoneIff(env, events, m, n, id);
  }
}
