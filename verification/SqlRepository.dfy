/**
 `contrib/sqlalchemy/__init__.py`: credentials as rows under a primary key, changed by statements
 whose WHERE clauses select the rows to change. The database keeps rows in no particular order.
 */
module SqlRepository {
  import opened Prelude
  import opened Domain
  import Repository

  datatype Row = Row(
    credentialId: Bytes,
    userId: Str,
    publicKey: Bytes,
    signCount: nat,
    transports: seq<Str>,
    aaguid: Option<Bytes>,
    backupEligible: bool,
    backupState: bool,
    deviceName: Str,
    isDiscoverable: bool,
    attestationFmt: Option<Str>,
    createdAt: Option<Instant>,
    lastUsedAt: Option<Instant>)

  /** The table, by primary key. */
  type Table = map<Bytes, Row>

  predicate Keyed(t: Table) {
    forall k :: k in t ==> t[k].credentialId == k
  }

  // ----- conversion -----

  function TransportName(t: Transport): Str {
    match t
    case Usb => [0x75, 0x73, 0x62]
    case Nfc => [0x6E, 0x66, 0x63]
    case Ble => [0x62, 0x6C, 0x65]
    case Internal => [0x69, 0x6E, 0x74, 0x65, 0x72, 0x6E, 0x61, 0x6C]
    case Hybrid => [0x68, 0x79, 0x62, 0x72, 0x69, 0x64]
  }

  /** `Transport(t)`; `None` is a `ValueError`. */
  function TransportNamed(s: Str): Option<Transport> {
    if s == TransportName(Usb) then Some(Usb)
    else if s == TransportName(Nfc) then Some(Nfc)
    else if s == TransportName(Ble) then Some(Ble)
    else if s == TransportName(Internal) then Some(Internal)
    else if s == TransportName(Hybrid) then Some(Hybrid)
    else None
  }

  function TransportNames(ts: seq<Transport>): seq<Str> {
    if ts == [] then [] else [TransportName(ts[0])] + TransportNames(ts[1..])
  }

  function TransportsNamed(names: seq<Str>): Option<seq<Transport>> {
    if names == [] then Some([])
    else
      var t, rest := TransportNamed(names[0]), TransportsNamed(names[1..]);
      if t == None || rest == None then None else Some([t.value] + rest.value)
  }

  function ToRow(c: Credential): Row {
    Row(c.credentialId, c.userId, c.publicKey, c.signCount, TransportNames(c.transports), c.aaguid,
        c.backupEligible, c.backupState, c.deviceName, c.isDiscoverable, c.attestationFmt, c.createdAt, c.lastUsedAt)
  }

  /** `_to_domain`. */
  function ToDomain(r: Row): Option<Credential> {
    var ts := TransportsNamed(r.transports);
    if ts == None then None
    else
      Some(Credential(r.credentialId, r.userId, r.publicKey, r.signCount, ts.value, r.aaguid, r.backupEligible,
                      r.backupState, r.deviceName, r.isDiscoverable, r.attestationFmt, r.createdAt, r.lastUsedAt))
  }

  lemma TransportRoundTrip(t: Transport)
    ensures TransportNamed(TransportName(t)) == Some(t)
  {
    assert TransportName(Usb)[0] == 0x75 && TransportName(Nfc)[0] == 0x6E && TransportName(Ble)[0] == 0x62;
    assert TransportName(Internal)[0] == 0x69 && TransportName(Hybrid)[0] == 0x68;
  }

  lemma {:induction false} TransportsRoundTrip(ts: seq<Transport>)
    ensures TransportsNamed(TransportNames(ts)) == Some(ts)
  {
    if ts != [] {
      TransportRoundTrip(ts[0]);
      TransportsRoundTrip(ts[1..]);
      assert TransportNames(ts)[1..] == TransportNames(ts[1..]);
      assert ts == [ts[0]] + ts[1..];
    }
  }

  /** Every credential survives the trip through its row. */
  lemma RowRoundTrip(c: Credential)
    ensures ToDomain(ToRow(c)) == Some(c)
  {
    TransportsRoundTrip(c.transports);
  }

  // ----- statements -----

  /** INSERT; a duplicate key is an integrity error and changes nothing. */
  function Insert(t: Table, c: Credential): Option<Table> {
    if c.credentialId in t then None else Some(t[c.credentialId := ToRow(c)])
  }

  function Get(t: Table, id: Bytes): Option<Credential> {
    if id in t then ToDomain(t[id]) else None
  }

  function UpdateUsage(t: Table, id: Bytes, signCount: nat, at: Instant): Table {
    map k | k in t :: if t[k].credentialId == id then t[k].(signCount := signCount, lastUsedAt := Some(at)) else t[k]
  }

  function Rename(t: Table, id: Bytes, userId: Str, name: Str): Table {
    map k | k in t :: if t[k].credentialId == id && t[k].userId == userId then t[k].(deviceName := name) else t[k]
  }

  function Delete(t: Table, id: Bytes, userId: Str): Table {
    map k | k in t && !(t[k].credentialId == id && t[k].userId == userId) :: t[k]
  }

  /** The keys a `SELECT … WHERE user_id = …` returns, in some order. */
  function Selected(t: Table, userId: Str): set<Bytes> {
    set k | k in t && t[k].userId == userId
  }

  // ----- rows and lookups after a statement -----

  function RowAt(t: Table, id: Bytes): Option<Row> {
    if id in t then Some(t[id]) else None
  }

  /** The row at `id` after a call, by primary key and WHERE condition. */
  function RowAfter(t: Table, call: RepoCall, id: Bytes): Option<Row> {
    var before := RowAt(t, id);
    match call
    case Add(c) => if c.credentialId == id && before == None then Some(ToRow(c)) else before
    case Usage(x, count, at) =>
      if x == id && before.Some? then Some(before.value.(signCount := count, lastUsedAt := Some(at))) else before
    case SetName(x, userId, name) =>
      if x == id && before.Some? && before.value.userId == userId then Some(before.value.(deviceName := name)) else before
    case Revoke(x, userId) => if x == id && before.Some? && before.value.userId == userId then None else before
  }

  /** A call changes no row but the one at its id. */
  lemma RowsAfter(t: Table, call: RepoCall)
    requires Keyed(t)
    ensures Keyed(OnTable(t, call))
    ensures forall id :: RowAt(OnTable(t, call), id) == RowAfter(t, call, id)
  {
  }

  // ----- refinement of the dict -----

  datatype RepoCall =
    | Add(credential: Credential)
    | Usage(id: Bytes, signCount: nat, at: Instant)
    | SetName(id: Bytes, userId: Str, name: Str)
    | Revoke(id: Bytes, userId: Str)

  function OnTable(t: Table, call: RepoCall): Table {
    match call
    case Add(c) => var r := Insert(t, c); if r == None then t else r.value
    case Usage(id, count, at) => UpdateUsage(t, id, count, at)
    case SetName(id, userId, name) => Rename(t, id, userId, name)
    case Revoke(id, userId) => Delete(t, id, userId)
  }

  function OnDict(repo: Repository.Repo, call: RepoCall): Repository.Repo {
    match call
    case Add(c) => Repository.Assign(repo, c)
    case Usage(id, count, at) => Repository.UpdateUsage(repo, id, count, at)
    case SetName(id, userId, name) => Repository.Rename(repo, id, userId, name)
    case Revoke(id, userId) => Repository.Delete(repo, id, userId)
  }

  function TableAfter(calls: seq<RepoCall>): Table {
    if calls == [] then map[] else OnTable(TableAfter(calls[..|calls| - 1]), calls[|calls| - 1])
  }

  function DictAfter(calls: seq<RepoCall>): Repository.Repo {
    if calls == [] then [] else OnDict(DictAfter(calls[..|calls| - 1]), calls[|calls| - 1])
  }

  /** Same lookups; every row converts. */
  ghost predicate Agrees(t: Table, repo: Repository.Repo) {
    && Keyed(t) && Repository.Unique(repo)
    && (forall k :: k in t ==> ToDomain(t[k]).Some?)
    && (forall id :: Get(t, id) == Repository.Find(repo, id))
  }

  lemma AgreesAt(t: Table, repo: Repository.Repo, id: Bytes)
    requires Agrees(t, repo)
    ensures Get(t, id) == Repository.Find(repo, id)
    ensures id in t <==> Repository.Find(repo, id).Some?
  {
    assert Get(t, id) == Repository.Find(repo, id);
  }

  lemma StepAgrees(t: Table, repo: Repository.Repo, call: RepoCall)
    requires Agrees(t, repo)
    requires call.Add? ==> Repository.Find(repo, call.credential.credentialId) == None
    ensures Agrees(OnTable(t, call), OnDict(repo, call))
  {
    hide Repository.Find, Repository.Assign, Repository.Remove, ToRow, TransportsNamed;
    var t', repo' := OnTable(t, call), OnDict(repo, call);
    var id := if call.Add? then call.credential.credentialId else call.id;
    var found := Repository.Find(repo, id);
    assert Get(t, id) == found;
    match call {
      case Add(c) =>
        RowRoundTrip(c);
        Repository.UniqueOfAssign(repo, c);
      case Usage(_, count, at) =>
        if found.Some? {
          Repository.UniqueOfAssign(repo, found.value.(signCount := count, lastUsedAt := Some(at)));
        }
      case SetName(_, _, name) =>
        if found.Some? {
          Repository.UniqueOfAssign(repo, found.value.(deviceName := name));
        }
      case Revoke(_, _) =>
        Repository.UniqueOfRemove(repo, id);
    }
    forall k ensures Get(t', k) == Repository.Find(repo', k) {
      assert Get(t, k) == Repository.Find(repo, k);
      match call
      case Add(c) => Repository.FindOfAssign(repo, c, k);
      case Usage(_, count, at) =>
        if found.Some? {
          Repository.FindOfAssign(repo, found.value.(signCount := count, lastUsedAt := Some(at)), k);
        }
      case SetName(_, _, name) =>
        if found.Some? {
          Repository.FindOfAssign(repo, found.value.(deviceName := name), k);
        }
      case Revoke(_, _) => Repository.FindOfRemove(repo, id, k);
    }
  }

  /** Agreeing back ends list the same credentials for every user. */
  lemma SameListing(t: Table, repo: Repository.Repo, userId: Str)
    requires Agrees(t, repo)
    ensures forall c :: c in Repository.ListByUser(repo, userId)
                        <==> c.credentialId in Selected(t, userId) && Get(t, c.credentialId) == Some(c)
  {
    forall c
      ensures c in Repository.ListByUser(repo, userId)
              <==> c.credentialId in Selected(t, userId) && Get(t, c.credentialId) == Some(c)
    {
      Repository.ListHoldsOwned(repo, userId, c);
      assert Get(t, c.credentialId) == Repository.Find(repo, c.credentialId);
      Repository.FoundIsStored(repo, c.credentialId);
      if c in repo {
        var i :| 0 <= i < |repo| && repo[i] == c;
        Repository.FindAt(repo, i);
      }
    }
  }

  /**
   Over every sequence of repository calls that adds only absent ids, the table and the dict give the
   same lookups, and the same set of credentials for every user.
   */
  lemma {:induction false} TableRefinesDict(calls: seq<RepoCall>)
    requires forall i :: 0 <= i < |calls| && calls[i].Add? ==>
               Repository.Find(DictAfter(calls[..i]), calls[i].credential.credentialId) == None
    ensures Agrees(TableAfter(calls), DictAfter(calls))
    ensures forall userId, c :: c in Repository.ListByUser(DictAfter(calls), userId)
                                <==> c.credentialId in Selected(TableAfter(calls), userId)
                                     && Get(TableAfter(calls), c.credentialId) == Some(c)
  {
    if calls != [] {
      var n := |calls| - 1;
      assert forall i :: 0 <= i < n ==> calls[..n][..i] == calls[..i];
      TableRefinesDict(calls[..n]);
      StepAgrees(TableAfter(calls[..n]), DictAfter(calls[..n]), calls[n]);
    }
    forall userId
      ensures forall c :: c in Repository.ListByUser(DictAfter(calls), userId)
                          <==> c.credentialId in Selected(TableAfter(calls), userId)
                               && Get(TableAfter(calls), c.credentialId) == Some(c)
    {
      SameListing(TableAfter(calls), DictAfter(calls), userId);
    }
  }

  /**
   An `add` keeps the two alike exactly when the id was absent or the very same credential is stored:
   otherwise the table refuses the row while the dict overwrites its entry.
   */
  lemma AddAgreesIff(t: Table, repo: Repository.Repo, c: Credential)
    requires Agrees(t, repo)
    ensures Agrees(OnTable(t, Add(c)), OnDict(repo, Add(c)))
            <==> Repository.Find(repo, c.credentialId) == None || Repository.Find(repo, c.credentialId) == Some(c)
  {
    assert Get(t, c.credentialId) == Repository.Find(repo, c.credentialId);
    if Repository.Find(repo, c.credentialId) == None {
      StepAgrees(t, repo, Add(c));
    } else {
      var repo' := Repository.Assign(repo, c);
      Repository.UniqueOfAssign(repo, c);
      forall id ensures Repository.Find(repo', id) == if id == c.credentialId then Some(c) else Repository.Find(repo, id) {
        Repository.FindOfAssign(repo, c, id);
      }
      assert OnTable(t, Add(c)) == t;
      if Agrees(t, repo') {
        assert Get(t, c.credentialId) == Repository.Find(repo', c.credentialId);
      }
    }
  }

  /** The repository object: each method is one committed statement. */
  class SqlAlchemyCredentialRepository {
    var rows: Table

    ghost predicate Valid()
      reads this
    {
      Keyed(rows) && forall k :: k in rows ==> ToDomain(rows[k]).Some?
    }

    constructor ()
      ensures Valid() && rows == map[]
    {
      rows := map[];
    }

    /** False is an integrity error. */
    method AddCredential(c: Credential) returns (ok: bool)
      requires Valid()
      modifies this
      ensures Valid()
      ensures ok <==> c.credentialId !in old(rows)
      ensures forall k :: Get(rows, k) == if ok && k == c.credentialId then Some(c) else Get(old(rows), k)
      ensures rows == OnTable(old(rows), Add(c))
    {
      RowRoundTrip(c);
      ok := c.credentialId !in rows;
      if ok {
        rows := rows[c.credentialId := ToRow(c)];
      }
    }

    /** The rows of one user, each once, in whatever order the database yields them. */
    method ListByUser(userId: Str) returns (out: seq<Credential>)
      requires Valid()
      ensures forall c :: c in out <==> c.credentialId in Selected(rows, userId) && Get(rows, c.credentialId) == Some(c)
      ensures forall i, j :: 0 <= i < j < |out| ==> out[i].credentialId != out[j].credentialId
    {
      out := [];
      var pending := Selected(rows, userId);
      while pending != {}
        invariant pending <= Selected(rows, userId)
        invariant forall c :: c in out <==>
                    c.credentialId in Selected(rows, userId) - pending && Get(rows, c.credentialId) == Some(c)
        invariant forall i, j :: 0 <= i < j < |out| ==> out[i].credentialId != out[j].credentialId
        decreases pending
      {
        var k :| k in pending;
        pending := pending - {k};
        var c := ToDomain(rows[k]).value;
        assert forall i :: 0 <= i < |out| ==> out[i] in out;
        out := out + [c];
      }
    }

    method RecordUsage(id: Bytes, signCount: nat, lastUsedAt: Instant)
      requires Valid()
      modifies this
      ensures Valid() && rows == OnTable(old(rows), Usage(id, signCount, lastUsedAt))
      ensures forall k :: Get(rows, k) == (var c := Get(old(rows), k);
                            if k == id && c.Some? then Some(c.value.(signCount := signCount, lastUsedAt := Some(lastUsedAt))) else c)
    {
      RowsAfter(rows, Usage(id, signCount, lastUsedAt));
      rows := UpdateUsage(rows, id, signCount, lastUsedAt);
    }

    method RenameCredential(id: Bytes, userId: Str, name: Str)
      requires Valid()
      modifies this
      ensures Valid() && rows == OnTable(old(rows), SetName(id, userId, name))
      ensures forall k :: Get(rows, k) == (var c := Get(old(rows), k);
                            if k == id && c.Some? && c.value.userId == userId then Some(c.value.(deviceName := name)) else c)
    {
      RowsAfter(rows, SetName(id, userId, name));
      rows := Rename(rows, id, userId, name);
    }

    method DeleteCredential(id: Bytes, userId: Str)
      requires Valid()
      modifies this
      ensures Valid() && rows == OnTable(old(rows), Revoke(id, userId))
      ensures forall k :: Get(rows, k) == (var c := Get(old(rows), k);
                            if k == id && c.Some? && c.value.userId == userId then None else c)
    {
      RowsAfter(rows, Revoke(id, userId));
      rows := Delete(rows, id, userId);
    }
  }
}
