/**
 The credential repository as a Python dict behaves: an insertion-ordered list of credentials with
 distinct ids. Overwriting an id keeps its place, deleting and adding it again moves it to the end.
 */
module Repository {
  import opened Prelude
  import opened Domain

  type Repo = seq<Credential>

  /** `get_by_credential_id`. */
  function Find(rows: Repo, id: Bytes): (r: Option<Credential>)
    ensures r.Some? ==> r.value.credentialId == id
  {
    if rows == [] then None
    else if rows[0].credentialId == id then Some(rows[0])
    else Find(rows[1..], id)
  }

  /** Dict assignment at the credential's own id. */
  function Assign(rows: Repo, c: Credential): Repo {
    if rows == [] then [c]
    else if rows[0].credentialId == c.credentialId then [c] + rows[1..]
    else [rows[0]] + Assign(rows[1..], c)
  }

  /** `del` at an id. */
  function Remove(rows: Repo, id: Bytes): Repo {
    if rows == [] then []
    else if rows[0].credentialId == id then rows[1..]
    else [rows[0]] + Remove(rows[1..], id)
  }

  /** `list_by_user`. */
  function ListByUser(rows: Repo, userId: Str): Repo {
    if rows == [] then []
    else if rows[0].userId == userId then [rows[0]] + ListByUser(rows[1..], userId)
    else ListByUser(rows[1..], userId)
  }

  function UpdateUsage(rows: Repo, id: Bytes, signCount: nat, at: Instant): Repo {
    match Find(rows, id)
    case None => rows
    case Some(c) => Assign(rows, c.(signCount := signCount, lastUsedAt := Some(at)))
  }

  function Rename(rows: Repo, id: Bytes, userId: Str, name: Str): Repo {
    match Find(rows, id)
    case None => rows
    case Some(c) => if c.userId == userId then Assign(rows, c.(deviceName := name)) else rows
  }

  function Delete(rows: Repo, id: Bytes, userId: Str): Repo {
    match Find(rows, id)
    case None => rows
    case Some(c) => if c.userId == userId then Remove(rows, id) else rows
  }

  ghost predicate Unique(rows: Repo) {
    forall i, j :: 0 <= i < j < |rows| ==> rows[i].credentialId != rows[j].credentialId
  }

  // ----- lookups after updates -----

  lemma {:induction false} FindOfAssign(rows: Repo, c: Credential, id: Bytes)
    ensures Find(Assign(rows, c), id) == if id == c.credentialId then Some(c) else Find(rows, id)
  {
    if rows != [] && rows[0].credentialId != c.credentialId {
      FindOfAssign(rows[1..], c, id);
      assert Assign(rows, c)[1..] == Assign(rows[1..], c);
    } else if rows != [] {
      assert Assign(rows, c)[1..] == rows[1..];
    }
  }

  lemma {:induction false} FindNoneIff(rows: Repo, id: Bytes)
    ensures Find(rows, id) == None <==> forall i :: 0 <= i < |rows| ==> rows[i].credentialId != id
  {
    if rows != [] && rows[0].credentialId != id {
      var tail := rows[1..];
      FindNoneIff(tail, id);
      assert forall i :: 0 <= i < |tail| ==> tail[i] == rows[i + 1];
      assert forall i :: 0 < i < |rows| ==> rows[i] == tail[i - 1];
    }
  }

  lemma {:induction false} FoundIsStored(rows: Repo, id: Bytes)
    ensures Find(rows, id).Some? ==> Find(rows, id).value in rows
  {
    if rows != [] && rows[0].credentialId != id {
      FoundIsStored(rows[1..], id);
    }
  }

  lemma FirstNotInTail(rows: Repo)
    requires rows != [] && Unique(rows)
    ensures Unique(rows[1..]) && Find(rows[1..], rows[0].credentialId) == None
  {
    FindNoneIff(rows[1..], rows[0].credentialId);
  }

  lemma {:induction false} FindAt(rows: Repo, i: nat)
    requires Unique(rows) && i < |rows|
    ensures Find(rows, rows[i].credentialId) == Some(rows[i])
  {
    if i > 0 {
      assert rows[0].credentialId != rows[i].credentialId;
      assert Unique(rows[1..]);
      FindAt(rows[1..], i - 1);
    }
  }

  lemma {:induction false} FindOfRemove(rows: Repo, gone: Bytes, id: Bytes)
    requires Unique(rows)
    ensures Find(Remove(rows, gone), id) == if id == gone then None else Find(rows, id)
  {
    if rows != [] {
      FirstNotInTail(rows);
      if rows[0].credentialId != gone {
        FindOfRemove(rows[1..], gone, id);
        assert Remove(rows, gone)[1..] == Remove(rows[1..], gone);
      }
    }
  }

  lemma {:induction false} UniqueOfAssign(rows: Repo, c: Credential)
    requires Unique(rows)
    ensures Unique(Assign(rows, c))
  {
    if rows != [] && rows[0].credentialId != c.credentialId {
      FirstNotInTail(rows);
      UniqueOfAssign(rows[1..], c);
      FindOfAssign(rows[1..], c, rows[0].credentialId);
      FindNoneIff(Assign(rows[1..], c), rows[0].credentialId);
    }
  }

  lemma {:induction false} UniqueOfRemove(rows: Repo, id: Bytes)
    requires Unique(rows)
    ensures Unique(Remove(rows, id))
  {
    if rows != [] {
      FirstNotInTail(rows);
      if rows[0].credentialId != id {
        UniqueOfRemove(rows[1..], id);
        FindOfRemove(rows[1..], id, rows[0].credentialId);
        FindNoneIff(Remove(rows[1..], id), rows[0].credentialId);
      }
    }
  }

  // ----- listings after updates -----

  /** Assigning a credential that its user already owns, or adding one, leaves every other listing alone. */
  lemma {:induction false} ListOfAssign(rows: Repo, c: Credential, userId: Str)
    requires Find(rows, c.credentialId).Some? ==> Find(rows, c.credentialId).value.userId == c.userId
    ensures userId != c.userId ==> ListByUser(Assign(rows, c), userId) == ListByUser(rows, userId)
    ensures userId == c.userId ==> ListByUser(Assign(rows, c), userId) == Assign(ListByUser(rows, userId), c)
  {
    if rows != [] {
      if rows[0].credentialId != c.credentialId {
        ListOfAssign(rows[1..], c, userId);
        assert Assign(rows, c)[1..] == Assign(rows[1..], c);
        if rows[0].userId == userId {
          assert ListByUser(rows, userId)[1..] == ListByUser(rows[1..], userId);
        }
      } else {
        assert Assign(rows, c)[1..] == rows[1..];
        if rows[0].userId == userId {
          assert ListByUser(rows, userId)[1..] == ListByUser(rows[1..], userId);
        }
      }
    }
  }

  lemma {:induction false} ListOfRemove(rows: Repo, id: Bytes, userId: Str)
    requires Find(rows, id).Some? ==> Find(rows, id).value.userId != userId
    ensures ListByUser(Remove(rows, id), userId) == ListByUser(rows, userId)
  {
    if rows != [] && rows[0].credentialId != id {
      ListOfRemove(rows[1..], id, userId);
      assert Remove(rows, id)[1..] == Remove(rows[1..], id);
    }
  }

  /** A listing holds exactly the stored credentials of the user. */
  lemma {:induction false} ListHoldsOwned(rows: Repo, userId: Str, c: Credential)
    ensures c in ListByUser(rows, userId) <==> c in rows && c.userId == userId
  {
    if rows != [] {
      ListHoldsOwned(rows[1..], userId, c);
      assert rows == [rows[0]] + rows[1..];
    }
  }
}
