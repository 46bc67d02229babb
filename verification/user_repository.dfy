/**
 * The user table, keyed by Clerk ID.  The upsert's conflict target is the
 * Clerk ID column, which the database can only accept when that column is
 * unique, so the table is a map from Clerk ID to row.  Every operation takes
 * the database's failure (if any) as `fault`, and the mutating ones the
 * identifier the database would generate (`freshId`) and its `NOW()` (`now`).
 * The listing query is a ghost function: which order `Rows` enumerates the
 * map in is a choice the proofs make, and the lemmas show it does not matter.
 */
module UserRepository {
  import opened Wrappers
  import Uuids
  import opened Model
  import Listing

  /** The columns an insert or upsert writes: everything but id and the timestamps. */
  datatype UserInput = UserInput(
    clerkId: string,
    email: string,
    firstName: Option<string>,
    lastName: Option<string>,
    imageUrl: Option<string>)

  datatype UserTable = UserTable(rows: map<string, User>)

  /** What `Upsert` returns: the row as stored, and whether it was newly inserted. */
  datatype Upserted = Upserted(user: User, created: bool)

  /** Each row is filed under its own Clerk ID, and no two rows share an internal id. */
  ghost predicate Valid(t: UserTable) {
    && (forall k :: k in t.rows ==> t.rows[k].clerkId == k)
    && (forall k1, k2 :: k1 in t.rows && k2 in t.rows && t.rows[k1].id == t.rows[k2].id ==> k1 == k2)
  }

  predicate IdInUse(t: UserTable, id: Uuids.Uuid) {
    exists k :: k in t.rows && t.rows[k].id == id
  }

  function Insert(u: UserInput, id: Uuids.Uuid, now: Time): User {
    User(id, u.clerkId, u.email, u.firstName, u.lastName, u.imageUrl, now, now)
  }

  /** The columns an upsert overwrites equal those of the payload. */
  predicate Carries(row: User, u: UserInput) {
    row.email == u.email && row.firstName == u.firstName
      && row.lastName == u.lastName && row.imageUrl == u.imageUrl
  }

  /** INSERT ... ON CONFLICT (clerk_id) DO UPDATE, returning the row and `created`, which is
      true exactly when the returned row's created_at equals its updated_at. */
  function Upsert(t: UserTable, u: UserInput, freshId: Uuids.Uuid, now: Time, fault: Option<string>)
    : (s: Step<UserTable, Upserted>)
    ensures fault.Some? ==> s == Step(t, Err(Backend(fault.value)))
    ensures s.result.Err? ==> s.table == t
    ensures s.result.Ok? ==>
      var row := s.result.value.user;
      && s.table.rows == t.rows[u.clerkId := row]
      && Carries(row, u)
      && row.updatedAt == now
      && s.result.value.created == (row.createdAt == row.updatedAt)
    ensures s.result.Ok? && Valid(t) ==> s.result.value.user.clerkId == u.clerkId
    ensures s.result.Ok? && u.clerkId !in t.rows ==>
      && s.result.value.user.id == freshId
      && s.result.value.user.createdAt == now
      && s.result.value.created
    ensures s.result.Ok? && u.clerkId in t.rows ==>
      && s.result.value.user.id == t.rows[u.clerkId].id
      && s.result.value.user.createdAt == t.rows[u.clerkId].createdAt
    ensures fault.None? && u.clerkId in t.rows ==> s.result.Ok?
    ensures fault.None? && u.clerkId !in t.rows ==> (s.result.Ok? <==> !IdInUse(t, freshId))
  {
    if fault.Some? then Step(t, Err(Backend(fault.value)))
    else if u.clerkId in t.rows then
      var row := t.rows[u.clerkId].(email := u.email, firstName := u.firstName,
        lastName := u.lastName, imageUrl := u.imageUrl, updatedAt := now);
      Step(UserTable(t.rows[u.clerkId := row]), Ok(Upserted(row, row.createdAt == row.updatedAt)))
    else if IdInUse(t, freshId) then Step(t, Err(Backend(UniqueViolation)))
    else
      var row := Insert(u, freshId, now);
      Step(UserTable(t.rows[u.clerkId := row]), Ok(Upserted(row, true)))
  }

  /** Upsert keeps the table well formed: still at most one row per Clerk ID and distinct ids. */
  lemma UpsertValid(t: UserTable, u: UserInput, freshId: Uuids.Uuid, now: Time, fault: Option<string>)
    requires Valid(t)
    ensures Valid(Upsert(t, u, freshId, now, fault).table)
  {
    var s := Upsert(t, u, freshId, now, fault);
    if s.result.Ok? && u.clerkId !in t.rows {
      assert !IdInUse(t, freshId);
    }
  }

  /** Upsert never touches a row filed under a different Clerk ID, and grows the table by one
      row exactly when the Clerk ID was new. */
  lemma UpsertFrame(t: UserTable, u: UserInput, freshId: Uuids.Uuid, now: Time, fault: Option<string>, other: string)
    requires other != u.clerkId
    ensures var s := Upsert(t, u, freshId, now, fault);
      && (other in s.table.rows <==> other in t.rows)
      && (other in t.rows ==> s.table.rows[other] == t.rows[other])
      && |s.table.rows| == if s.result.Ok? && u.clerkId !in t.rows then |t.rows| + 1 else |t.rows|
  {
  }

  /** An update at a strictly later instant than the row's creation reports created = false. */
  lemma UpsertUpdateNotCreated(t: UserTable, u: UserInput, freshId: Uuids.Uuid, now: Time)
    requires u.clerkId in t.rows && t.rows[u.clerkId].createdAt < now
    ensures Upsert(t, u, freshId, now, None).result == Ok(Upserted(
      t.rows[u.clerkId].(email := u.email, firstName := u.firstName, lastName := u.lastName,
        imageUrl := u.imageUrl, updatedAt := now), false))
  {
  }

  /** Delivering the same payload twice leaves exactly one row for the Clerk ID, carrying the
      payload; the first delivery inserts (created), the second, strictly later, updates
      (not created) and keeps id and created_at. */
  lemma UpsertTwice(t: UserTable, u: UserInput, id1: Uuids.Uuid, id2: Uuids.Uuid, now1: Time, now2: Time)
    requires u.clerkId !in t.rows && !IdInUse(t, id1) && now1 < now2
    ensures var s1 := Upsert(t, u, id1, now1, None);
      var s2 := Upsert(s1.table, u, id2, now2, None);
      && s1.result.Ok? && s1.result.value.created
      && s2.result.Ok? && !s2.result.value.created
      && s2.table.rows.Keys == t.rows.Keys + {u.clerkId}
      && Carries(s2.table.rows[u.clerkId], u)
      && s2.table.rows[u.clerkId].id == id1
      && s2.table.rows[u.clerkId].createdAt == now1
      && s2.table.rows[u.clerkId].updatedAt == now2
  {
  }

  /** Upsert is idempotent on the table's contents: repeating it changes nothing but the
      row's updated_at. */
  lemma UpsertIdempotent(t: UserTable, u: UserInput, id1: Uuids.Uuid, id2: Uuids.Uuid, now1: Time, now2: Time)
    requires Upsert(t, u, id1, now1, None).result.Ok?
    ensures var s1 := Upsert(t, u, id1, now1, None);
      var s2 := Upsert(s1.table, u, id2, now2, None);
      && s2.result.Ok?
      && s2.table.rows == s1.table.rows[u.clerkId := s1.table.rows[u.clerkId].(updatedAt := now2)]
  {
  }

  /** DELETE ... WHERE clerk_id = ?; no affected row is `ErrNotFound`. */
  function DeleteByClerkID(t: UserTable, clerkId: string, fault: Option<string>): (s: Step<UserTable, ()>)
    ensures fault.Some? ==> s == Step(t, Err(Backend(fault.value)))
    ensures fault.None? && clerkId !in t.rows ==> s == Step(t, Err(ErrNotFound))
    ensures fault.None? && clerkId in t.rows ==> s == Step(UserTable(t.rows - {clerkId}), Ok(()))
  {
    if fault.Some? then Step(t, Err(Backend(fault.value)))
    else if clerkId !in t.rows then Step(t, Err(ErrNotFound))
    else Step(UserTable(t.rows - {clerkId}), Ok(()))
  }

  /** Deletion keeps the table well formed, removes only its own row, and a repeated delete
      reports `ErrNotFound` without touching anything. */
  lemma DeleteTwice(t: UserTable, clerkId: string)
    requires Valid(t) && clerkId in t.rows
    ensures var s1 := DeleteByClerkID(t, clerkId, None);
      && Valid(s1.table)
      && |s1.table.rows| == |t.rows| - 1
      && (forall k :: k in t.rows && k != clerkId ==> k in s1.table.rows && s1.table.rows[k] == t.rows[k])
      && DeleteByClerkID(s1.table, clerkId, None) == Step(s1.table, Err(ErrNotFound))
  {
  }

  /** SELECT id WHERE clerk_id = ?; an empty result is `ErrNotFound`.  A query function: the
      table is not an output, so it cannot change. */
  function GetInternalIDByClerkID(t: UserTable, clerkId: string, fault: Option<string>)
    : (r: Result<Uuids.Uuid, StoreError>)
    ensures fault.Some? ==> r == Err(Backend(fault.value))
    ensures fault.None? ==> (r.Ok? <==> clerkId in t.rows)
    ensures r.Ok? ==> r.value == t.rows[clerkId].id
    ensures fault.None? && r.Err? ==> r.error == ErrNotFound
  {
    if fault.Some? then Err(Backend(fault.value))
    else if clerkId in t.rows then Ok(t.rows[clerkId].id)
    else Err(ErrNotFound)
  }

  /** After an upsert, the Clerk ID resolves to the id of the stored row. */
  lemma UpsertThenResolve(t: UserTable, u: UserInput, freshId: Uuids.Uuid, now: Time)
    requires Upsert(t, u, freshId, now, None).result.Ok?
    ensures var s := Upsert(t, u, freshId, now, None);
      GetInternalIDByClerkID(s.table, u.clerkId, None) == Ok(s.result.value.user.id)
  {
  }

  /** Plain INSERT: the unique Clerk ID column refuses a second row for the same Clerk ID. */
  function Create(t: UserTable, u: UserInput, freshId: Uuids.Uuid, now: Time, fault: Option<string>)
    : (s: Step<UserTable, User>)
    ensures s.result.Err? ==> s.table == t
    ensures fault.Some? ==> s == Step(t, Err(Backend(fault.value)))
    ensures fault.None? ==> (s.result.Ok? <==> u.clerkId !in t.rows && !IdInUse(t, freshId))
    ensures s.result.Ok? ==>
      && s.result.value == User(freshId, u.clerkId, u.email, u.firstName, u.lastName, u.imageUrl, now, now)
      && s.table.rows == t.rows[u.clerkId := s.result.value]
      && u.clerkId !in t.rows
  {
    if fault.Some? then Step(t, Err(Backend(fault.value)))
    else if u.clerkId in t.rows || IdInUse(t, freshId) then Step(t, Err(Backend(UniqueViolation)))
    else
      var row := Insert(u, freshId, now);
      Step(UserTable(t.rows[u.clerkId := row]), Ok(row))
  }

  /** A plain insert keeps each row under its own Clerk ID and the ids distinct, adding exactly
      one row when it succeeds. */
  lemma CreateValid(t: UserTable, u: UserInput, freshId: Uuids.Uuid, now: Time, fault: Option<string>)
    requires Valid(t)
    ensures var s := Create(t, u, freshId, now, fault);
      && Valid(s.table)
      && (s.result.Ok? ==> |s.table.rows| == |t.rows| + 1 && u.clerkId in s.table.rows)
  {
  }

  /** The rows of the table in some order. */
  ghost function Rows(m: map<string, User>): (r: seq<User>)
    ensures |r| == |m|
    ensures forall x :: x in r <==> x in m.Values
    decreases |m|
  {
    if |m| == 0 then []
    else
      var k :| k in m;
      var rest := m - {k};
      assert |rest| == |m| - 1 by {
        assert rest.Keys == m.Keys - {k};
      }
      var r := [m[k]] + Rows(rest);
      assert forall x :: x in m.Values ==> x == m[k] || x in rest.Values by {
        forall x | x in m.Values
          ensures x == m[k] || x in rest.Values
        {
          var k' :| k' in m && m[k'] == x;
          if k' != k {
            assert k' in rest;
          }
        }
      }
      r
  }

  /** The uuid order: the big-endian value of the 16 bytes. */
  function IdKey(u: User): int {
    Uuids.BytesValue(u.id)
  }

  /** The rows of SELECT * ORDER BY id ASC LIMIT limit OFFSET offset when the query succeeds. */
  ghost function IdPage(t: UserTable, limit: nat, offset: nat): seq<User>
  {
    Listing.Window(Listing.SortBy(Rows(t.rows), IdKey), offset, limit)
  }

  /** `List`: the query's failure, or the page of rows in id order. */
  ghost function List(t: UserTable, limit: nat, offset: nat, fault: Option<string>): Result<seq<User>, StoreError>
  {
    if fault.Some? then Err(Backend(fault.value)) else Ok(IdPage(t, limit, offset))
  }

  /** Strictly ascending in the uuid order (so no two entries share an id). */
  ghost predicate StrictlyAscending(s: seq<User>) {
    forall i, j :: 0 <= i < j < |s| ==> IdKey(s[i]) < IdKey(s[j])
  }

  /** `p` lists the rows of the table, each once, in ascending id order. */
  ghost predicate InIdOrder(p: seq<User>, t: UserTable) {
    |p| == |t.rows| && (forall x :: x in p <==> x in t.rows.Values) && StrictlyAscending(p)
  }

  /** The listing skips the first `offset` rows of the table in ascending id order and holds
      the next ones, at most `limit`: rows of the table only, strictly ascending ids, and as
      many as the window over the whole table allows. */
  lemma ListSpec(t: UserTable, limit: nat, offset: nat, fault: Option<string>)
    requires Valid(t)
    ensures List(t, limit, offset, fault).Err? <==> fault.Some?
    ensures fault.Some? ==> List(t, limit, offset, fault) == Err(Backend(fault.value))
    ensures fault.None? ==>
      exists p :: InIdOrder(p, t) && List(t, limit, offset, fault) == Ok(Listing.Window(p, offset, limit))
    ensures fault.None? ==> var r := List(t, limit, offset, fault).value;
      && (forall i :: 0 <= i < |r| ==> r[i] in t.rows.Values)
      && (forall i, j :: 0 <= i < j < |r| ==> Uuids.BytesValue(r[i].id) < Uuids.BytesValue(r[j].id))
      && |r| == if offset >= |t.rows| then 0 else Listing.Min(limit, |t.rows| - offset)
  {
    var p := SortedInIdOrder(t);
    ListShape(t, limit, offset);
  }

  /** The rows sorted by id list the table in id order. */
  lemma SortedInIdOrder(t: UserTable) returns (p: seq<User>)
    requires Valid(t)
    ensures p == Listing.SortBy(Rows(t.rows), IdKey)
    ensures InIdOrder(p, t)
  {
    p := Listing.SortBy(Rows(t.rows), IdKey);
    PermutationLength(p, Rows(t.rows));
    SortedAscending(t, p);
    SortedEnumerates(t, p);
  }

  lemma ListShape(t: UserTable, limit: nat, offset: nat)
    requires Valid(t)
    ensures var r := IdPage(t, limit, offset);
      && (forall i :: 0 <= i < |r| ==> r[i] in t.rows.Values)
      && (forall i, j :: 0 <= i < j < |r| ==> Uuids.BytesValue(r[i].id) < Uuids.BytesValue(r[j].id))
      && |r| == if offset >= |t.rows| then 0 else Listing.Min(limit, |t.rows| - offset)
  {
    var sorted := Listing.SortBy(Rows(t.rows), IdKey);
    PermutationLength(sorted, Rows(t.rows));
    ListMembers(t, sorted, limit, offset);
    SortedAscending(t, sorted);
    AscendingWindow(sorted, offset, limit);
  }

  /** Only one sequence lists the table's rows in ascending id order, so the listing is that
      sequence's window: which rows an offset skips is fully determined. */
  lemma ListDetermined(t: UserTable, p: seq<User>, limit: nat, offset: nat)
    requires Valid(t)
    requires InIdOrder(p, t)
    ensures List(t, limit, offset, None) == Ok(Listing.Window(p, offset, limit))
  {
    var sorted := SortedInIdOrder(t);
    AscendingUnique(sorted, p);
  }

  /** Two strictly ascending sequences with the same elements are equal. */
  lemma {:induction false} AscendingUnique(a: seq<User>, b: seq<User>)
    requires |a| == |b|
    requires forall x :: x in a <==> x in b
    requires StrictlyAscending(a) && StrictlyAscending(b)
    ensures a == b
    decreases |a|
  {
    if |a| > 0 {
      HeadIsLeast(a, b[0]);
      HeadIsLeast(b, a[0]);
      TailMembers(a, b);
      TailMembers(b, a);
      AscendingUnique(a[1..], b[1..]);
      assert a == [a[0]] + a[1..] && b == [b[0]] + b[1..];
    }
  }

  /** The head of a strictly ascending sequence has the least key, and is the only element
      with that key. */
  lemma HeadIsLeast(a: seq<User>, x: User)
    requires StrictlyAscending(a) && x in a
    ensures IdKey(a[0]) <= IdKey(x)
    ensures IdKey(x) == IdKey(a[0]) ==> x == a[0]
  {
    var i :| 0 <= i < |a| && a[i] == x;
    if i > 0 {
      assert IdKey(a[0]) < IdKey(a[i]);
    }
  }

  /** With equal heads, whatever follows the head of `a` follows the head of `b`. */
  lemma TailMembers(a: seq<User>, b: seq<User>)
    requires forall x :: x in a <==> x in b
    requires StrictlyAscending(a) && StrictlyAscending(b)
    requires |a| > 0 && |b| > 0 && a[0] == b[0]
    ensures forall x :: x in a[1..] ==> x in b[1..]
  {
    forall x | x in a[1..]
      ensures x in b[1..]
    {
      var i :| 0 <= i < |a[1..]| && a[1..][i] == x;
      assert a[i + 1] == x;
      assert IdKey(a[0]) < IdKey(a[i + 1]);
      assert x in b;
      var j :| 0 <= j < |b| && b[j] == x;
      assert j > 0;
      assert b[1..][j - 1] == x;
    }
  }

  /** The sorted rows hold exactly the table's rows. */
  lemma SortedEnumerates(t: UserTable, sorted: seq<User>)
    requires multiset(sorted) == multiset(Rows(t.rows))
    ensures forall x :: x in sorted <==> x in t.rows.Values
  {
    forall x
      ensures x in sorted <==> x in t.rows.Values
    {
      assert x in sorted <==> x in multiset(sorted);
      assert x in Rows(t.rows) <==> x in multiset(Rows(t.rows));
    }
  }

  lemma ListMembers(t: UserTable, sorted: seq<User>, limit: nat, offset: nat)
    requires multiset(sorted) == multiset(Rows(t.rows))
    ensures var r := Listing.Window(sorted, offset, limit);
      forall i :: 0 <= i < |r| ==> r[i] in t.rows.Values
  {
    var r := Listing.Window(sorted, offset, limit);
    forall i | 0 <= i < |r|
      ensures r[i] in t.rows.Values
    {
      var k := RowKey(t.rows, sorted, offset + i);
    }
  }

  /** Sorting the rows of a valid table by id leaves no ties. */
  lemma SortedAscending(t: UserTable, sorted: seq<User>)
    requires Valid(t)
    requires multiset(sorted) == multiset(Rows(t.rows))
    requires Listing.SortedBy(sorted, IdKey)
    ensures StrictlyAscending(sorted)
  {
    forall i, j | 0 <= i < j < |sorted|
      ensures IdKey(sorted[i]) < IdKey(sorted[j])
    {
      SortedStrictly(t, sorted, i, j);
    }
  }

  lemma AscendingWindow(s: seq<User>, offset: nat, limit: nat)
    requires StrictlyAscending(s)
    ensures var r := Listing.Window(s, offset, limit);
      forall i, j :: 0 <= i < j < |r| ==> Uuids.BytesValue(r[i].id) < Uuids.BytesValue(r[j].id)
  {
    var r := Listing.Window(s, offset, limit);
    forall i, j | 0 <= i < j < |r|
      ensures Uuids.BytesValue(r[i].id) < Uuids.BytesValue(r[j].id)
    {
      assert r[i] == s[offset + i] && r[j] == s[offset + j];
    }
  }

  lemma SortedStrictly(t: UserTable, sorted: seq<User>, i: nat, j: nat)
    requires Valid(t)
    requires multiset(sorted) == multiset(Rows(t.rows))
    requires Listing.SortedBy(sorted, IdKey)
    requires i < j < |sorted|
    ensures Uuids.BytesValue(sorted[i].id) < Uuids.BytesValue(sorted[j].id)
  {
    DistinctPositions(t, sorted, i, j);
    StrictlyBelow(sorted[i], sorted[j]);
  }

  lemma StrictlyBelow(a: User, b: User)
    requires IdKey(a) <= IdKey(b) && a.id != b.id
    ensures Uuids.BytesValue(a.id) < Uuids.BytesValue(b.id)
  {
    if Uuids.BytesValue(a.id) == Uuids.BytesValue(b.id) {
      Uuids.BytesValueInjective(a.id, b.id);
    }
  }

  lemma PermutationLength<T>(a: seq<T>, b: seq<T>)
    requires multiset(a) == multiset(b)
    ensures |a| == |b|
  {
    assert |multiset(a)| == |a| && |multiset(b)| == |b|;
  }

  /** Two positions of a listing of a valid table hold rows with different ids. */
  lemma DistinctPositions(t: UserTable, sorted: seq<User>, i: nat, j: nat)
    requires Valid(t)
    requires multiset(sorted) == multiset(Rows(t.rows))
    requires i < j < |sorted|
    ensures sorted[i].id != sorted[j].id
  {
    var x, y := sorted[i], sorted[j];
    var ki := RowKey(t.rows, sorted, i);
    var kj := RowKey(t.rows, sorted, j);
    if x.id == y.id {
      assert ki == kj;
      TwiceCounted(sorted, i, j);
      RowsOnce(t.rows, x);
    }
  }

  /** Every element of a rearrangement of the rows is filed under some key. */
  lemma RowKey(m: map<string, User>, sorted: seq<User>, i: nat) returns (k: string)
    requires multiset(sorted) == multiset(Rows(m))
    requires i < |sorted|
    ensures k in m && m[k] == sorted[i]
  {
    var x := sorted[i];
    assert x in multiset(sorted);
    assert x in Rows(m);
    assert x in m.Values;
    k :| k in m && m[k] == x;
  }

  /** An element at two positions is counted at least twice. */
  lemma TwiceCounted<T>(s: seq<T>, i: nat, j: nat)
    requires i < j < |s| && s[i] == s[j]
    ensures multiset(s)[s[i]] >= 2
  {
    assert s == s[..j] + s[j..];
    assert s[i] in s[..j];
    assert s[j..] == [s[j]] + s[j + 1..];
  }

  /** When ids are distinct, each row value appears once among the rows. */
  lemma {:induction false} RowsOnce(m: map<string, User>, x: User)
    requires forall k1, k2 :: k1 in m && k2 in m && m[k1].id == m[k2].id ==> k1 == k2
    ensures multiset(Rows(m))[x] <= 1
    decreases |m|
  {
    if |m| > 0 {
      var k := RowsHead(m);
      var rest := m - {k};
      RowsOnce(rest, x);
      if x == m[k] {
        assert x !in rest.Values;
        assert x !in Rows(rest);
      }
    }
  }

  /** The key `Rows` picked first, and the decomposition it produced. */
  lemma RowsHead(m: map<string, User>) returns (k: string)
    requires |m| > 0
    ensures k in m && Rows(m) == [m[k]] + Rows(m - {k})
  {
    var r := Rows(m);
    k :| k in m && r == [m[k]] + Rows(m - {k});
  }
}
