/**
 * The category table as a sequence of rows in insertion order.  Listing is a
 * filter on the owner, newest first, then OFFSET/LIMIT; creation appends one
 * row whose id and created_at the database supplies.  Nothing makes names
 * unique: only the generated id can clash.
 */
module CategoryRepository {
  import opened Wrappers
  import Uuids
  import opened Model
  import Listing

  datatype CategoryTable = CategoryTable(rows: seq<Category>)

  function OwnedBy(userId: Uuids.Uuid): Category -> bool {
    (c: Category) => c.userId == userId
  }

  /** ORDER BY created_at DESC, as an ascending key. */
  function NewestFirst(c: Category): int {
    -c.createdAt
  }

  /** The rows of one user, in insertion order. */
  function Owned(t: CategoryTable, userId: Uuids.Uuid): seq<Category> {
    Listing.Filter(t.rows, OwnedBy(userId))
  }

  predicate IdInUse(t: CategoryTable, id: Uuids.Uuid) {
    exists i :: 0 <= i < |t.rows| && t.rows[i].id == id
  }

  /** SELECT * WHERE user_id = userId ORDER BY created_at DESC LIMIT limit OFFSET offset.
      A query function: the table is not an output, so it cannot change. */
  function ListByUser(t: CategoryTable, userId: Uuids.Uuid, limit: nat, offset: nat, fault: Option<string>)
    : (r: Result<seq<Category>, StoreError>)
    ensures fault.Some? <==> r.Err?
    ensures r.Err? ==> r.error == Backend(fault.value)
    ensures r.Ok? ==> forall i :: 0 <= i < |r.value| ==> r.value[i].userId == userId && r.value[i] in t.rows
    ensures r.Ok? ==> forall i, j :: 0 <= i < j < |r.value| ==> r.value[i].createdAt >= r.value[j].createdAt
    ensures r.Ok? ==> multiset(r.value) <= multiset(Owned(t, userId))
    ensures r.Ok? ==>
      exists p :: Listing.Arranged(p, t.rows, OwnedBy(userId), NewestFirst) && r.value == Listing.Window(p, offset, limit)
    ensures r.Ok? ==> var n := |Owned(t, userId)|;
      |r.value| == if offset >= n then 0 else Listing.Min(limit, n - offset)
  {
    if fault.Some? then Err(Backend(fault.value))
    else
      var page := Listing.Page(t.rows, OwnedBy(userId), NewestFirst, offset, limit);
      assert forall i :: 0 <= i < |page| ==> page[i] in page;
      Ok(page)
  }

  /** A page large enough lists every category of the user, each exactly as often as stored. */
  lemma ListByUserComplete(t: CategoryTable, userId: Uuids.Uuid, limit: nat)
    requires limit >= |Owned(t, userId)|
    ensures ListByUser(t, userId, limit, 0, None).Ok?
    ensures multiset(ListByUser(t, userId, limit, 0, None).value) == multiset(Owned(t, userId))
  {
    Listing.PageComplete(t.rows, OwnedBy(userId), NewestFirst, limit);
  }

  /** INSERT of the caller's columns RETURNING all columns: the row gets the generated id and
      the creation time; an id already present is a primary-key violation. */
  function Create(t: CategoryTable, c: Category, freshId: Uuids.Uuid, now: Time, fault: Option<string>)
    : (s: Step<CategoryTable, Category>)
    ensures s.result.Err? ==> s.table == t
    ensures fault.Some? ==> s.result == Err(Backend(fault.value))
    ensures fault.None? ==> (s.result.Ok? <==> !IdInUse(t, freshId))
    ensures s.result.Ok? ==>
      && s.table.rows == t.rows + [s.result.value]
      && s.result.value.id == freshId
      && s.result.value.createdAt == now
      && s.result.value.userId == c.userId
      && s.result.value.name == c.name
      && s.result.value.description == c.description
      && s.result.value.colorHex == c.colorHex
  {
    if fault.Some? then Step(t, Err(Backend(fault.value)))
    else if IdInUse(t, freshId) then Step(t, Err(Backend(UniqueViolation)))
    else
      var row := c.(id := freshId, createdAt := now);
      Step(CategoryTable(t.rows + [row]), Ok(row))
  }

  /** A created category is listed for its owner (by a page wide enough), and the owner's
      other categories are the same as before; no other user's rows change. */
  lemma CreateThenList(t: CategoryTable, c: Category, freshId: Uuids.Uuid, now: Time, other: Uuids.Uuid)
    requires Create(t, c, freshId, now, None).result.Ok?
    ensures var s := Create(t, c, freshId, now, None);
      && Owned(s.table, c.userId) == Owned(t, c.userId) + [s.result.value]
      && (other != c.userId ==> Owned(s.table, other) == Owned(t, other))
  {
    var s := Create(t, c, freshId, now, None);
    Listing.FilterAppend(t.rows, s.result.value, OwnedBy(c.userId));
    Listing.FilterAppend(t.rows, s.result.value, OwnedBy(other));
  }

  /** Two categories of one user may share a name: a second insert with the same name succeeds
      whenever its generated id is new. */
  lemma SameNameAllowed(t: CategoryTable, c: Category, c2: Category, id1: Uuids.Uuid, id2: Uuids.Uuid, now: Time)
    requires c2.userId == c.userId && c2.name == c.name
    requires !IdInUse(t, id1) && id1 != id2 && !IdInUse(t, id2)
    ensures var s1 := Create(t, c, id1, now, None);
      && s1.result.Ok?
      && Create(s1.table, c2, id2, now, None).result.Ok?
  {
    var s1 := Create(t, c, id1, now, None);
    assert !IdInUse(s1.table, id2) by {
      assert forall i :: 0 <= i < |t.rows| ==> s1.table.rows[i] == t.rows[i];
    }
  }
}
