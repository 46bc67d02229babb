/**
 * The expense table as a sequence of rows in insertion order.  Listing is a
 * filter on the owner, newest first, then OFFSET/LIMIT; creation appends one
 * row whose id and created_at the database supplies.
 */
module ExpenseRepository {
  import opened Wrappers
  import Uuids
  import opened Model
  import Listing

  datatype ExpenseTable = ExpenseTable(rows: seq<Expense>)

  function OwnedBy(userId: Uuids.Uuid): Expense -> bool {
    (e: Expense) => e.userId == userId
  }

  /** ORDER BY created_at DESC, as an ascending key. */
  function NewestFirst(e: Expense): int {
    -e.createdAt
  }

  /** The rows of one user, in insertion order. */
  function Owned(t: ExpenseTable, userId: Uuids.Uuid): seq<Expense> {
    Listing.Filter(t.rows, OwnedBy(userId))
  }

  predicate IdInUse(t: ExpenseTable, id: Uuids.Uuid) {
    exists i :: 0 <= i < |t.rows| && t.rows[i].id == id
  }

  /** SELECT * WHERE user_id = userId ORDER BY created_at DESC LIMIT limit OFFSET offset.
      A query function: the table is not an output, so it cannot change. */
  function ListByUser(t: ExpenseTable, userId: Uuids.Uuid, limit: nat, offset: nat, fault: Option<string>)
    : (r: Result<seq<Expense>, StoreError>)
    ensures fault.Some? <==> r.Err?
    ensures r.Err? ==> r.error == Backend(fault.value)
    ensures r.Ok? ==> forall i :: 0 <= i < |r.value| ==> r.value[i].userId == userId && r.value[i] in t.rows
    ensures r.Ok? ==> forall i, j :: 0 <= i < j < |r.value| ==> r.value[i].createdAt >= r.value[j].createdAt
    ensures r.Ok? ==> multiset(r.value) <= multiset(Owned(t, userId))
    ensures r.Ok? ==>
      exists p :: Listing.Arranged(p, t.rows, OwnedBy(userId), NewestFirst) && r.value == Listing.Window(p, offset, limit)
    ensures r.Ok? ==> var n := |Owned(t, userId)|;
      |r.value| == if offset >= n then 0 else Listing.Min(limit, n - offset)
  {
    if fault.Some? then Err(Backend(fault.value))
    else
      var page := Listing.Page(t.rows, OwnedBy(userId), NewestFirst, offset, limit);
      assert forall i :: 0 <= i < |page| ==> page[i] in page;
      Ok(page)
  }

  /** A page large enough lists every expense of the user, each exactly as often as stored. */
  lemma ListByUserComplete(t: ExpenseTable, userId: Uuids.Uuid, limit: nat)
    requires limit >= |Owned(t, userId)|
    ensures ListByUser(t, userId, limit, 0, None).Ok?
    ensures multiset(ListByUser(t, userId, limit, 0, None).value) == multiset(Owned(t, userId))
  {
    Listing.PageComplete(t.rows, OwnedBy(userId), NewestFirst, limit);
  }

  /** INSERT of the caller's columns RETURNING all columns: the row gets the generated id and
      the creation time; an id already present is a primary-key violation. */
  function Create(t: ExpenseTable, e: Expense, freshId: Uuids.Uuid, now: Time, fault: Option<string>)
    : (s: Step<ExpenseTable, Expense>)
    ensures s.result.Err? ==> s.table == t
    ensures fault.Some? ==> s.result == Err(Backend(fault.value))
    ensures fault.None? ==> (s.result.Ok? <==> !IdInUse(t, freshId))
    ensures s.result.Ok? ==>
      && s.table.rows == t.rows + [s.result.value]
      && s.result.value.id == freshId
      && s.result.value.createdAt == now
      && s.result.value.userId == e.userId
      && s.result.value.amount == e.amount
      && s.result.value.description == e.description
      && s.result.value.purchaseDate == e.purchaseDate
      && s.result.value.billDate == e.billDate
      && s.result.value.categoryId == e.categoryId
  {
    if fault.Some? then Step(t, Err(Backend(fault.value)))
    else if IdInUse(t, freshId) then Step(t, Err(Backend(UniqueViolation)))
    else
      var row := e.(id := freshId, createdAt := now);
      Step(ExpenseTable(t.rows + [row]), Ok(row))
  }

  /** A created expense is listed for its owner (by a page wide enough), and the owner's
      other expenses are the same as before; no other user's rows change. */
  lemma CreateThenList(t: ExpenseTable, e: Expense, freshId: Uuids.Uuid, now: Time, other: Uuids.Uuid)
    requires Create(t, e, freshId, now, None).result.Ok?
    ensures var s := Create(t, e, freshId, now, None);
      && Owned(s.table, e.userId) == Owned(t, e.userId) + [s.result.value]
      && (other != e.userId ==> Owned(s.table, other) == Owned(t, other))
  {
    var s := Create(t, e, freshId, now, None);
    Listing.FilterAppend(t.rows, s.result.value, OwnedBy(e.userId));
    Listing.FilterAppend(t.rows, s.result.value, OwnedBy(other));
  }
}
