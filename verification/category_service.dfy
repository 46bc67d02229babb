/**
 * Category operations addressed by Clerk ID: each first resolves the Clerk ID
 * to the internal user id through the user table, and fails with a wrapped
 * error if that fails.
 */
module CategoryService {
  import opened Wrappers
  import Uuids
  import opened Model
  import UserRepository
  import CategoryRepository

  /** The context `fmt.Errorf` puts in front of a resolution failure. */
  function ResolveContext(clerkId: string): string {
    "failed to get internal user ID for clerk " + clerkId
  }

  /** Clerk ID to internal id, with the failure wrapped. */
  function Resolve(users: UserRepository.UserTable, clerkId: string, userFault: Option<string>)
    : (r: Result<Uuids.Uuid, StoreError>)
    ensures r.Ok? <==> userFault.None? && clerkId in users.rows
    ensures r.Ok? ==> r.value == users.rows[clerkId].id
    ensures r.Err? ==> r.error.Wrapped? && r.error.context == ResolveContext(clerkId)
    ensures r.Err? ==> (Is(r.error, ErrNotFound) <==> userFault.None?)
  {
    match UserRepository.GetInternalIDByClerkID(users, clerkId, userFault)
    case Ok(id) => Ok(id)
    case Err(cause) => Err(Wrapped(ResolveContext(clerkId), cause))
  }

  /** `ListByUser`: the categories of the user the Clerk ID resolves to, or the wrapped
      resolution failure without any listing. */
  function ListByUser(users: UserRepository.UserTable, cats: CategoryRepository.CategoryTable, clerkId: string,
                      limit: nat, offset: nat, userFault: Option<string>, fault: Option<string>)
    : (r: Result<seq<Category>, StoreError>)
    ensures Resolve(users, clerkId, userFault).Err? ==> r == Err(Resolve(users, clerkId, userFault).error)
    ensures r.Ok? ==> clerkId in users.rows
    ensures r.Ok? && clerkId in users.rows ==>
      forall i :: 0 <= i < |r.value| ==> r.value[i].userId == users.rows[clerkId].id && r.value[i] in cats.rows
    ensures r.Ok? ==> forall i, j :: 0 <= i < j < |r.value| ==> r.value[i].createdAt >= r.value[j].createdAt
    ensures Resolve(users, clerkId, userFault).Ok? ==>
      r == CategoryRepository.ListByUser(cats, Resolve(users, clerkId, userFault).value, limit, offset, fault)
  {
    match Resolve(users, clerkId, userFault)
    case Err(e) => Err(e)
    case Ok(userId) => CategoryRepository.ListByUser(cats, userId, limit, offset, fault)
  }

  /** `Create`: the category is stored under the resolved user, whatever user id it carried. */
  function Create(users: UserRepository.UserTable, cats: CategoryRepository.CategoryTable, clerkId: string,
                  c: Category, freshId: Uuids.Uuid, now: Time, userFault: Option<string>, fault: Option<string>)
    : (s: Step<CategoryRepository.CategoryTable, Category>)
    ensures s.result.Err? ==> s.table == cats
    ensures Resolve(users, clerkId, userFault).Err? ==> s.result == Err(Resolve(users, clerkId, userFault).error)
    ensures s.result.Ok? ==>
      && clerkId in users.rows
      && s.result.value.userId == users.rows[clerkId].id
      && s.result.value.name == c.name
      && s.result.value.description == c.description
      && s.result.value.colorHex == c.colorHex
      && s.result.value.id == freshId
      && s.result.value.createdAt == now
      && s.table.rows == cats.rows + [s.result.value]
    ensures Resolve(users, clerkId, userFault).Ok? ==>
      s == CategoryRepository.Create(cats, c.(userId := Resolve(users, clerkId, userFault).value), freshId, now, fault)
  {
    match Resolve(users, clerkId, userFault)
    case Err(e) => Step(cats, Err(e))
    case Ok(userId) => CategoryRepository.Create(cats, c.(userId := userId), freshId, now, fault)
  }

  /** The user id the caller put in the category plays no part. */
  lemma CreateIgnoresCallerUserId(users: UserRepository.UserTable, cats: CategoryRepository.CategoryTable,
                                  clerkId: string, c: Category, other: Uuids.Uuid, freshId: Uuids.Uuid,
                                  now: Time, userFault: Option<string>, fault: Option<string>)
    ensures Create(users, cats, clerkId, c, freshId, now, userFault, fault)
         == Create(users, cats, clerkId, c.(userId := other), freshId, now, userFault, fault)
  {
  }

  /** A category created through the service is listed for the same Clerk ID by a page that
      covers all of that user's categories. */
  lemma CreateThenList(users: UserRepository.UserTable, cats: CategoryRepository.CategoryTable, clerkId: string,
                       c: Category, freshId: Uuids.Uuid, now: Time, limit: nat)
    requires Create(users, cats, clerkId, c, freshId, now, None, None).result.Ok?
    ensures var s := Create(users, cats, clerkId, c, freshId, now, None, None);
      limit >= |CategoryRepository.Owned(s.table, users.rows[clerkId].id)| ==>
        s.result.value in ListByUser(users, s.table, clerkId, limit, 0, None, None).value
  {
    var s := Create(users, cats, clerkId, c, freshId, now, None, None);
    var id := users.rows[clerkId].id;
    var row := s.result.value;
    if limit >= |CategoryRepository.Owned(s.table, id)| {
      CategoryRepository.CreateThenList(cats, c.(userId := id), freshId, now, id);
      CategoryRepository.ListByUserComplete(s.table, id, limit);
      var listed := ListByUser(users, s.table, clerkId, limit, 0, None, None).value;
      var owned := CategoryRepository.Owned(s.table, id);
      assert owned[|owned| - 1] == row;
      assert row in multiset(owned);
      assert row in multiset(listed);
    }
  }
}
