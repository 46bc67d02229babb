/**
 * Expense creation with its ownership rule: an expense may name a category
 * only if that category exists and belongs to the expense's user.  The
 * category lookup by id is not part of this model's repositories; its outcome
 * is an input.
 */
module ExpenseService {
  import opened Wrappers
  import Uuids
  import opened Model
  import ExpenseRepository
  import CategoryRepository

  /** What looking a category up by id can report: a failure, no such row, or the row. */
  datatype CategoryLookup = LookupFailed(error: StoreError) | Absent | Found(category: Category)

  /** `Create`: with a category id, the checks run in the order lookup failure, absence,
      foreign owner; only when all pass (or there is no category id) is the expense inserted. */
  function Create(t: ExpenseRepository.ExpenseTable, e: Expense, lookup: CategoryLookup,
                  freshId: Uuids.Uuid, now: Time, fault: Option<string>)
    : (s: Step<ExpenseRepository.ExpenseTable, Expense>)
    ensures e.categoryId.Some? && lookup.LookupFailed? ==> s == Step(t, Err(lookup.error))
    ensures e.categoryId.Some? && lookup.Absent? ==> s == Step(t, Err(ErrNotFound))
    ensures e.categoryId.Some? && lookup.Found? && lookup.category.userId != e.userId ==>
      s == Step(t, Err(ErrForbidden))
    ensures e.categoryId.None? || (lookup.Found? && lookup.category.userId == e.userId) ==>
      s == ExpenseRepository.Create(t, e, freshId, now, fault)
    ensures s.result.Ok? ==> e.categoryId.None? || (lookup.Found? && lookup.category.userId == e.userId)
  {
    if e.categoryId.Some? then
      match lookup
      case LookupFailed(err) => Step(t, Err(err))
      case Absent => Step(t, Err(ErrNotFound))
      case Found(c) =>
        if c.userId != e.userId then Step(t, Err(ErrForbidden))
        else ExpenseRepository.Create(t, e, freshId, now, fault)
    else ExpenseRepository.Create(t, e, freshId, now, fault)
  }

  /** Without a category id the lookup is never consulted: any two outcomes give the same result. */
  lemma NoCategoryIgnoresLookup(t: ExpenseRepository.ExpenseTable, e: Expense, l1: CategoryLookup, l2: CategoryLookup,
                                freshId: Uuids.Uuid, now: Time, fault: Option<string>)
    requires e.categoryId.None?
    ensures Create(t, e, l1, freshId, now, fault) == Create(t, e, l2, freshId, now, fault)
  {
  }

  /** The lookup a category table answers: the first row with the id, if any. */
  function FindCategory(ct: CategoryRepository.CategoryTable, id: Uuids.Uuid): (l: CategoryLookup)
    ensures l.Found? ==> l.category in ct.rows && l.category.id == id
    ensures l.Absent? <==> forall i :: 0 <= i < |ct.rows| ==> ct.rows[i].id != id
    ensures !l.LookupFailed?
    decreases |ct.rows|
  {
    if |ct.rows| == 0 then Absent
    else if ct.rows[0].id == id then Found(ct.rows[0])
    else
      var rest := FindCategory(CategoryRepository.CategoryTable(ct.rows[1..]), id);
      assert forall i :: 1 <= i < |ct.rows| ==> ct.rows[i] == ct.rows[1..][i - 1];
      rest
  }

  /** Every expense that names a category names one of its own user's categories. */
  ghost predicate CategoriesOwned(et: ExpenseRepository.ExpenseTable, ct: CategoryRepository.CategoryTable) {
    forall i :: 0 <= i < |et.rows| && et.rows[i].categoryId.Some? ==>
      exists c :: c in ct.rows && c.id == et.rows[i].categoryId.value && c.userId == et.rows[i].userId
  }

  /** When the lookup reports what the category table holds, creating an expense keeps every
      expense's category owned by the expense's user. */
  lemma CreateKeepsCategoriesOwned(et: ExpenseRepository.ExpenseTable, ct: CategoryRepository.CategoryTable,
                                   e: Expense, freshId: Uuids.Uuid, now: Time, fault: Option<string>)
    requires CategoriesOwned(et, ct)
    requires e.categoryId.Some?
    ensures var s := Create(et, e, FindCategory(ct, e.categoryId.value), freshId, now, fault);
      CategoriesOwned(s.table, ct)
  {
    var lookup := FindCategory(ct, e.categoryId.value);
    var s := Create(et, e, lookup, freshId, now, fault);
    if s.result.Ok? {
      var rows := s.table.rows;
      assert rows == et.rows + [s.result.value];
      forall i | 0 <= i < |rows| && rows[i].categoryId.Some?
        ensures exists c :: c in ct.rows && c.id == rows[i].categoryId.value && c.userId == rows[i].userId
      {
        if i < |et.rows| {
          assert rows[i] == et.rows[i];
        } else {
          assert lookup.category.id == rows[i].categoryId.value;
        }
      }
    }
  }

  /** A category that exists but belongs to someone else is refused even when the lookup is
      the table's answer; absence is reported before ownership. */
  lemma ForeignCategoryRefused(et: ExpenseRepository.ExpenseTable, ct: CategoryRepository.CategoryTable,
                               e: Expense, freshId: Uuids.Uuid, now: Time, fault: Option<string>)
    requires e.categoryId.Some?
    requires forall c :: c in ct.rows && c.id == e.categoryId.value ==> c.userId != e.userId
    ensures var r := Create(et, e, FindCategory(ct, e.categoryId.value), freshId, now, fault).result;
      r == Err(ErrForbidden) || r == Err(ErrNotFound)
  {
  }
}
