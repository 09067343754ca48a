/** The generation history (backend/history.py): the `generations` table,
    saving a generation (an update when the user already has an active one
    with the same product name, an insert otherwise), the soft delete, and
    the listing of a user's newest active generations.

    The table is a sequence of rows. The database's own choices are
    parameters: the id it assigns to an inserted row (required to be unused)
    and the time `now()` reads. */
module History {
  import opened Wrappers
  import opened Json

  // ------------------------------------------------------------------
  // Rows, drafts and listed entries
  // ------------------------------------------------------------------

  /** `data_status`: 'A' for an active row, 'D' for a soft-deleted one. */
  datatype Status = Active | Deleted

  datatype Row = Row(
    id: string,
    userId: string,
    productName: string,
    productCategory: string,
    targetAudience: string,
    userDescription: string,
    targetLanguage: string,
    imageUrls: Json,
    finalDescription: string,
    dataStatus: Status,
    createdAt: int,
    updatedAt: Option<int>)

  /** The arguments of save_generation after the user id. */
  datatype Draft = Draft(
    productName: string,
    productCategory: string,
    targetAudience: string,
    userDescription: string,
    targetLanguage: string,
    finalDescription: string,
    imageUrls: Json)

  /** The id of the saved row, and whether an existing row was updated. */
  datatype SaveResult = SaveResult(id: string, updated: bool)

  /** One generation as the listing returns it. */
  datatype Entry = Entry(
    id: string,
    productName: string,
    productCategory: string,
    targetAudience: string,
    userDescription: string,
    targetLanguage: string,
    imageUrls: Json,
    finalDescription: string,
    createdAt: Option<int>,
    updatedAt: Option<int>)

  /** `image_urls or []`. */
  function ImagesOrEmpty(v: Json): (r: Json)
    ensures Truthy(v) ==> r == v
    ensures !Truthy(v) ==> r == JList([])
  {
    if Truthy(v) then v else JList([])
  }

  // ------------------------------------------------------------------
  // Table invariants
  // ------------------------------------------------------------------

  /** The row is an active generation of `user` for the product `name`. */
  predicate ActiveNamed(r: Row, user: string, name: string) {
    r.userId == user && r.productName == name && r.dataStatus == Active
  }

  /** The row is an active generation of `user` with the id `id`. */
  predicate ActiveWithId(r: Row, user: string, id: string) {
    r.id == id && r.userId == user && r.dataStatus == Active
  }

  predicate UniqueIds(rows: seq<Row>) {
    forall i, j :: 0 <= i < j < |rows| ==> rows[i].id != rows[j].id
  }

  /** A user has at most one active generation per product name. */
  predicate OneActivePerName(rows: seq<Row>) {
    forall i, j ::
      (0 <= i < j < |rows| && rows[i].dataStatus == Active && rows[j].dataStatus == Active
       && rows[i].userId == rows[j].userId) ==> rows[i].productName != rows[j].productName
  }

  predicate TableInvariant(rows: seq<Row>) {
    UniqueIds(rows) && OneActivePerName(rows)
  }

  /** No row carries the id. */
  predicate Unused(rows: seq<Row>, id: string) {
    forall i :: 0 <= i < |rows| ==> rows[i].id != id
  }

  /** The position of the first row satisfying `p`, if any. */
  function IndexWhere(rows: seq<Row>, p: Row -> bool): (r: Option<nat>)
    ensures r.Some? ==> r.value < |rows| && p(rows[r.value])
    ensures r.None? ==> forall i :: 0 <= i < |rows| ==> !p(rows[i])
    decreases |rows|
  {
    if rows == [] then None
    else if p(rows[0]) then Some(0)
    else
      match IndexWhere(rows[1..], p)
      case None => None
      case Some(i) => Some(i + 1)
  }

  // ------------------------------------------------------------------
  // save_generation
  // ------------------------------------------------------------------

  /** The row the update leaves behind: the draft's fields, the image list
      or `[]`, and `updated_at = now()`; the id, owner, product name, status
      and creation time stay. */
  function Revised(r: Row, d: Draft, now: int): Row {
    r.(productCategory := d.productCategory,
       targetAudience := d.targetAudience,
       userDescription := d.userDescription,
       targetLanguage := d.targetLanguage,
       imageUrls := ImagesOrEmpty(d.imageUrls),
       finalDescription := d.finalDescription,
       updatedAt := Some(now))
  }

  /** The row the insert adds: active, created now, never updated. */
  function Inserted(id: string, user: string, d: Draft, now: int): Row {
    Row(id, user, d.productName, d.productCategory, d.targetAudience, d.userDescription,
        d.targetLanguage, ImagesOrEmpty(d.imageUrls), d.finalDescription, Active, now, None)
  }

  /** `UPDATE ... WHERE id = %s AND user_id = %s`: every row with that id and
      owner is revised. */
  function UpdateWhere(rows: seq<Row>, id: string, user: string, d: Draft, now: int): (r: seq<Row>)
    ensures |r| == |rows|
    ensures forall i :: 0 <= i < |rows| ==>
      r[i] == if rows[i].id == id && rows[i].userId == user then Revised(rows[i], d, now) else rows[i]
  {
    seq(|rows|, i requires 0 <= i < |rows| =>
      if rows[i].id == id && rows[i].userId == user then Revised(rows[i], d, now) else rows[i])
  }

  /** The table after a save, and what the save returns. */
  datatype Saving = Saving(rows: seq<Row>, result: SaveResult)

  function SaveRows(rows: seq<Row>, user: string, d: Draft, freshId: string, now: int): Saving {
    match IndexWhere(rows, r => ActiveNamed(r, user, d.productName))
    case Some(k) =>
      Saving(UpdateWhere(rows, rows[k].id, user, d, now), SaveResult(rows[k].id, true))
    case None =>
      Saving(rows + [Inserted(freshId, user, d, now)], SaveResult(freshId, false))
  }

  /** A save updates exactly when the user already has an active generation
      for that product name. */
  lemma SaveUpdatesIffActiveExists(rows: seq<Row>, user: string, d: Draft, freshId: string, now: int)
    ensures SaveRows(rows, user, d, freshId, now).result.updated <==>
      exists i :: 0 <= i < |rows| && ActiveNamed(rows[i], user, d.productName)
  {
    var k := IndexWhere(rows, r => ActiveNamed(r, user, d.productName));
    if k.Some? {
      assert ActiveNamed(rows[k.value], user, d.productName);
    }
  }

  /** With unique ids the update touches the matched row only, and the
      returned id is that row's. */
  lemma SaveUpdateTouchesOneRow(rows: seq<Row>, user: string, d: Draft, freshId: string, now: int)
    requires UniqueIds(rows)
    requires SaveRows(rows, user, d, freshId, now).result.updated
    ensures exists k :: (0 <= k < |rows| && ActiveNamed(rows[k], user, d.productName)
      && SaveRows(rows, user, d, freshId, now).rows == rows[k := Revised(rows[k], d, now)]
      && SaveRows(rows, user, d, freshId, now).result.id == rows[k].id)
  {
    var k := IndexWhere(rows, r => ActiveNamed(r, user, d.productName)).value;
    var after := SaveRows(rows, user, d, freshId, now).rows;
    assert after == rows[k := Revised(rows[k], d, now)];
  }

  /** Without an active generation for that product name the save appends a
      new active row carrying the fresh id. */
  lemma SaveInsertAppends(rows: seq<Row>, user: string, d: Draft, freshId: string, now: int)
    requires !SaveRows(rows, user, d, freshId, now).result.updated
    ensures SaveRows(rows, user, d, freshId, now).rows == rows + [Inserted(freshId, user, d, now)]
    ensures SaveRows(rows, user, d, freshId, now).result.id == freshId
    ensures forall i :: 0 <= i < |rows| ==> !ActiveNamed(rows[i], user, d.productName)
  {
  }

  /** Saving keeps ids unique and leaves at most one active generation per
      user and product name. */
  lemma SaveKeepsInvariant(rows: seq<Row>, user: string, d: Draft, freshId: string, now: int)
    requires TableInvariant(rows) && Unused(rows, freshId)
    ensures TableInvariant(SaveRows(rows, user, d, freshId, now).rows)
  {
    var s := SaveRows(rows, user, d, freshId, now);
    if s.result.updated {
      SaveUpdateTouchesOneRow(rows, user, d, freshId, now);
    } else {
      var after := s.rows;
      assert after == rows + [Inserted(freshId, user, d, now)];
      forall i, j | 0 <= i < j < |after| && after[i].dataStatus == Active && after[j].dataStatus == Active
        && after[i].userId == after[j].userId
        ensures after[i].productName != after[j].productName
      {
        if j == |rows| {
          assert !ActiveNamed(rows[i], user, d.productName);
        }
      }
    }
  }

  /** After a save the user's one active generation for that product name
      carries the returned id and the draft's content. */
  lemma SavedRowHoldsDraft(rows: seq<Row>, user: string, d: Draft, freshId: string, now: int)
    requires TableInvariant(rows) && Unused(rows, freshId)
    ensures var s := SaveRows(rows, user, d, freshId, now);
      forall i :: 0 <= i < |s.rows| && ActiveNamed(s.rows[i], user, d.productName) ==>
        && s.rows[i].id == s.result.id
        && s.rows[i].productCategory == d.productCategory
        && s.rows[i].targetAudience == d.targetAudience
        && s.rows[i].userDescription == d.userDescription
        && s.rows[i].targetLanguage == d.targetLanguage
        && s.rows[i].imageUrls == ImagesOrEmpty(d.imageUrls)
        && s.rows[i].finalDescription == d.finalDescription
    ensures var s := SaveRows(rows, user, d, freshId, now);
      exists i :: 0 <= i < |s.rows| && ActiveNamed(s.rows[i], user, d.productName)
  {
    var s := SaveRows(rows, user, d, freshId, now);
    if s.result.updated {
      SaveUpdateTouchesOneRow(rows, user, d, freshId, now);
      var k :| 0 <= k < |rows| && ActiveNamed(rows[k], user, d.productName)
        && s.rows == rows[k := Revised(rows[k], d, now)] && s.result.id == rows[k].id;
      assert ActiveNamed(s.rows[k], user, d.productName);
    } else {
      assert ActiveNamed(s.rows[|rows|], user, d.productName);
    }
  }

  // ------------------------------------------------------------------
  // delete_generation
  // ------------------------------------------------------------------

  const NotFoundMessage := "Generation not found or access denied"

  /** `UPDATE ... SET data_status = 'D', updated_at = now() WHERE id = %s AND
      user_id = %s`. */
  function MarkDeleted(rows: seq<Row>, id: string, user: string, now: int): (r: seq<Row>)
    ensures |r| == |rows|
    ensures forall i :: 0 <= i < |rows| ==>
      r[i] == if rows[i].id == id && rows[i].userId == user
              then rows[i].(dataStatus := Deleted, updatedAt := Some(now)) else rows[i]
  {
    seq(|rows|, i requires 0 <= i < |rows| =>
      if rows[i].id == id && rows[i].userId == user
      then rows[i].(dataStatus := Deleted, updatedAt := Some(now)) else rows[i])
  }

  /** The table after a delete, or the message of the ValueError raised when
      the user has no active generation with that id. */
  function DeleteRows(rows: seq<Row>, user: string, id: string, now: int): Result<seq<Row>, string> {
    match IndexWhere(rows, r => ActiveWithId(r, user, id))
    case None => Err(NotFoundMessage)
    case Some(_) => Ok(MarkDeleted(rows, id, user, now))
  }

  /** A delete fails exactly when the user has no active generation with
      that id: someone else's, an already deleted or an unknown id all give
      the same message. */
  lemma DeleteFailsIffNoActiveOwned(rows: seq<Row>, user: string, id: string, now: int)
    ensures DeleteRows(rows, user, id, now).Err? <==>
      forall i :: 0 <= i < |rows| ==> !ActiveWithId(rows[i], user, id)
    ensures DeleteRows(rows, user, id, now).Err? ==> DeleteRows(rows, user, id, now).error == NotFoundMessage
  {
  }

  /** With unique ids a delete marks the one matched row and nothing else. */
  lemma DeleteTouchesOneRow(rows: seq<Row>, user: string, id: string, now: int)
    requires UniqueIds(rows) && DeleteRows(rows, user, id, now).Ok?
    ensures exists k :: (0 <= k < |rows| && ActiveWithId(rows[k], user, id)
      && DeleteRows(rows, user, id, now).value == rows[k := rows[k].(dataStatus := Deleted, updatedAt := Some(now))])
  {
    var k := IndexWhere(rows, r => ActiveWithId(r, user, id)).value;
    assert DeleteRows(rows, user, id, now).value == rows[k := rows[k].(dataStatus := Deleted, updatedAt := Some(now))];
  }

  /** Deleting keeps the table invariant: no row becomes active. */
  lemma DeleteKeepsInvariant(rows: seq<Row>, user: string, id: string, now: int)
    requires TableInvariant(rows) && DeleteRows(rows, user, id, now).Ok?
    ensures TableInvariant(DeleteRows(rows, user, id, now).value)
  {
  }

  /** A deleted generation cannot be deleted again: the second attempt
      raises the not-found error. */
  lemma DeleteTwiceFails(rows: seq<Row>, user: string, id: string, now: int, later: int)
    requires DeleteRows(rows, user, id, now).Ok?
    ensures DeleteRows(DeleteRows(rows, user, id, now).value, user, id, later) == Err(NotFoundMessage)
  {
    var after := DeleteRows(rows, user, id, now).value;
    assert forall i :: 0 <= i < |after| ==> !ActiveWithId(after[i], user, id);
  }

  // ------------------------------------------------------------------
  // get_user_generations
  // ------------------------------------------------------------------

  const PageLimit := 50

  /** `WHERE user_id = %s AND data_status = 'A'`, in table order. */
  function ActiveRowsOf(rows: seq<Row>, user: string): (r: seq<Row>)
    ensures forall x :: x in r <==> x in rows && x.userId == user && x.dataStatus == Active
    ensures |r| <= |rows|
    decreases |rows|
  {
    if rows == [] then []
    else
      var rest := ActiveRowsOf(rows[1..], user);
      assert forall x :: x in rows <==> x == rows[0] || x in rows[1..];
      if rows[0].userId == user && rows[0].dataStatus == Active then [rows[0]] + rest else rest
  }

  predicate NewestFirstOrder(s: seq<Row>) {
    forall i, j :: 0 <= i < j < |s| ==> s[i].createdAt >= s[j].createdAt
  }

  /** Puts a row in front of the first row created no later than it. */
  function InsertByAge(x: Row, s: seq<Row>): (r: seq<Row>)
    requires NewestFirstOrder(s)
    ensures NewestFirstOrder(r)
    ensures multiset(r) == multiset(s) + multiset{x}
    ensures |r| == |s| + 1
    ensures r[0] == x || (s != [] && r[0] == s[0])
    decreases |s|
  {
    if s == [] || s[0].createdAt <= x.createdAt then [x] + s
    else
      var rest := InsertByAge(x, s[1..]);
      assert s == [s[0]] + s[1..];
      assert rest[0].createdAt <= s[0].createdAt;
      [s[0]] + rest
  }

  /** `ORDER BY created_at DESC`: the same rows, newest first. The order of
      rows created at the same time is left to the database; this sort keeps
      their table order. */
  function NewestFirst(rs: seq<Row>): (r: seq<Row>)
    ensures NewestFirstOrder(r)
    ensures multiset(r) == multiset(rs)
    ensures |r| == |rs|
    decreases |rs|
  {
    if rs == [] then []
    else
      assert rs == [rs[0]] + rs[1..];
      InsertByAge(rs[0], NewestFirst(rs[1..]))
  }

  /** The rows the listing query returns: the user's active rows, newest
      first, at most fifty. */
  function Query(rows: seq<Row>, user: string): seq<Row> {
    var sorted := NewestFirst(ActiveRowsOf(rows, user));
    if |sorted| <= PageLimit then sorted else sorted[..PageLimit]
  }

  /** The listing shows only the user's own active rows, newest first, and
      as many as there are up to fifty. */
  lemma QueryListsOwnActiveRows(rows: seq<Row>, user: string)
    ensures var q := Query(rows, user);
      && (forall x :: x in q ==> x in rows && x.userId == user && x.dataStatus == Active)
      && NewestFirstOrder(q)
      && |q| == if |ActiveRowsOf(rows, user)| <= PageLimit then |ActiveRowsOf(rows, user)| else PageLimit
  {
    var active := ActiveRowsOf(rows, user);
    var sorted := NewestFirst(active);
    forall x | x in Query(rows, user)
      ensures x in active
    {
      assert x in sorted;
      assert x in multiset(sorted);
    }
  }

  /** Every active row of the user is listed, unless fifty rows at least as
      new are listed instead. */
  lemma QueryOmitsOnlyOlderRows(rows: seq<Row>, user: string, x: Row)
    requires x in rows && x.userId == user && x.dataStatus == Active
    requires x !in Query(rows, user)
    ensures |Query(rows, user)| == PageLimit
    ensures forall y :: y in Query(rows, user) ==> y.createdAt >= x.createdAt
  {
    var active := ActiveRowsOf(rows, user);
    var sorted := NewestFirst(active);
    assert x in multiset(active);
    assert x in sorted;
    var j :| 0 <= j < |sorted| && sorted[j] == x;
    assert j >= PageLimit;
    forall y | y in Query(rows, user)
      ensures y.createdAt >= x.createdAt
    {
      var i :| 0 <= i < PageLimit && sorted[..PageLimit][i] == y;
      assert sorted[i] == y;
    }
  }

  /** One listed entry: the id as text, `image_urls or []`, and the creation
      and update times when present. */
  function ToEntry(r: Row): (e: Entry)
    ensures e.id == r.id && e.productName == r.productName && e.finalDescription == r.finalDescription
    ensures e.productCategory == r.productCategory && e.targetAudience == r.targetAudience
    ensures e.userDescription == r.userDescription && e.targetLanguage == r.targetLanguage
    ensures e.imageUrls == ImagesOrEmpty(r.imageUrls) && Truthy(e.imageUrls) == Truthy(r.imageUrls)
    ensures e.createdAt == Some(r.createdAt) && e.updatedAt == r.updatedAt
  {
    Entry(r.id, r.productName, r.productCategory, r.targetAudience, r.userDescription,
          r.targetLanguage, ImagesOrEmpty(r.imageUrls), r.finalDescription, Some(r.createdAt), r.updatedAt)
  }

  // ------------------------------------------------------------------
  // The table
  // ------------------------------------------------------------------

  /** The `generations` table, changed in place by the save and the delete. */
  class GenerationTable {
    var rows: seq<Row>

    predicate Valid()
      reads this
    {
      TableInvariant(rows)
    }

    constructor ()
      ensures Valid() && rows == []
    {
      rows := [];
    }

    /** save_generation: look for the user's active row with that product
        name, then update it or insert a new one. */
    method Save(user: string, d: Draft, freshId: string, now: int) returns (r: SaveResult)
      requires Valid() && Unused(rows, freshId)
      modifies this
      ensures Valid()
      ensures Saving(rows, r) == SaveRows(old(rows), user, d, freshId, now)
      ensures r.updated ==> exists k :: (0 <= k < |old(rows)| && ActiveNamed(old(rows)[k], user, d.productName)
        && rows == old(rows)[k := Revised(old(rows)[k], d, now)] && r.id == old(rows)[k].id)
      ensures !r.updated ==> rows == old(rows) + [Inserted(freshId, user, d, now)] && r.id == freshId
    {
      SaveKeepsInvariant(rows, user, d, freshId, now);
      var existing := IndexWhere(rows, row => ActiveNamed(row, user, d.productName));
      if existing.Some? {
        SaveUpdateTouchesOneRow(rows, user, d, freshId, now);
        var id := rows[existing.value].id;
        rows := UpdateWhere(rows, id, user, d, now);
        r := SaveResult(id, true);
      } else {
        rows := rows + [Inserted(freshId, user, d, now)];
        r := SaveResult(freshId, false);
      }
    }

    /** delete_generation: check the user owns an active row with that id,
        then mark it deleted. */
    method Delete(user: string, id: string, now: int) returns (r: Result<bool, string>)
      requires Valid()
      modifies this
      ensures Valid()
      ensures match DeleteRows(old(rows), user, id, now)
        case Ok(after) => r == Ok(true) && rows == after
        case Err(m) => r == Err(m) && rows == old(rows)
    {
      var existing := IndexWhere(rows, row => ActiveWithId(row, user, id));
      if existing.None? {
        return Err(NotFoundMessage);
      }
      DeleteKeepsInvariant(rows, user, id, now);
      rows := MarkDeleted(rows, id, user, now);
      r := Ok(true);
    }

    /** get_user_generations: one entry per row of the query, in its order. */
    method GetUserGenerations(user: string) returns (generations: seq<Entry>)
      ensures |generations| == |Query(rows, user)|
      ensures forall i :: 0 <= i < |generations| ==> generations[i] == ToEntry(Query(rows, user)[i])
    {
      var results := Query(rows, user);
      generations := [];
      for i := 0 to |results|
        invariant |generations| == i
        invariant forall j :: 0 <= j < i ==> generations[j] == ToEntry(results[j])
      {
        generations := generations + [ToEntry(results[i])];
      }
    }
  }
}
