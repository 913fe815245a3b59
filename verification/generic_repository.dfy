/**
 * The generic repository (Repositoy.cs): paged listing with an optional filter,
 * lookup by key, and the three writes, over one table of the shared context.
 */
module GenericRepository {
  import opened Wrappers
  import opened Models
  import opened Linq
  import opened Data

  /** A filter that is absent (`null`) lets every row through. */
  predicate Admits<T>(filter: Option<T -> bool>, x: T)
  {
    filter.None? || filter.value(x)
  }

  /** The rows a listing counts and slices. */
  function Filtered<T>(rows: seq<T>, filter: Option<T -> bool>): seq<T>
  {
    match filter
    case None => rows
    case Some(p) => Where(rows, p)
  }

  /** `GetAllAsync(predicate, page, pageSize)`: the count is taken over the filtered
      rows before slicing, the items are the page of the filtered rows, and the page
      number and size are echoed. */
  function GetAllWhere<T>(rows: seq<T>, filter: Option<T -> bool>, page: int, pageSize: int): (r: PaginatedResult<T>)
    ensures forall x | x in r.items :: x in rows && Admits(filter, x)
    ensures |r.items| <= |Filtered(rows, filter)|
    ensures r.totalCount == |Filtered(rows, filter)|
    ensures r.pageNumber == page && r.pageSize == pageSize
    ensures r.items == Page(Filtered(rows, filter), page, pageSize)
  {
    var matching := Filtered(rows, filter);
    PageBounded(matching, page, pageSize);
    Paginate(matching, page, pageSize)
  }

  /** `GetAllAsync(page, pageSize)`: the filtered listing without a filter. */
  function GetAll<T>(rows: seq<T>, page: int, pageSize: int): (r: PaginatedResult<T>)
    ensures r == GetAllWhere(rows, None, page, pageSize)
    ensures r.totalCount == |rows|
    ensures r.items == Page(rows, page, pageSize)
  {
    GetAllWhere(rows, None, page, pageSize)
  }

  /** Without a filter, and with a filter every row passes, the listing is the same. */
  lemma GetAllIsUnfiltered<T>(rows: seq<T>, p: T -> bool, page: int, pageSize: int)
    requires forall x | x in rows :: p(x)
    ensures GetAllWhere(rows, Some(p), page, pageSize) == GetAll(rows, page, pageSize)
  {
    WhereAll(rows, p);
  }

  /** The total does not depend on which page is asked for. */
  lemma {:induction false} TotalCountIgnoresPaging<T>(rows: seq<T>, filter: Option<T -> bool>, page1: int, pageSize1: int, page2: int, pageSize2: int)
    ensures GetAllWhere(rows, filter, page1, pageSize1).totalCount == GetAllWhere(rows, filter, page2, pageSize2).totalCount
  {
  }

  /** The total counts exactly the stored positions whose row the filter admits. */
  lemma TotalCountCountsMatches<T>(rows: seq<T>, filter: Option<T -> bool>, page: int, pageSize: int)
    ensures GetAllWhere(rows, filter, page, pageSize).totalCount == |set i | 0 <= i < |rows| && Admits(filter, rows[i])|
  {
    match filter
    case None =>
      var all := (x: T) => true;
      WhereAll(rows, all);
      WhereCount(rows, all);
      assert (set i | 0 <= i < |rows| && Admits(filter, rows[i])) == set i | 0 <= i < |rows| && all(rows[i]);
    case Some(p) =>
      WhereCount(rows, p);
      assert (set i | 0 <= i < |rows| && Admits(filter, rows[i])) == set i | 0 <= i < |rows| && p(rows[i]);
  }

  /** The position of the row with key `id`, if one is stored. */
  function IndexOfKey<T>(rows: seq<T>, key: T -> int, id: int): (r: Option<nat>)
    ensures r.Some? ==> r.value < |rows| && key(rows[r.value]) == id
    ensures r.Some? ==> forall j | 0 <= j < r.value :: key(rows[j]) != id
    ensures r.None? ==> forall j | 0 <= j < |rows| :: key(rows[j]) != id
    decreases |rows|
  {
    if rows == [] then None
    else if key(rows[0]) == id then Some(0)
    else match IndexOfKey(rows[1..], key, id)
      case None => None
      case Some(i) => Some(i + 1)
  }

  /** `GetByIdAsync(id)` (`FindAsync`): the row with that key, or `null` when none is stored. */
  function GetById<T>(rows: seq<T>, key: T -> int, id: int): (r: Option<T>)
    ensures r.Some? ==> r.value in rows && key(r.value) == id
    ensures r.None? <==> forall x | x in rows :: key(x) != id
  {
    match IndexOfKey(rows, key, id)
    case None => None
    case Some(i) => Some(rows[i])
  }

  /** A stored row is found under its own key when keys are unique. */
  lemma GetByIdFindsStored<T>(rows: seq<T>, key: T -> int, i: nat)
    requires i < |rows| && UniqueKeys(rows, key)
    ensures GetById(rows, key, key(rows[i])) == Some(rows[i])
  {
  }

  /** Appending a row whose key is not stored keeps the keys unique. */
  lemma AppendKeepsKeysUnique<T>(rows: seq<T>, x: T, key: T -> int)
    requires UniqueKeys(rows, key) && GetById(rows, key, key(x)).None?
    ensures UniqueKeys(rows + [x], key)
  {
    var all := rows + [x];
    forall i, j | 0 <= i < j < |all| ensures key(all[i]) != key(all[j]) {
      assert all[i] == rows[i] && all[i] in rows;
    }
  }

  /** A `Repository<T>`: CRUD over one table of a shared context. */
  class Repository<T> {
    const context: BlogDbContext
    const dbSet: Table<T>

    constructor (context: BlogDbContext, dbSet: Table<T>)
      ensures this.context == context && this.dbSet == dbSet
    {
      this.context := context;
      this.dbSet := dbSet;
    }

    /** The row the store writes for `entity`: an unset key (0) is replaced by the
        generated key `nextKey`, a set key is kept. */
    function Keyed(entity: T, nextKey: int): (e: T)
      ensures dbSet.key(entity) != 0 ==> e == entity
      ensures dbSet.key(entity) == 0 ==> e == dbSet.withKey(entity, nextKey)
    {
      if dbSet.key(entity) == 0 then dbSet.withKey(entity, nextKey) else entity
    }

    /** `AddAsync`: appends the entity, with a generated key when its key is unset, and
        returns it; a key that is already stored makes `SaveChanges` throw and leaves
        the table as it was. `nextKey` is the key generator's next value: never stored. */
    method Add(entity: T, nextKey: int) returns (r: Result<T, ServerError>)
      requires dbSet.Valid()
      requires GetById(dbSet.rows, dbSet.key, nextKey).None? && dbSet.key(dbSet.withKey(entity, nextKey)) == nextKey
      modifies dbSet
      ensures dbSet.Valid()
      ensures dbSet.key(entity) == 0 ==> r.Success?
      ensures r.Success? <==> GetById(old(dbSet.rows), dbSet.key, dbSet.key(Keyed(entity, nextKey))).None?
      ensures r.Success? ==> r.value == Keyed(entity, nextKey) && dbSet.rows == old(dbSet.rows) + [Keyed(entity, nextKey)]
      ensures r.Failure? ==> r.error == DuplicateKey && dbSet.rows == old(dbSet.rows)
    {
      var stored := Keyed(entity, nextKey);
      if GetById(dbSet.rows, dbSet.key, dbSet.key(stored)).Some? {
        return Failure(DuplicateKey);
      }
      dbSet.rows := dbSet.rows + [stored];
      r := Success(stored);
    }

    /** `UpdateAsync`: an entity whose key is unset is inserted with the generated key
        `nextKey`; otherwise the stored row with the entity's key is replaced in place,
        and a key that is not stored makes `SaveChanges` throw and leaves the table as
        it was. */
    method Update(entity: T, nextKey: int) returns (r: Result<(), ServerError>)
      requires dbSet.Valid()
      requires GetById(dbSet.rows, dbSet.key, nextKey).None? && dbSet.key(dbSet.withKey(entity, nextKey)) == nextKey
      modifies dbSet
      ensures dbSet.Valid()
      ensures dbSet.key(entity) == 0 ==> r.Success? && dbSet.rows == old(dbSet.rows) + [dbSet.withKey(entity, nextKey)]
      ensures dbSet.key(entity) != 0 ==> |dbSet.rows| == |old(dbSet.rows)|
      ensures dbSet.key(entity) != 0 ==> (r.Success? <==> GetById(old(dbSet.rows), dbSet.key, dbSet.key(entity)).Some?)
      ensures dbSet.key(entity) != 0 && r.Success? ==>
        exists i | 0 <= i < |old(dbSet.rows)| :: dbSet.key(old(dbSet.rows)[i]) == dbSet.key(entity) && dbSet.rows == old(dbSet.rows)[i := entity]
      ensures r.Failure? ==> r.error == EntityNotInStore && dbSet.rows == old(dbSet.rows)
    {
      if dbSet.key(entity) == 0 {
        dbSet.rows := dbSet.rows + [dbSet.withKey(entity, nextKey)];
        return Success(());
      }
      match IndexOfKey(dbSet.rows, dbSet.key, dbSet.key(entity))
      case None =>
        r := Failure(EntityNotInStore);
      case Some(i) =>
        dbSet.rows := dbSet.rows[i := entity];
        r := Success(());
    }

    /** `DeleteAsync`: removes the row with key `id`; nothing happens when none is stored. */
    method Delete(id: int)
      requires dbSet.Valid()
      modifies dbSet
      ensures dbSet.Valid()
      ensures GetById(old(dbSet.rows), dbSet.key, id).None? ==> dbSet.rows == old(dbSet.rows)
      ensures GetById(old(dbSet.rows), dbSet.key, id).Some? ==>
        exists i | 0 <= i < |old(dbSet.rows)| :: dbSet.key(old(dbSet.rows)[i]) == id && dbSet.rows == old(dbSet.rows)[..i] + old(dbSet.rows)[i + 1..]
      ensures forall x | x in dbSet.rows :: dbSet.key(x) != id
    {
      match IndexOfKey(dbSet.rows, dbSet.key, id)
      case None =>
      case Some(i) =>
        ghost var before := dbSet.rows;
        dbSet.rows := dbSet.rows[..i] + dbSet.rows[i + 1..];
        forall a, b | 0 <= a < b < |dbSet.rows| ensures dbSet.key(dbSet.rows[a]) != dbSet.key(dbSet.rows[b]) {
          var a' := if a < i then a else a + 1;
          var b' := if b < i then b else b + 1;
          assert dbSet.rows[a] == before[a'] && dbSet.rows[b] == before[b'];
        }
        forall x | x in dbSet.rows ensures dbSet.key(x) != id {
          var k :| 0 <= k < |dbSet.rows| && dbSet.rows[k] == x;
          var k' := if k < i then k else k + 1;
          assert x == before[k'];
        }
    }
  }
}
