/** The keyed table behind every CRUD service: a repository of entities
    indexed by their integer primary key, together with the
    existence-checked create / update / remove / get shape that
    AccountServiceImpl, ClientService, BranchService, EmployeeServiceImpl
    and TransactionServiceImpl all share.

    `nextId` models the database's identity column: a save without an id
    receives `nextId`, and `nextId` always stays above every stored key.
 */
module Store {
  import opened Wrappers

  /** An entity together with its primary key. */
  datatype Row<T> = Row(id: int, value: T)

  datatype Table<T> = Table(rows: map<int, T>, nextId: int)

  /** What `save` hands back on creation: the new table and the saved row. */
  datatype Saved<T> = Saved(table: Table<T>, row: Row<T>)

  /** The identity generator never hands out a key already in use. */
  ghost predicate Valid<T>(t: Table<T>) {
    forall k :: k in t.rows ==> k < t.nextId
  }

  function Empty<T>(): (t: Table<T>)
    ensures Valid(t) && t.rows == map[]
  {
    Table(map[], 1)
  }

  function Max(a: int, b: int): int {
    if a < b then b else a
  }

  /** `get…ById`: the stored entity, or NotFound when the key is absent. */
  function Get<T>(t: Table<T>, id: int): (r: Result<Row<T>>)
    ensures r.Ok? <==> id in t.rows
    ensures r.Ok? ==> r.value.id == id && r.value.value == t.rows[id]
    ensures r.Err? ==> r.error == NotFound
  {
    if id in t.rows then Ok(Row(id, t.rows[id])) else Err(NotFound)
  }

  /** `create…`: an id that is present and already stored is refused with
      AlreadyExists; otherwise the entity is saved under the given id, or
      under a freshly generated one when the id is null. */
  function Create<T>(t: Table<T>, id: Option<int>, v: T): (r: Result<Saved<T>>)
    ensures r.Err? <==> id.Some? && id.value in t.rows
    ensures r.Err? ==> r.error == AlreadyExists
    ensures r.Ok? ==> r.value.row.value == v
    ensures r.Ok? ==> r.value.table.rows == t.rows[r.value.row.id := v]
    ensures r.Ok? && id.Some? ==> r.value.row.id == id.value
    ensures r.Ok? && Valid(t) ==> r.value.row.id !in t.rows && Valid(r.value.table)
  {
    if id.Some? && id.value in t.rows then Err(AlreadyExists)
    else
      var key := if id.Some? then id.value else t.nextId;
      Ok(Saved(Table(t.rows[key := v], Max(t.nextId, key + 1)), Row(key, v)))
  }

  /** `update…`: a null or unknown id is refused with NotFound; otherwise
      exactly that entry is replaced. */
  function Update<T>(t: Table<T>, id: Option<int>, v: T): (r: Result<Table<T>>)
    ensures r.Ok? <==> id.Some? && id.value in t.rows
    ensures r.Err? ==> r.error == NotFound
    ensures r.Ok? ==> r.value.rows == t.rows[id.value := v] && r.value.nextId == t.nextId
    ensures r.Ok? ==> r.value.rows.Keys == t.rows.Keys
    ensures r.Ok? && Valid(t) ==> Valid(r.value)
  {
    if id.None? || id.value !in t.rows then Err(NotFound)
    else Ok(Table(t.rows[id.value := v], t.nextId))
  }

  /** `remove…`: an unknown id is refused with NotFound; otherwise exactly
      that entry is deleted. */
  function Remove<T>(t: Table<T>, id: int): (r: Result<Table<T>>)
    ensures r.Ok? <==> id in t.rows
    ensures r.Err? ==> r.error == NotFound
    ensures r.Ok? ==> r.value.rows.Keys == t.rows.Keys - {id}
    ensures r.Ok? ==> forall k :: k in r.value.rows ==> r.value.rows[k] == t.rows[k]
    ensures r.Ok? && Valid(t) ==> Valid(r.value)
  {
    if id !in t.rows then Err(NotFound)
    else Ok(Table(t.rows - {id}, t.nextId))
  }

  /** A created row can be read back, and no other key changes. */
  lemma GetAfterCreate<T>(t: Table<T>, id: Option<int>, v: T, k: int)
    requires Create(t, id, v).Ok?
    ensures var s := Create(t, id, v).value;
      Get(s.table, s.row.id) == Ok(s.row) &&
      (k != s.row.id ==> Get(s.table, k) == Get(t, k))
  {
  }

  /** An updated row reads back as the new value, and no other key changes. */
  lemma GetAfterUpdate<T>(t: Table<T>, id: int, v: T, k: int)
    requires Update(t, Some(id), v).Ok?
    ensures Get(Update(t, Some(id), v).value, id) == Ok(Row(id, v))
    ensures k != id ==> Get(Update(t, Some(id), v).value, k) == Get(t, k)
  {
  }

  /** A removed row is gone, and no other key changes. */
  lemma GetAfterRemove<T>(t: Table<T>, id: int, k: int)
    requires Remove(t, id).Ok?
    ensures Get(Remove(t, id).value, id) == Err(NotFound)
    ensures k != id ==> Get(Remove(t, id).value, k) == Get(t, k)
  {
  }

  /** Removing what was just created restores the original rows. */
  lemma RemoveUndoesCreate<T>(t: Table<T>, id: Option<int>, v: T)
    requires Valid(t)
    requires Create(t, id, v).Ok?
    ensures var s := Create(t, id, v).value;
      Remove(s.table, s.row.id).Ok? && Remove(s.table, s.row.id).value.rows == t.rows
  {
    var s := Create(t, id, v).value;
    assert s.row.id !in t.rows;
    assert t.rows[s.row.id := v] - {s.row.id} == t.rows;
  }

  /** Updating with the stored value changes nothing; updating twice is the
      same as updating once with the later value. */
  lemma UpdateAbsorbs<T>(t: Table<T>, id: int, v: T, w: T)
    requires id in t.rows
    ensures Update(t, Some(id), t.rows[id]) == Ok(t)
    ensures Update(Update(t, Some(id), v).value, Some(id), w) == Update(t, Some(id), w)
  {
    assert t.rows[id := t.rows[id]] == t.rows;
    assert t.rows[id := v][id := w] == t.rows[id := w];
  }
}
