/** The `memories` table: its rows, the AUTOINCREMENT counter, and schema creation. */
module Schema {
  import opened Wrappers

  /** SQLite stores INTEGER values and rowids as signed 64-bit integers. */
  const MinInt64: int := -0x8000_0000_0000_0000
  const MaxInt64: int := 0x7FFF_FFFF_FFFF_FFFF

  predicate InInt64(x: int) {
    MinInt64 <= x <= MaxInt64
  }

  /** One row of `memories(id, owner_id, kind, content, tags, importance, created_at)`. */
  datatype Row = Row(
    id: int,
    ownerId: int,
    kind: string,
    content: string,
    tags: string,
    importance: int,
    createdAt: int)

  /** The tuple `(id, kind, content, importance)` that the recency query selects. */
  datatype Entry = Entry(id: int, kind: string, content: string, importance: int)

  function ToEntry(row: Row): Entry {
    Entry(row.id, row.kind, row.content, row.importance)
  }

  /** The table as the database file holds it: the rows of every owner in rowid order, and
      the id the next insertion receives (one more than the largest id ever assigned). */
  datatype Table = Table(rows: seq<Row>, nextId: int)

  predicate IdsIncreasing(rows: seq<Row>) {
    forall i, j :: 0 <= i < j < |rows| ==> rows[i].id < rows[j].id
  }

  /** What `INTEGER PRIMARY KEY AUTOINCREMENT` guarantees: ids are positive 64-bit values,
      unique, in rowid order, and all below the counter. */
  predicate WellFormed(t: Table) {
    && 1 <= t.nextId <= MaxInt64 + 1
    && (forall i :: 0 <= i < |t.rows| ==> 1 <= t.rows[i].id < t.nextId)
    && IdsIncreasing(t.rows)
  }

  /** Appending a row that takes the counter's id, and advancing the counter, keeps the
      table well formed: the new id exceeds every id already assigned. */
  lemma AppendKeepsWellFormed(t: Table, row: Row)
    requires WellFormed(t)
    requires t.nextId <= MaxInt64 && row.id == t.nextId
    ensures WellFormed(Table(t.rows + [row], t.nextId + 1))
    ensures forall x :: x in t.rows ==> x.id < row.id
  {
  }

  /** `CREATE TABLE IF NOT EXISTS memories (...)` on a file that holds `file`
      (`None`: the file has no such table yet). */
  function EnsureSchema(file: Option<Table>): (t: Table)
    ensures file.None? ==> t.rows == [] && WellFormed(t)
    ensures file.Some? ==> t.rows == file.value.rows
  {
    match file
    case None => Table([], 1)
    case Some(existing) => existing
  }

  /** Creating the schema again changes nothing. */
  lemma EnsureSchemaIdempotent(file: Option<Table>)
    ensures EnsureSchema(Some(EnsureSchema(file))) == EnsureSchema(file)
  {
  }
}
