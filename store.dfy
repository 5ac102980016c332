/** `MemoryStore`: one owner's handle on the shared `memories` table. */
module Memory {
  import opened Wrappers
  import opened Schema
  import Whitespace
  import Query
  import Context

  /** Why an insertion raises instead of adding a row. */
  datatype StoreError =
    | IntegerOverflow  // a bound integer does not fit SQLite's 64-bit INTEGER
    | DatabaseFull     // AUTOINCREMENT has already handed out the largest rowid

  class MemoryStore {
    const ownerId: int
    /** The rows of every owner, in rowid order. */
    var rows: seq<Row>
    /** The id the next insertion receives. */
    var nextId: int

    predicate Valid()
      reads this
    {
      WellFormed(Table(rows, nextId))
    }

    /** Opens the store for `ownerId` on a file that holds `file` (`None`: no table yet);
        the table is created only if it is absent. */
    constructor (ownerId: int, file: Option<Table>)
      requires file.Some? ==> WellFormed(file.value)
      ensures Valid()
      ensures this.ownerId == ownerId
      ensures Table(rows, nextId) == EnsureSchema(file)
    {
      this.ownerId := ownerId;
      var table := EnsureSchema(file);
      rows := table.rows;
      nextId := table.nextId;
    }

    /** Inserts one row for this owner, with `content` and `tags` stripped and
        `created_at = now`, and returns its id. */
    method Add(kind: string, content: string, tags: string := "", importance: int := 3, nameonly now: int)
      returns (result: Result<int, StoreError>)
      requires Valid()
      modifies this
      ensures Valid()
      ensures result.Ok? <==> InInt64(ownerId) && InInt64(importance) && InInt64(now) && old(nextId) <= MaxInt64
      ensures result == Err(IntegerOverflow) <==> !(InInt64(ownerId) && InInt64(importance) && InInt64(now))
      ensures result.Err? ==> rows == old(rows) && nextId == old(nextId)
      ensures result.Ok? ==>
        && rows == old(rows) + [Row(result.value, ownerId, kind, Whitespace.Strip(content),
                                    Whitespace.Strip(tags), importance, now)]
        && result.value == old(nextId)
        && nextId == result.value + 1
      ensures result.Ok? ==> forall x :: x in old(rows) ==> x.id < result.value
    {
      if !(InInt64(ownerId) && InInt64(importance) && InInt64(now)) {
        return Err(IntegerOverflow);
      }
      if nextId > MaxInt64 {
        return Err(DatabaseFull);
      }
      var id := nextId;
      var row := Row(id, ownerId, kind, Whitespace.Strip(content), Whitespace.Strip(tags), importance, now);
      AppendKeepsWellFormed(Table(rows, nextId), row);
      rows := rows + [row];
      nextId := id + 1;
      return Ok(id);
    }

    /** Up to `limit` of this owner's rows as `(id, kind, content, importance)`, newest first. */
    function Latest(limit: nat := 30): (r: seq<Entry>)
      reads this
      requires Valid()
      ensures |r| <= limit
      ensures |r| < limit ==> |r| == |Query.OwnedBy(rows, ownerId)|
      ensures forall i :: 0 <= i < |r| ==> exists x :: x in rows && x.ownerId == ownerId && ToEntry(x) == r[i]
      ensures forall i, j :: 0 <= i < j < |r| ==> r[i].id != r[j].id
    {
      var picked := Query.LatestRows(rows, ownerId, limit);
      Query.LatestCount(rows, ownerId, limit);
      Query.LatestOwned(rows, ownerId, limit);
      Query.LatestDistinct(rows, ownerId, limit);
      assert forall i :: 0 <= i < |picked| ==> picked[i] in picked;
      Query.Project(picked)
    }

    /** The context block for `latest(limit)`: empty when there are no rows, otherwise
        one rendered line per entry joined by newlines. */
    method FormatContext(limit: nat := 20) returns (text: string)
      requires Valid()
      ensures text == Context.ContextText(Latest(limit))
    {
      var entries := Latest(limit);
      text := Context.FormatEntries(entries);
    }
  }
}
