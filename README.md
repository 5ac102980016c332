# MemoryStore: a per-owner store of short text memories

This project models `MemoryStore` from `bot/memory.py` in Dafny. The store keeps short text
"memories" (notes, profile facts) in one SQLite table, `memories`, shared by every owner. A
store object is bound to one `owner_id` and offers four operations:

- the constructor creates the table if it is absent (`CREATE TABLE IF NOT EXISTS`);
- `add` inserts one row, strips whitespace from `content` and `tags`, stamps `created_at`, and
  returns the new `AUTOINCREMENT` id;
- `latest(limit)` returns up to `limit` of the owner's rows as `(id, kind, content, importance)`,
  newest first;
- `format_context(limit)` renders those rows as lines `- [<kind>][imp:<importance>] <content>`,
  joined by newlines, or returns `""` when there are none.

## Layout

- `wrappers.dfy`: module `Wrappers`, which holds `Option` and `Result`.
- `schema.dfy`: module `Schema`. A `Row` is one row of the table and an `Entry` is the tuple
  that `latest` returns. A `Table` is the table as the database file holds it: the rows of
  every owner in rowid order, plus the next `AUTOINCREMENT` id. `WellFormed` states what
  `INTEGER PRIMARY KEY AUTOINCREMENT` guarantees. `EnsureSchema` models `CREATE TABLE IF NOT EXISTS`.
- `whitespace.dfy`: module `Whitespace`, which models Python's `str.strip()`. `IsSpace` is the
  exact set of code points for which Python's `str.isspace()` holds. `Strip` is proved equal to a
  reference definition, `IsStripOf`: a slice of the input whose cut-off margins are all
  whitespace and whose ends are not whitespace.
- `decimal.dfy`: module `Decimal`. `IntToString` is Python's `str(int)`, which the f-string
  uses for `{imp}`. `ParseInt` reads that text back.
- `lines.dfy`: module `Lines`. `Join` is `sep.join(parts)` and `Split` is `s.split(c)`.
- `query.dfy`: module `Query`, the `SELECT` of `latest`. `OwnedBy` is the `WHERE owner_id=?`
  filter. `SortNewestFirst` is an insertion sort that models `ORDER BY created_at DESC`.
  `LatestRows` keeps the first `limit` rows of the sorted list, which models `LIMIT ?`.
- `context.dfy`: module `Context`, the rendering in `format_context`. `RenderLine` is the
  f-string and `FormatEntries` is the loop that builds `lines`. `ContextText` specifies what
  `FormatEntries` returns. `ParseLine` reads a rendered line back into its parts.
- `store.dfy`: module `Memory`, which holds the class `MemoryStore`. Its fields are `ownerId`,
  `rows` and `nextId`. `Add` is a method that appends to `rows` and advances `nextId`. `Latest`
  is a function. `FormatContext` calls `Latest` and then `FormatEntries`.

Design decisions:

- The clock is a parameter. `Add` takes `now` (named, after the optional parameters) instead
  of reading `time.time()`.
- The database file is a parameter. The constructor receives the table the file already holds
  (`Option<Table>`, where `None` means there is no table yet) in place of `db_path`.
- Each row of `latest` is `(id, kind, content, importance)`, as the `SELECT` lists them.
  `created_at` is not in the tuple, so the ordering lemmas are stated on `Query.LatestRows`,
  the rows before projection. `Memory.MemoryStore.Latest` projects exactly those rows.
- Ties in `created_at` put the larger id first. SQL leaves the order among equal timestamps
  open; in SQLite the `(owner_id, created_at)` index may decide it. The model fixes one rule,
  larger id first.
- Insertion errors are modelled as `Err` results:
  - `IntegerOverflow` when `owner_id`, `importance` or `now` does not fit a signed 64-bit
    SQLite INTEGER. The Python driver then raises `OverflowError` before inserting.
  - `DatabaseFull` when the `AUTOINCREMENT` counter has passed 2^63-1. SQLite then fails with
    `SQLITE_FULL`.

`bot/memory.py` has no delete or dedup operation, so rows are never removed and the ids in
`rows` increase strictly.

## Model

| member | source | states |
|---|---|---|
| `Memory.MemoryStore.constructor` | bot/memory.py:7-27 | the store belongs to the given owner; an existing table is kept as it is (rows and counter); a missing one is created empty with its first id 1 |
| `Schema.EnsureSchema` | bot/memory.py:15-25 | a fresh table is empty and well formed; an existing table keeps its rows |
| `Schema.EnsureSchemaIdempotent` | bot/memory.py:15-16 | creating the schema a second time changes nothing |
| `Schema.AppendKeepsWellFormed` | bot/memory.py:17 | giving a new row the counter's id and advancing the counter keeps ids unique, increasing and below the counter; the new id exceeds every id already assigned |
| `Memory.MemoryStore.Add` | bot/memory.py:32-39 | on success exactly one row is appended: the returned id (the old counter, greater than every existing id), this owner, `kind` unchanged, `content` and `tags` stripped, `importance` as given, `created_at = now`; existing rows are unchanged; on error (64-bit overflow, or counter exhausted) the table is unchanged |
| `Whitespace.LeadingSpaces` | bot/memory.py:37 | the leading whitespace run is no longer than the string |
| `Whitespace.TextEnd` | bot/memory.py:37 | the end of the text before trailing whitespace lies within the string |
| `Whitespace.LeadingSpacesSpec` | bot/memory.py:37 | every character before the count is whitespace and the next one is not |
| `Whitespace.TextEndSpec` | bot/memory.py:37 | every character from the end position on is whitespace and the one before it is not |
| `Whitespace.StripIsStripOf` | bot/memory.py:37 | `strip()` returns a slice of its input whose removed margins are all whitespace and whose ends are not whitespace |
| `Whitespace.StripUnique` | bot/memory.py:37 | any string meeting that definition is `Strip`'s result, so the definition fixes `strip()` completely |
| `Whitespace.StripKeepsTrimmed` | bot/memory.py:37 | content or tags without surrounding whitespace are stored exactly as given |
| `Whitespace.StripIsTrimmed` | bot/memory.py:37 | stored content and tags never start or end with whitespace |
| `Whitespace.StripIdempotent` | bot/memory.py:37 | stripping twice is the same as stripping once |
| `Query.OwnedBy` | bot/memory.py:44 | `WHERE owner_id=?` keeps exactly the table's rows of that owner, and no more rows than the table has |
| `Query.OwnedByIncreasing` | bot/memory.py:44 | the owner's rows keep the table's increasing id order |
| `Query.OwnedByAppend` | bot/memory.py:44 | an appended row joins its owner's rows at the end and no other owner's |
| `Query.Insert` | bot/memory.py:44 | insertion into the sorted list adds exactly the one row (as a multiset) |
| `Query.SortNewestFirst` | bot/memory.py:44 | `ORDER BY` returns a permutation of the owner's rows |
| `Query.InsertNewestFirst` | bot/memory.py:44 | inserting into a newest-first list keeps it newest first |
| `Query.SortIsNewestFirst` | bot/memory.py:44 | the sorted rows are newest first, ties broken by larger id |
| `Query.InsertDistinct` | bot/memory.py:44 | inserting a row with a new id keeps ids distinct |
| `Query.SortDistinct` | bot/memory.py:44 | sorting rows with distinct ids keeps them distinct |
| `Query.LatestCount` | bot/memory.py:44 | `latest(limit)` returns `min(limit, number of the owner's rows)` rows: at most `limit`, fewer only when the owner has fewer |
| `Query.LatestOwned` | bot/memory.py:44 | every returned row is a row of the table that belongs to this owner |
| `Query.LatestOrder` | bot/memory.py:43-46 | the returned rows are newest first: `created_at` never increases along the list |
| `Query.LatestDistinct` | bot/memory.py:43-46 | no row is returned twice, because ids are the primary key |
| `Query.LatestKeepsNewest` | bot/memory.py:44 | `LIMIT` drops only rows that are no newer than every row it keeps |
| `Query.LatestShowsAddedFirst` | bot/memory.py:44 | a row added with the largest id and a `created_at` no earlier than the owner's other rows heads that owner's `latest` |
| `Query.LatestIgnoresOtherOwners` | bot/memory.py:44 | adding a row for one owner leaves every other owner's `latest` unchanged |
| `Memory.MemoryStore.Latest` | bot/memory.py:41-47 | the result has at most `limit` entries, and fewer only when the owner has fewer rows; every entry is the tuple of one of this owner's rows; no id appears twice |
| `Memory.MemoryStore.FormatContext` | bot/memory.py:49-56 | returns the context text of exactly the entries `latest(limit)` gives |
| `Context.FormatEntries` | bot/memory.py:51-56 | the loop that appends one rendered line per entry and joins them computes `ContextText` |
| `Context.ContextText` | bot/memory.py:50-56 | the context is `""` exactly when there are no entries |
| `Context.RenderParses` | bot/memory.py:55 | a rendered line reads back as `- [<kind>][imp:<importance>] <content>` with the entry's own kind, importance and content, when the kind holds no `]` |
| `Context.RenderLineBreaks` | bot/memory.py:55 | a rendered line holds a line break only if its kind or content does |
| `Context.ContextLines` | bot/memory.py:53-56 | when no kind or content holds a line break, splitting the context on `"\n"` gives exactly one line per entry, in `latest` order, with no trailing empty line; each line reads back as its entry |
| `Decimal.NatToString` | bot/memory.py:55 | the digits are non-empty decimal digits without leading zeros |
| `Decimal.IntToString` | bot/memory.py:55 | `str(imp)` is digits with a leading minus sign exactly for negative values |
| `Decimal.NatRoundTrip` | bot/memory.py:55 | the digits of `n` read back as `n` |
| `Decimal.IntRoundTrip` | bot/memory.py:55 | `str(imp)` reads back as `imp` |
| `Lines.Join` | bot/memory.py:56 | `"\n".join` of no lines is `""`; otherwise the text starts with the first line, and its length is the first line's, plus one separator when more lines follow, plus that of the join of the rest |
| `Lines.SplitWithout` | bot/memory.py:56 | a line without the separator splits into itself alone |
| `Lines.SplitAfter` | bot/memory.py:56 | splitting stops at the first separator |
| `Lines.SplitJoin` | bot/memory.py:56 | joining lines that hold no separator is undone by splitting: the lines come back in order, with none added |

## Left out

- The SQLite connection, the `_conn` helper, commit and close. The table is abstract state:
  the `rows` and `nextId` fields.
- `os.makedirs` on the parent directory. This is file-system I/O.
- The two `CREATE INDEX IF NOT EXISTS` statements. They change performance; beyond that they
  can only affect the order among rows with equal `created_at`, which SQL leaves open and the
  model fixes as larger id first.
- `time.time()`. Its value is the `now` parameter of `Add`.
- Concurrent stores or processes on the same file. SQLite serialises writers. In the model
  each `MemoryStore` object holds its own copy of the table (`rows`, `nextId`): two objects
  opened on one file, even when used one after the other (for example one per owner), do not
  see each other's rows, and their ids are unique per object, not per file.
- `int(...)` coercion failures on non-numeric `importance` or `limit`. The model's parameters
  are typed integers.
- A negative `limit`. SQLite reads it as "no limit". The model's `limit` is a `nat`.
- `Memory.MemoryStore.Latest`: does not model the `OverflowError` that `latest` raises when
  `owner_id` or `limit` does not fit a 64-bit integer; the model's query is total.
- `None` passed for a `NOT NULL` column, and other dynamic-typing errors. The model's
  parameters are typed.
- `Context.ContextLines`: the one-line-per-row reading holds only when no kind or content
  contains a line break. `strip()` removes only surrounding whitespace, so stored content
  can still hold an inner newline, and the rendered block then has more lines than rows.
- `Context.RenderParses`: a kind that contains `]` makes a rendered line ambiguous, so the
  read-back is stated only for kinds without `]`.
