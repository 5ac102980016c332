/** `SELECT id, kind, content, importance FROM memories WHERE owner_id=? ORDER BY created_at DESC LIMIT ?`
    as filter, sort and take over the table's rows. */
module Query {
  import opened Schema

  /** The rows of `owner`, in table order (`WHERE owner_id=?`). */
  function OwnedBy(rows: seq<Row>, owner: int): (r: seq<Row>)
    ensures |r| <= |rows|
    ensures forall x :: x in r <==> x in rows && x.ownerId == owner
  {
    if rows == [] then []
    else if rows[0].ownerId == owner then [rows[0]] + OwnedBy(rows[1..], owner)
    else OwnedBy(rows[1..], owner)
  }

  /** `a` may precede `b` under `ORDER BY created_at DESC`. SQL leaves the order of equal
      timestamps open; the model puts the larger id (the later insertion) first. */
  predicate NewerOrSame(a: Row, b: Row) {
    a.createdAt > b.createdAt || (a.createdAt == b.createdAt && a.id >= b.id)
  }

  predicate NewestFirst(s: seq<Row>) {
    forall i, j :: 0 <= i < j < |s| ==> NewerOrSame(s[i], s[j])
  }

  predicate DistinctIds(s: seq<Row>) {
    forall i, j :: 0 <= i < j < |s| ==> s[i].id != s[j].id
  }

  /** `x` placed before the first row it is newer than or as new as. */
  function Insert(x: Row, s: seq<Row>): (r: seq<Row>)
    ensures multiset(r) == multiset(s) + multiset{x}
  {
    if s == [] || NewerOrSame(x, s[0]) then [x] + s
    else
      assert s == [s[0]] + s[1..];
      [s[0]] + Insert(x, s[1..])
  }

  /** The rows sorted newest first (insertion sort). */
  function SortNewestFirst(s: seq<Row>): (r: seq<Row>)
    ensures multiset(r) == multiset(s)
  {
    if s == [] then []
    else
      assert s == [s[0]] + s[1..];
      Insert(s[0], SortNewestFirst(s[1..]))
  }

  lemma PrependNewestFirst(x: Row, t: seq<Row>)
    requires NewestFirst(t)
    requires forall k :: 0 <= k < |t| ==> NewerOrSame(x, t[k])
    ensures NewestFirst([x] + t)
  {
  }

  /** Every element of `Insert(x, s)` is `x` or sits at some index of `s`. */
  lemma InsertMember(x: Row, s: seq<Row>, k: nat)
    requires k < |Insert(x, s)|
    ensures Insert(x, s)[k] == x || exists m :: 0 <= m < |s| && s[m] == Insert(x, s)[k]
  {
    var y := Insert(x, s)[k];
    assert y in multiset(Insert(x, s));
    if y != x {
      assert y in multiset(s);
      assert y in s;
    }
  }

  lemma {:induction false} InsertNewestFirst(x: Row, s: seq<Row>)
    requires NewestFirst(s)
    ensures NewestFirst(Insert(x, s))
  {
    if s == [] {
    } else if NewerOrSame(x, s[0]) {
      forall k | 0 <= k < |s| ensures NewerOrSame(x, s[k]) {
        if k > 0 {
          assert NewerOrSame(s[0], s[k]);
        }
      }
      PrependNewestFirst(x, s);
    } else {
      var tail := s[1..];
      var t := Insert(x, tail);
      InsertNewestFirst(x, tail);
      forall k | 0 <= k < |t| ensures NewerOrSame(s[0], t[k]) {
        InsertMember(x, tail, k);
        if t[k] != x {
          var m :| 0 <= m < |tail| && tail[m] == t[k];
          assert s[m + 1] == t[k];
        }
      }
      PrependNewestFirst(s[0], t);
    }
  }

  /** The sorted rows are newest first. */
  lemma {:induction false} SortIsNewestFirst(s: seq<Row>)
    ensures NewestFirst(SortNewestFirst(s))
  {
    if s != [] {
      SortIsNewestFirst(s[1..]);
      InsertNewestFirst(s[0], SortNewestFirst(s[1..]));
    }
  }

  lemma DistinctPrepend(x: Row, t: seq<Row>)
    requires DistinctIds(t)
    requires forall k :: 0 <= k < |t| ==> t[k].id != x.id
    ensures DistinctIds([x] + t)
  {
  }

  lemma {:induction false} InsertDistinct(x: Row, s: seq<Row>)
    requires DistinctIds(s)
    requires forall y :: y in s ==> y.id != x.id
    ensures DistinctIds(Insert(x, s))
  {
    if s == [] || NewerOrSame(x, s[0]) {
      DistinctPrepend(x, s);
    } else {
      var tail := s[1..];
      var t := Insert(x, tail);
      assert forall y :: y in tail ==> y in s;
      InsertDistinct(x, tail);
      forall k | 0 <= k < |t| ensures t[k].id != s[0].id {
        InsertMember(x, tail, k);
        if t[k] != x {
          var m :| 0 <= m < |tail| && tail[m] == t[k];
          assert s[m + 1] == t[k];
        }
      }
      DistinctPrepend(s[0], t);
    }
  }

  /** Sorting rows with distinct ids keeps them distinct. */
  lemma {:induction false} SortDistinct(s: seq<Row>)
    requires DistinctIds(s)
    ensures DistinctIds(SortNewestFirst(s))
  {
    if s != [] {
      var tail := s[1..];
      var sorted := SortNewestFirst(tail);
      SortDistinct(tail);
      forall y | y in sorted ensures y.id != s[0].id {
        assert y in multiset(sorted);
        assert y in multiset(tail);
        var m :| 0 <= m < |tail| && tail[m] == y;
        assert s[m + 1] == y;
      }
      InsertDistinct(s[0], sorted);
    }
  }

  function Min(a: nat, b: nat): nat {
    if a < b then a else b
  }

  /** The rows `latest(limit)` reads, before projecting them to entries. */
  function LatestRows(rows: seq<Row>, owner: int, limit: nat): seq<Row> {
    var sorted := SortNewestFirst(OwnedBy(rows, owner));
    sorted[..Min(limit, |sorted|)]
  }

  /** `(id, kind, content, importance)` of each row, in order. */
  function Project(rows: seq<Row>): seq<Entry> {
    seq(|rows|, i requires 0 <= i < |rows| => ToEntry(rows[i]))
  }

  lemma PrependIncreasing(x: Row, t: seq<Row>)
    requires IdsIncreasing(t)
    requires forall k :: 0 <= k < |t| ==> x.id < t[k].id
    ensures IdsIncreasing([x] + t)
  {
  }

  /** Filtering keeps the table's id order. */
  lemma {:induction false} OwnedByIncreasing(rows: seq<Row>, owner: int)
    requires IdsIncreasing(rows)
    ensures IdsIncreasing(OwnedBy(rows, owner))
  {
    if rows != [] {
      var tail := rows[1..];
      assert IdsIncreasing(tail);
      OwnedByIncreasing(tail, owner);
      if rows[0].ownerId == owner {
        var t := OwnedBy(tail, owner);
        forall k | 0 <= k < |t| ensures rows[0].id < t[k].id {
          assert t[k] in tail;
          var m :| 0 <= m < |tail| && tail[m] == t[k];
          assert rows[m + 1] == t[k];
        }
        PrependIncreasing(rows[0], t);
      }
    }
  }

  /** A row appended to the table joins its own owner's rows at the end, and no one else's. */
  lemma {:induction false} OwnedByAppend(rows: seq<Row>, x: Row, owner: int)
    ensures OwnedBy(rows + [x], owner)
         == OwnedBy(rows, owner) + (if x.ownerId == owner then [x] else [])
  {
    if rows == [] {
      assert [x][1..] == [];
    } else {
      assert (rows + [x])[1..] == rows[1..] + [x];
      OwnedByAppend(rows[1..], x, owner);
    }
  }

  /** `latest(limit)` returns `limit` rows, or all of the owner's rows when there are fewer. */
  lemma LatestCount(rows: seq<Row>, owner: int, limit: nat)
    ensures |LatestRows(rows, owner, limit)| == Min(limit, |OwnedBy(rows, owner)|)
  {
    var owned := OwnedBy(rows, owner);
    assert |multiset(SortNewestFirst(owned))| == |multiset(owned)|;
  }

  /** Every row `latest` returns is a row of the table that belongs to the owner. */
  lemma LatestOwned(rows: seq<Row>, owner: int, limit: nat)
    ensures forall x :: x in LatestRows(rows, owner, limit) ==> x in rows && x.ownerId == owner
  {
    var sorted := SortNewestFirst(OwnedBy(rows, owner));
    forall x | x in LatestRows(rows, owner, limit) ensures x in rows && x.ownerId == owner {
      assert x in sorted;
      assert x in multiset(sorted);
    }
  }

  /** `latest` lists rows newest first: `created_at` never increases along the result. */
  lemma LatestOrder(rows: seq<Row>, owner: int, limit: nat)
    ensures NewestFirst(LatestRows(rows, owner, limit))
    ensures forall i, j :: 0 <= i < j < |LatestRows(rows, owner, limit)| ==>
      LatestRows(rows, owner, limit)[i].createdAt >= LatestRows(rows, owner, limit)[j].createdAt
  {
    SortIsNewestFirst(OwnedBy(rows, owner));
  }

  /** No row appears twice in `latest` (ids are the table's primary key). */
  lemma LatestDistinct(rows: seq<Row>, owner: int, limit: nat)
    requires IdsIncreasing(rows)
    ensures DistinctIds(LatestRows(rows, owner, limit))
  {
    OwnedByIncreasing(rows, owner);
    SortDistinct(OwnedBy(rows, owner));
  }

  /** `LIMIT` keeps the newest rows: every row of the owner that `latest` leaves out is no
      newer than any row it returns. */
  lemma LatestKeepsNewest(rows: seq<Row>, owner: int, limit: nat)
    ensures forall x, i ::
      (x in rows && x.ownerId == owner && x !in LatestRows(rows, owner, limit) &&
       0 <= i < |LatestRows(rows, owner, limit)|) ==> NewerOrSame(LatestRows(rows, owner, limit)[i], x)
  {
    var owned := OwnedBy(rows, owner);
    var sorted := SortNewestFirst(owned);
    var r := LatestRows(rows, owner, limit);
    SortIsNewestFirst(owned);
    forall x, i | x in rows && x.ownerId == owner && x !in r && 0 <= i < |r|
      ensures NewerOrSame(r[i], x)
    {
      assert x in multiset(owned);
      assert x in sorted;
      var m :| 0 <= m < |sorted| && sorted[m] == x;
      assert forall j :: 0 <= j < |r| ==> r[j] == sorted[j];
      assert r[i] == sorted[i];
    }
  }

  /** A row added after, and no earlier than, every other row of its owner heads that
      owner's `latest` list. */
  lemma LatestShowsAddedFirst(rows: seq<Row>, x: Row, limit: nat)
    requires IdsIncreasing(rows + [x])
    requires forall y :: y in rows && y.ownerId == x.ownerId ==> y.createdAt <= x.createdAt
    requires limit >= 1
    ensures |LatestRows(rows + [x], x.ownerId, limit)| >= 1
    ensures LatestRows(rows + [x], x.ownerId, limit)[0] == x
  {
    var all := rows + [x];
    var owned := OwnedBy(all, x.ownerId);
    var sorted := SortNewestFirst(owned);
    SortIsNewestFirst(owned);
    assert x in all;
    assert x in multiset(sorted);
    var m :| 0 <= m < |sorted| && sorted[m] == x;
    var head := sorted[0];
    assert m > 0 ==> NewerOrSame(head, x);
    assert head in multiset(owned);
    var k :| 0 <= k < |all| && all[k] == head;
    assert all[|rows|] == x;
    assert forall j :: 0 <= j < |rows| ==> all[j] == rows[j];
    if k < |rows| {
      assert false;
    }
  }

  /** Adding a row of one owner leaves every other owner's `latest` unchanged. */
  lemma LatestIgnoresOtherOwners(rows: seq<Row>, x: Row, owner: int, limit: nat)
    requires x.ownerId != owner
    ensures LatestRows(rows + [x], owner, limit) == LatestRows(rows, owner, limit)
  {
    OwnedByAppend(rows, x, owner);
    assert OwnedBy(rows, owner) + [] == OwnedBy(rows, owner);
  }
}
