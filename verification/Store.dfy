/**
 What the rewritten queries are about: tables of records, addressed by record ids, and the
 rows a SELECT yields. Values are opaque.
 */
module Store {
  datatype RecordId = RecordId(table: string, key: string)

  datatype Row = Row(id: RecordId, fields: map<string, int>)

  type Database = map<string, seq<Row>>

  /** Every record of a table has an id of that table, and no two have the same. */
  ghost predicate WellFormed(db: Database) {
    forall t | t in db ::
      && (forall i | 0 <= i < |db[t]| :: db[t][i].id.table == t)
      && (forall i, j | 0 <= i < j < |db[t]| :: db[t][i].id != db[t][j].id)
  }

  function Rows(db: Database, table: string): seq<Row> {
    if table in db then db[table] else []
  }

  function Filter(rows: seq<Row>, p: Row -> bool): seq<Row> {
    if rows == [] then []
    else if p(rows[0]) then [rows[0]] + Filter(rows[1..], p)
    else Filter(rows[1..], p)
  }

  /** Direct record access `FROM $p`: the record with that id, if there is one. */
  function Fetch(db: Database, id: RecordId): seq<Row> {
    Filter(Rows(db, id.table), (r: Row) => r.id == id)
  }

  /** `FROM $p1, $p2, ...`. */
  function FetchAll(db: Database, ids: seq<RecordId>): seq<Row> {
    if ids == [] then [] else Fetch(db, ids[0]) + FetchAll(db, ids[1..])
  }

  lemma {:induction false} FilterAppend(a: seq<Row>, b: seq<Row>, p: Row -> bool)
    ensures Filter(a + b, p) == Filter(a, p) + Filter(b, p)
  {
    if a == [] {
      assert a + b == b;
    } else {
      assert (a + b)[1..] == a[1..] + b;
      FilterAppend(a[1..], b, p);
      assert [a[0]] + (Filter(a[1..], p) + Filter(b, p)) == ([a[0]] + Filter(a[1..], p)) + Filter(b, p);
    }
  }

  lemma {:induction false} FilterMember(rows: seq<Row>, p: Row -> bool, r: Row)
    ensures r in Filter(rows, p) <==> r in rows && p(r)
  {
    if rows != [] {
      assert r in rows <==> r == rows[0] || r in rows[1..];
      FilterMember(rows[1..], p, r);
    }
  }

  /** How often a row passes a filter. */
  lemma {:induction false} FilterCount(rows: seq<Row>, p: Row -> bool, r: Row)
    ensures multiset(Filter(rows, p))[r] == if p(r) then multiset(rows)[r] else 0
  {
    if rows != [] {
      assert rows == [rows[0]] + rows[1..];
      FilterCount(rows[1..], p, r);
    }
  }

  lemma {:induction false} FilterTwice(rows: seq<Row>, p: Row -> bool, q: Row -> bool)
    ensures Filter(Filter(rows, p), q) == Filter(rows, (r: Row) => p(r) && q(r))
  {
    if rows != [] {
      FilterTwice(rows[1..], p, q);
      assert ([rows[0]] + Filter(rows[1..], p))[1..] == Filter(rows[1..], p);
    }
  }

  lemma {:induction false} FilterSame(rows: seq<Row>, p: Row -> bool, q: Row -> bool)
    requires forall r | r in rows :: p(r) == q(r)
    ensures Filter(rows, p) == Filter(rows, q)
  {
    if rows != [] {
      assert rows[0] in rows;
      forall r | r in rows[1..] ensures p(r) == q(r) { assert r in rows; }
      FilterSame(rows[1..], p, q);
    }
  }

  lemma {:induction false} FilterNone(rows: seq<Row>, p: Row -> bool)
    requires forall r | r in rows :: !p(r)
    ensures Filter(rows, p) == []
  {
    if rows != [] {
      assert rows[0] in rows;
      FilterNone(rows[1..], p);
    }
  }

  /** A filter that accepts one id only yields at most one row of a table. */
  lemma {:induction false} AtMostOne(rows: seq<Row>, p: Row -> bool, id: RecordId)
    requires forall r | p(r) :: r.id == id
    requires forall i, j | 0 <= i < j < |rows| :: rows[i].id != rows[j].id
    ensures |Filter(rows, p)| <= 1
  {
    if rows != [] {
      AtMostOne(rows[1..], p, id);
      if p(rows[0]) {
        forall r | r in rows[1..] ensures !p(r) {
          var j :| 0 <= j < |rows| - 1 && rows[1..][j] == r;
          assert rows[j + 1] == r;
        }
        FilterNone(rows[1..], p);
      }
    }
  }

  /** A row occurs at most once in a table. */
  lemma {:induction false} UniqueRows(rows: seq<Row>, r: Row)
    requires forall i, j | 0 <= i < j < |rows| :: rows[i].id != rows[j].id
    ensures multiset(rows)[r] == if r in rows then 1 else 0
  {
    if rows != [] {
      assert rows == [rows[0]] + rows[1..];
      UniqueRows(rows[1..], r);
      assert r in rows <==> r == rows[0] || r in rows[1..];
    }
  }

  /** Direct access yields a record once, under its own id, wherever the id points. */
  lemma FetchCount(db: Database, id: RecordId, r: Row)
    requires WellFormed(db)
    ensures multiset(Fetch(db, id))[r] == if r.id == id && r in Rows(db, id.table) then 1 else 0
  {
    FilterCount(Rows(db, id.table), (x: Row) => x.id == id, r);
    UniqueRows(Rows(db, id.table), r);
  }

  /** How often an id stands in a list. */
  function Copies(ids: seq<RecordId>, id: RecordId): nat {
    multiset(ids)[id]
  }

  /** Listed direct access yields a record as often as its id is listed. */
  lemma {:induction false} FetchAllCount(db: Database, ids: seq<RecordId>, r: Row)
    requires WellFormed(db)
    ensures multiset(FetchAll(db, ids))[r] == if r in Rows(db, r.id.table) then Copies(ids, r.id) else 0
  {
    if ids != [] {
      assert ids == [ids[0]] + ids[1..];
      FetchCount(db, ids[0], r);
      FetchAllCount(db, ids[1..], r);
    }
  }
}
