/**
 The row cursor of the database/sql layer (sqldriver.go:125-257): a result becomes rows under
 the sorted keys of the first document, and Next copies one row at a time into a slice the
 caller keeps using.
 */
module RowCursor {
  datatype Value =
    | Null
    | Bool(b: bool)
    | Text(s: string)
    | Int(n: int)
    | Uint64(u: nat)
    | Float(r: real)
    | Doc(fields: map<string, Value>)
    | List(items: seq<Value>)

  /** What database/sql accepts; everything that is not a scalar is JSON text of the value. */
  datatype DriverValue = NullValue | BoolValue(b: bool) | TextValue(s: string) | IntValue(n: int) | FloatValue(r: real) | Json(v: Value)

  const TWO_63 := 0x8000_0000_0000_0000
  const TWO_64 := 0x1_0000_0000_0000_0000

  function ToDriverValue(v: Value): DriverValue {
    match v
    case Null => NullValue
    case Bool(b) => BoolValue(b)
    case Text(s) => TextValue(s)
    case Int(n) => IntValue(n)
    case Uint64(u) => IntValue(if u % TWO_64 < TWO_63 then u % TWO_64 else u % TWO_64 - TWO_64)
    case Float(r) => FloatValue(r)
    case Doc(_) => Json(v)
    case List(_) => Json(v)
  }

  /** A result as the SDK decodes it: absent, a slice, a slice of documents, or one value. */
  datatype Result = Absent | Slice(values: seq<Value>) | Docs(docs: seq<map<string, Value>>) | Single(v: Value)

  function RowsOf(r: Result): seq<Value> {
    match r
    case Absent => []
    case Slice(vs) => vs
    case Docs(ds) => seq(|ds|, i requires 0 <= i < |ds| => Doc(ds[i]))
    case Single(v) => [v]
  }

  function CountResult(r: Result): nat {
    match r
    case Absent => 0
    case Slice(vs) => |vs|
    case Docs(ds) => |ds|
    case Single(_) => 1
  }

  // -------------------------------------------------------------- sorted column names

  predicate Less(a: string, b: string) {
    b != [] && (a == [] || a[0] < b[0] || (a[0] == b[0] && Less(a[1..], b[1..])))
  }

  lemma {:induction false} LessTotal(a: string, b: string)
    ensures a == b || Less(a, b) || Less(b, a)
    ensures !(Less(a, b) && Less(b, a)) && !Less(a, a)
  {
    if a != [] && b != [] {
      LessTotal(a[1..], b[1..]);
      LessTotal(a[1..], a[1..]);
      if a[0] == b[0] && a[1..] == b[1..] {
        assert a == [a[0]] + a[1..] && b == [b[0]] + b[1..];
      }
    } else if a != [] {
      LessTotal(a[1..], a[1..]);
    }
  }

  lemma {:induction false} LessTransitive(a: string, b: string, c: string)
    requires Less(a, b) && Less(b, c)
    ensures Less(a, c)
  {
    if a != [] && a[0] == b[0] == c[0] {
      LessTransitive(a[1..], b[1..], c[1..]);
    }
  }

  predicate Sorted(xs: seq<string>) {
    forall i, j | 0 <= i < j < |xs| :: Less(xs[i], xs[j])
  }

  function Insert(x: string, xs: seq<string>): seq<string> {
    if xs == [] || Less(x, xs[0]) then [x] + xs else [xs[0]] + Insert(x, xs[1..])
  }

  /** `sort.Strings`, on names that are all different. */
  function Sort(xs: seq<string>): seq<string> {
    if xs == [] then [] else Insert(xs[|xs| - 1], Sort(xs[..|xs| - 1]))
  }

  lemma {:induction false} InsertSorted(x: string, xs: seq<string>)
    requires Sorted(xs) && x !in xs
    ensures Sorted(Insert(x, xs)) && forall y :: y in Insert(x, xs) <==> y == x || y in xs
  {
    if xs == [] {
    } else if Less(x, xs[0]) {
      forall j | 0 <= j < |xs| ensures Less(x, xs[j]) {
        if j > 0 { LessTransitive(x, xs[0], xs[j]); }
      }
    } else {
      LessTotal(x, xs[0]);
      var rest := xs[1..];
      assert forall i, j | 0 <= i < j < |rest| :: rest[i] == xs[i + 1] && rest[j] == xs[j + 1];
      InsertSorted(x, rest);
      forall y | y in Insert(x, rest) ensures Less(xs[0], y) {
        if y in rest {
          var j :| 0 <= j < |rest| && rest[j] == y;
          assert xs[j + 1] == y;
        }
      }
      SortedCons(xs[0], Insert(x, rest));
      assert forall y :: y in xs <==> y == xs[0] || y in rest;
    }
  }

  lemma SortedCons(x: string, xs: seq<string>)
    requires Sorted(xs) && forall y | y in xs :: Less(x, y)
    ensures Sorted([x] + xs)
  {
  }

  ghost predicate Distinct(xs: seq<string>) {
    forall i, j | 0 <= i < j < |xs| :: xs[i] != xs[j]
  }

  lemma {:induction false} SortSorts(xs: seq<string>)
    requires Distinct(xs)
    ensures Sorted(Sort(xs)) && forall y :: y in Sort(xs) <==> y in xs
  {
    if xs != [] {
      var p, x := xs[..|xs| - 1], xs[|xs| - 1];
      SortSorts(p);
      InsertSorted(x, Sort(p));
      assert xs == p + [x];
    }
  }

  lemma SortedHead(xs: seq<string>, ys: seq<string>)
    requires Sorted(xs) && Sorted(ys) && xs != [] && ys != []
    requires forall x :: x in xs <==> x in ys
    ensures xs[0] == ys[0]
  {
    LessTotal(xs[0], ys[0]);
    assert xs[0] in ys && ys[0] in xs;
    var i :| 0 <= i < |ys| && ys[i] == xs[0];
    var j :| 0 <= j < |xs| && xs[j] == ys[0];
  }

  /** A set of names has one sorted listing. */
  lemma {:induction false} SortedUnique(xs: seq<string>, ys: seq<string>)
    requires Sorted(xs) && Sorted(ys) && forall x :: x in xs <==> x in ys
    ensures xs == ys
  {
    HeadMember(xs);
    HeadMember(ys);
    if xs != [] && ys != [] {
      SortedHead(xs, ys);
      forall x ensures x in xs[1..] <==> x in ys[1..] {
        LessTotal(xs[0], xs[0]);
        TailMember(xs, x);
        TailMember(ys, x);
      }
      SortedUnique(xs[1..], ys[1..]);
      assert xs == [xs[0]] + xs[1..] && ys == [ys[0]] + ys[1..];
    }
  }

  lemma HeadMember(xs: seq<string>)
    ensures xs != [] ==> xs[0] in xs
  {
  }

  lemma TailMember(xs: seq<string>, x: string)
    requires Sorted(xs) && xs != []
    ensures x in xs[1..] <==> x in xs && x != xs[0]
  {
    LessTotal(xs[0], xs[0]);
    if x in xs[1..] {
      var j :| 0 <= j < |xs| - 1 && xs[1..][j] == x;
      assert xs[j + 1] == x && Less(xs[0], xs[j + 1]);
    }
  }

  ghost predicate IsOrder(order: seq<string>, keys: set<string>) {
    Distinct(order) && forall k :: k in order <==> k in keys
  }

  /** The columns of a result: whatever order the map of the first document is visited in, its
      sorted keys; one column `value` for a scalar; none without rows. */
  ghost predicate IsColumns(columns: seq<string>, rows: seq<Value>) {
    if rows == [] then columns == []
    else if rows[0].Doc? then Sorted(columns) && forall k :: k in columns <==> k in rows[0].fields
    else columns == ["value"]
  }

  lemma ColumnsUnique(a: seq<string>, b: seq<string>, rows: seq<Value>)
    requires IsColumns(a, rows) && IsColumns(b, rows)
    ensures a == b
  {
    if rows != [] && rows[0].Doc? {
      SortedUnique(a, b);
    }
  }

  // ------------------------------------------------------------------- the cursor

  /** What Next leaves in the destination: documents fill as many columns as fit, a scalar the first place only. */
  function Emit(row: Value, columns: seq<string>, dest: seq<DriverValue>): seq<DriverValue> {
    seq(|dest|, i requires 0 <= i < |dest| =>
      if row.Doc? then
        if i < |columns| then ToDriverValue(if columns[i] in row.fields then row.fields[columns[i]] else Null) else dest[i]
      else if i == 0 then ToDriverValue(row) else dest[i])
  }

  class Rows {
    const columns: seq<string>
    const rows: seq<Value>
    var idx: nat

    constructor (columns: seq<string>, rows: seq<Value>)
      ensures this.columns == columns && this.rows == rows && idx == 0
    {
      this.columns, this.rows, idx := columns, rows, 0;
    }

    method Next(dest: array<DriverValue>) returns (eof: bool)
      modifies this, dest
      ensures eof <==> old(idx) >= |rows|
      ensures eof ==> idx == old(idx) && dest[..] == old(dest[..])
      ensures !eof ==> idx == old(idx) + 1 && dest[..] == Emit(rows[old(idx)], columns, old(dest[..]))
    {
      if idx >= |rows| {
        return true;
      }
      var row := rows[idx];
      idx := idx + 1;
      eof := false;
      if row.Doc? {
        var i := 0;
        while i < |columns| && i < dest.Length
          invariant 0 <= i <= |columns| && i <= dest.Length && idx == old(idx) + 1
          invariant forall k | 0 <= k < i :: dest[k] == Emit(row, columns, old(dest[..]))[k]
          invariant forall k | i <= k < dest.Length :: dest[k] == old(dest[k])
        {
          var col := columns[i];
          dest[i] := ToDriverValue(if col in row.fields then row.fields[col] else Null);
          i := i + 1;
        }
        return;
      }
      if dest.Length > 0 {
        dest[0] := ToDriverValue(row);
      }
    }
  }

  method NewRows(result: Result) returns (r: Rows)
    ensures fresh(r) && r.idx == 0 && r.rows == RowsOf(result) && IsColumns(r.columns, r.rows)
  {
    var rows := RowsOf(result);
    var columns := [];
    if |rows| > 0 {
      if rows[0].Doc? {
        var m := rows[0].fields;
        var cols, rest := [], m.Keys;
        while rest != {}
          invariant rest <= m.Keys && IsOrder(cols, m.Keys - rest)
        {
          var k :| k in rest;
          rest := rest - {k};
          cols := cols + [k];
        }
        assert m.Keys - rest == m.Keys;
        SortSorts(cols);
        columns := Sort(cols);
      } else {
        columns := ["value"];
      }
    }
    r := new Rows(columns, rows);
  }

  // ---------------------------------------------------------------- main results

  /** The rows a caller sees that drains the cursor into one destination. */
  function Emissions(rows: seq<Value>, columns: seq<string>, dest: seq<DriverValue>): (r: seq<seq<DriverValue>>)
    ensures |r| == |rows|
  {
    if rows == [] then []
    else
      var first := Emit(rows[0], columns, dest);
      [first] + Emissions(rows[1..], columns, first)
  }

  lemma Regroup<T>(a: seq<T>, x: T, b: seq<T>)
    ensures a + ([x] + b) == (a + [x]) + b
  {
  }

  /** Draining yields as many rows as the result counts, and then only EOF. */
  method Drain(result: Result, r: Rows, dest: array<DriverValue>) returns (out: seq<seq<DriverValue>>)
    requires r.idx == 0 && r.rows == RowsOf(result)
    modifies r, dest
    ensures |out| == CountResult(result)
    ensures out == Emissions(r.rows, r.columns, old(dest[..]))
    ensures r.idx == |r.rows|
  {
    out := [];
    assert r.rows[0..] == r.rows;
    while true
      invariant r.idx == |out| <= |r.rows|
      invariant out + Emissions(r.rows[r.idx..], r.columns, dest[..]) == Emissions(r.rows, r.columns, old(dest[..]))
      decreases |r.rows| - r.idx
    {
      ghost var rest, before := r.rows[r.idx..], dest[..];
      var eof := r.Next(dest);
      if eof {
        return;
      }
      assert rest[1..] == r.rows[r.idx..];
      Regroup(out, dest[..], Emissions(rest[1..], r.columns, dest[..]));
      out := out + [dest[..]];
    }
  }

  /** A document projected on the columns: missing keys are null, extra keys are dropped. */
  function Project(m: map<string, Value>, columns: seq<string>): seq<DriverValue> {
    seq(|columns|, i requires 0 <= i < |columns| => ToDriverValue(if columns[i] in m then m[columns[i]] else Null))
  }

  lemma {:induction false} EmissionAt(rows: seq<Value>, columns: seq<string>, dest: seq<DriverValue>, n: nat)
    requires n < |rows|
    ensures Emissions(rows, columns, dest)[n] ==
            Emit(rows[n], columns, if n == 0 then dest else Emissions(rows, columns, dest)[n - 1])
    ensures |Emissions(rows, columns, dest)[n]| == |dest|
  {
    if n > 0 {
      var first := Emit(rows[0], columns, dest);
      EmissionAt(rows[1..], columns, first, n - 1);
    }
  }

  /** With a destination of the columns' width, every document comes out as its own projection,
      whatever was emitted before it. */
  lemma DocumentsAreProjected(rows: seq<Value>, columns: seq<string>, dest: seq<DriverValue>, n: nat)
    requires n < |rows| && rows[n].Doc? && |dest| == |columns|
    ensures Emissions(rows, columns, dest)[n] == Project(rows[n].fields, columns)
  {
    EmissionAt(rows, columns, dest, n);
    if n > 0 {
      EmissionAt(rows, columns, dest, n - 1);
    }
  }

  /** A row stands for itself, independently of what the destination held, exactly when it is a
      document or there is at most one column: a scalar behind wider documents leaves the
      other columns of the row before it. */
  lemma RowIndependentExact(row: Value, columns: seq<string>)
    ensures (forall a, b: seq<DriverValue> | |a| == |b| == |columns| :: Emit(row, columns, a) == Emit(row, columns, b)) <==>
            row.Doc? || |columns| <= 1
  {
    if row.Doc? || |columns| <= 1 {
      forall a, b: seq<DriverValue> | |a| == |b| == |columns| ensures Emit(row, columns, a) == Emit(row, columns, b) {
      }
    } else {
      var a: seq<DriverValue> := seq(|columns|, _ => NullValue);
      var b: seq<DriverValue> := seq(|columns|, _ => BoolValue(true));
      assert Emit(row, columns, a)[1] == NullValue && Emit(row, columns, b)[1] == BoolValue(true);
    }
  }

  // ---------------------------------------------------------------------- the cells

  /** What database/sql is handed for a value: scalars as they are, an unsigned number as the signed
      one with the same 64 bits, everything else as the JSON text of the value. */
  ghost predicate CellOf(v: Value, d: DriverValue) {
    match v
    case Null => d.NullValue?
    case Bool(b) => d.BoolValue? && d.b == b
    case Text(s) => d.TextValue? && d.s == s
    case Int(n) => d.IntValue? && d.n == n
    case Uint64(u) => d.IntValue? && (d.n - u) % 0x1_0000_0000_0000_0000 == 0 && -0x8000_0000_0000_0000 <= d.n < 0x8000_0000_0000_0000
    case Float(r) => d.FloatValue? && d.r == r
    case Doc(_) => d.Json? && d.v == v
    case List(_) => d.Json? && d.v == v
  }

  lemma SameBits(a: int, b: int, u: int)
    requires (a - u) % TWO_64 == 0 && (b - u) % TWO_64 == 0
    requires -TWO_63 <= a < TWO_63 && -TWO_63 <= b < TWO_63
    ensures a == b
  {
    var x, y := (a - u) / TWO_64, (b - u) / TWO_64;
    assert a - u == x * TWO_64 && b - u == y * TWO_64;
    assert a - b == (x - y) * TWO_64;
  }

  lemma SignedBits(u: nat) returns (n: int)
    ensures n == (if u % TWO_64 < TWO_63 then u % TWO_64 else u % TWO_64 - TWO_64)
    ensures (n - u) % TWO_64 == 0 && -TWO_63 <= n < TWO_63
  {
    n := if u % TWO_64 < TWO_63 then u % TWO_64 else u % TWO_64 - TWO_64;
    var k := u / TWO_64;
    assert u == k * TWO_64 + u % TWO_64;
    Multiple(n - u, if u % TWO_64 < TWO_63 then -k else -k - 1);
  }

  lemma Multiple(a: int, k: int)
    requires a == k * TWO_64
    ensures a % TWO_64 == 0
  {
  }

  /** Every value has one cell, and the conversion finds it. */
  lemma CellExact(v: Value, d: DriverValue)
    ensures CellOf(v, d) <==> d == ToDriverValue(v)
  {
    if v.Uint64? {
      var n := SignedBits(v.u);
      if d.IntValue? && CellOf(v, d) {
        SameBits(d.n, n, v.u);
      }
    }
  }

  /** Two values that are told apart stay apart, but for an unsigned number and the signed one with
      the same bits. */
  lemma CellsCollide(v: Value, w: Value)
    requires v.Uint64? ==> v.u < TWO_64
    requires w.Uint64? ==> w.u < TWO_64
    ensures ToDriverValue(v) == ToDriverValue(w) <==>
            v == w || (v.Uint64? && w.Int? && ToDriverValue(v) == IntValue(w.n)) || (v.Int? && w.Uint64? && ToDriverValue(w) == IntValue(v.n))
  {
  }

  /**
   From the result to the caller: draining a result of documents into a destination of the
   columns' width yields a row for each document, and in it under every key of the first
   document the cell of that document's own value, or null without one.
   */
  lemma DocumentCells(docs: seq<map<string, Value>>, columns: seq<string>, dest: seq<DriverValue>, n: nat, c: nat)
    requires n < |docs| && c < |columns| && |dest| == |columns|
    requires Sorted(columns) && forall k :: k in columns <==> k in docs[0]
    ensures IsColumns(columns, RowsOf(Docs(docs)))
    ensures var out := Emissions(RowsOf(Docs(docs)), columns, dest);
            && |out| == |docs| && c < |out[n]| && columns[c] in docs[0]
            && CellOf(if columns[c] in docs[n] then docs[n][columns[c]] else Null, out[n][c])
  {
    var rows := RowsOf(Docs(docs));
    assert rows[n] == Doc(docs[n]) && rows[0] == Doc(docs[0]);
    DocumentsAreProjected(rows, columns, dest, n);
    var v := if columns[c] in docs[n] then docs[n][columns[c]] else Null;
    CellExact(v, ToDriverValue(v));
    assert columns[c] in columns;
  }

  /** The rows of a result: the elements of a slice, in order, one for any other value, none without one. */
  lemma RowsExact(result: Result)
    ensures CountResult(result) == |RowsOf(result)|
    ensures |RowsOf(result)| == if result.Absent? then 0 else if result.Slice? then |result.values| else if result.Docs? then |result.docs| else 1
    ensures result.Slice? ==> forall i | 0 <= i < |result.values| :: RowsOf(result)[i] == result.values[i]
    ensures result.Docs? ==> forall i | 0 <= i < |result.docs| :: RowsOf(result)[i] == Doc(result.docs[i])
    ensures result.Single? ==> RowsOf(result)[0] == result.v
  {
  }

  /** A single value that is no document comes out as one row of one cell. */
  lemma ScalarCell(v: Value, columns: seq<string>, before: DriverValue)
    requires !v.Doc? && IsColumns(columns, RowsOf(Single(v)))
    ensures columns == ["value"]
    ensures var out := Emissions(RowsOf(Single(v)), columns, [before]); |out| == 1 && |out[0]| == 1 && CellOf(v, out[0][0])
  {
    CellExact(v, ToDriverValue(v));
    assert [v][1..] == [];
  }
}
