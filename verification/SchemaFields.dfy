/**
 What AutoMigrate leaves in the schema, read off the model: which names a table ends with, what
 each definition says about its field, and which indexes are asked for (migrator.go:278-507).
 */
module SchemaFields {
  import opened Wrappers
  import opened Strings
  import opened Migration
  import EdgeRegistry

  /** The fields the server fills in: the id, and in an edge table its two ends and the time stamps. */
  predicate ByServer(m: Model, n: string) {
    n == "id" || (m.isEdge && n in ["in", "out", "created_at", "updated_at", "deleted_at"])
  }

  predicate Named(m: Model, n: string) {
    n != "" && exists i | 0 <= i < |m.fields| :: m.fields[i].dbName == n
  }

  /** A field the model gives a type of its own. */
  predicate Typed(m: Model, i: nat) {
    i < |m.fields| && m.fields[i].dbName != "" && m.fields[i].dataType != "" && !ByServer(m, m.fields[i].dbName)
  }

  ghost predicate HasTyped(m: Model, n: string) {
    exists i: nat :: Typed(m, i) && m.fields[i].dbName == n
  }

  lemma TypedDefines(m: Model, i: nat)
    requires i < |m.fields|
    ensures Typed(m, i) <==> Defines(m.fields[i], m.isEdge)
    ensures forall n :: ByServer(m, n) <==> n in Managed(m.isEdge)
  {
  }

  lemma DesiredNames(m: Model, n: string)
    ensures n in Desired(m) <==> ByServer(m, n) || Named(m, n)
  {
    assert ByServer(m, n) <==> n in Managed(m.isEdge);
  }

  lemma DefinitionNames(m: Model, n: string)
    ensures n in Definitions(m) <==> HasTyped(m, n)
    ensures n in FirstDefinitions(m) <==> HasTyped(m, n)
  {
    SameNames(m, |m.fields|);
    if n in Definitions(m) {
      var j := LastIndex(m, |m.fields|, n);
      TypedDefines(m, j);
    }
    if i: nat :| Typed(m, i) && m.fields[i].dbName == n {
      TypedDefines(m, i);
      DefinedIn(m, |m.fields|, i);
    }
  }

  /** The model is the only one of its table. */
  ghost predicate OnlyModel(ms: seq<Model>, k: nat) {
    k < |ms| && forall j | 0 <= j < |ms| && j != k :: ms[j].table != ms[k].table
  }

  /** The table of a model after a run over all models. */
  lemma TableAfter(s: Schema, ms: seq<Model>, k: nat, accepts: Stmt -> bool)
    requires OnlyModel(ms, k) && Creatable(s, ms) && AcceptsDefinitions(accepts)
    ensures var t, m := MigrateAll(s, s.Keys, ms, accepts).0, ms[k];
            m.table in t && t[m.table] == if m.table in s then Reconciled(s[m.table], m, accepts) else FirstDefinitions(m)
  {
    AutoMigrateExact(s, ms, accepts);
    if ms[k].table in s {
      TableRunOnce(s[ms[k].table], ms, k, accepts);
    }
  }

  /**
   The names of a table after any run that goes through: the typed fields of its model, and from
   before what the server fills in, untyped fields of the model, and names whose removal failed.
   */
  lemma MigratedNames(s: Schema, ms: seq<Model>, k: nat, accepts: Stmt -> bool, n: string)
    requires OnlyModel(ms, k) && Creatable(s, ms) && AcceptsDefinitions(accepts)
    ensures var t, m := MigrateAll(s, s.Keys, ms, accepts).0, ms[k];
            && m.table in t
            && (n in t[m.table] <==>
                HasTyped(m, n) ||
                (m.table in s && n in s[m.table] && (ByServer(m, n) || Named(m, n) || !accepts(RemoveField(m.table, n)))))
            && (n in t[m.table] && !HasTyped(m, n) ==> t[m.table][n] == s[m.table][n])
  {
    var m := ms[k];
    TableAfter(s, ms, k, accepts);
    DefinitionNames(m, n);
    DesiredNames(m, n);
    if m.table in s {
      ReconciledExact(s[m.table], m, accepts, n);
    }
  }

  // ----------------------------------------------------------- what a definition says

  /** The type inside `option<...>`. */
  function Inner(t: string): string {
    if "option<" <= t && t[|t| - 1] == '>' then t[7..|t| - 1] else t
  }

  const NONEMPTY := "$value != NONE AND $value != NULL"

  /**
   A field may be absent exactly when it is not NOT NULL (or its own type says so); a geometry
   subtype is a plain geometry; an explicit assertion wins and else exactly NOT NULL fields must
   have a value; a link to records forbids their deletion exactly when it is NOT NULL; and the
   other clauses are there exactly when the tag gives them.
   */
  ghost predicate Says(f: Field, d: Definition) {
    && ("option<" <= d.typeExpr <==> !f.notNull || "option<" <= f.dataType)
    && (!("geometry(" <= f.dataType) ==> (if f.notNull then d.typeExpr else Inner(d.typeExpr)) == f.dataType)
    && ("geometry(" <= f.dataType ==> Inner(d.typeExpr) == "geometry")
    && (f.assertion != "" ==> d.assertion == Some(f.assertion))
    && (f.assertion == "" ==> (d.assertion == Some(NONEMPTY) <==> f.notNull) && (d.assertion == None <==> !f.notNull))
    && (d.reference.Some? <==> Contains(f.dataType, "record<") && !("geometry(" <= f.dataType))
    && (d.reference == Some("REJECT") ==> f.notNull) && (d.reference == Some("UNSET") ==> !f.notNull)
    && (d.reference.Some? ==> d.reference.value in {"REJECT", "UNSET"})
    && (d.flexible <==> f.flexible) && (d.readOnly <==> f.readOnly)
    && (d.defaultValue.Some? <==> f.defaultValue != "")
    && (d.value == if f.value != "" then Some(f.value) else None)
    && (d.permissions == if f.permissions != "" then Some(f.permissions) else None)
  }

  lemma NoRecordInGeometry()
    ensures !Contains("geometry", "record<")
  {
    assert |"geometry"| == 8 && |"record<"| == 7;
    assert !At("geometry", "record<", 0) by { assert "geometry"[..7][0] == 'g' && "record<"[0] == 'r'; }
    assert !At("geometry", "record<", 1) by { assert "geometry"[1..8][0] == 'e' && "record<"[0] == 'r'; }
  }

  lemma NoOptionInGeometry(t: string)
    requires "geometry(" <= t
    ensures !("option<" <= t)
  {
    assert t[0] == 'g' && "option<"[0] == 'o';
  }

  lemma DefineSays(f: Field)
    ensures Says(f, Define(f))
  {
    var d := Define(f);
    var base := if "geometry(" <= f.dataType then "geometry" else f.dataType;
    NoRecordInGeometry();
    assert "geometry"[0] == 'g' && "option<"[0] == 'o';
    if "geometry(" <= f.dataType {
      NoOptionInGeometry(f.dataType);
    }
    if !f.notNull {
      var t := "option<" + base + ">";
      assert t[..7] == "option<" && t[7..|t| - 1] == base;
    }
  }

  lemma OnlyField(m: Model, i: nat)
    requires Typed(m, i) && forall j | 0 <= j < |m.fields| && j != i :: m.fields[j].dbName != m.fields[i].dbName
    ensures var n := m.fields[i].dbName;
            && n in Definitions(m) && Definitions(m)[n] == Define(m.fields[i])
            && n in FirstDefinitions(m) && FirstDefinitions(m)[n] == Define(m.fields[i])
  {
    TypedDefines(m, i);
    DefinedIn(m, |m.fields|, i);
    var j := LastIndex(m, |m.fields|, m.fields[i].dbName);
    var k := FirstIndex(m, |m.fields|, m.fields[i].dbName);
  }

  /** After every run that goes through, each typed field of a model is in the schema, and its
      definition says what the model's field does. */
  lemma MigratedField(s: Schema, ms: seq<Model>, k: nat, i: nat, accepts: Stmt -> bool)
    requires OnlyModel(ms, k) && Creatable(s, ms) && AcceptsDefinitions(accepts) && Typed(ms[k], i)
    requires forall j | 0 <= j < |ms[k].fields| && j != i :: ms[k].fields[j].dbName != ms[k].fields[i].dbName
    ensures var t, m := MigrateAll(s, s.Keys, ms, accepts).0, ms[k];
            m.table in t && m.fields[i].dbName in t[m.table] && Says(m.fields[i], t[m.table][m.fields[i].dbName])
  {
    var m := ms[k];
    TableAfter(s, ms, k, accepts);
    OnlyField(m, i);
    DefineSays(m.fields[i]);
    if m.table in s {
      ReconciledExact(s[m.table], m, accepts, m.fields[i].dbName);
    }
  }

  // -------------------------------------------------------------- the default value

  /** A literal in single quotes, read from behind its first quote: a backslash takes a quote or a
      backslash as it is; None for any other escape and for text that does not end with the literal. */
  function ReadQuoted(s: string): Option<string> {
    if s == "" then None
    else if s[0] == '\'' then if |s| == 1 then Some("") else None
    else if s[0] == '\\' then
      if |s| == 1 || s[1] !in "'\\" then None
      else
        var rest := ReadQuoted(s[2..]);
        if rest.Some? then Some([s[1]] + rest.value) else None
    else
      var rest := ReadQuoted(s[1..]);
      if rest.Some? then Some([s[0]] + rest.value) else None
  }

  /** What the migrator puts between the quotes. */
  function Escaped(v: string): string {
    ReplaceAll(v, "'", "\\'")
  }

  lemma EscapedCons(v: string)
    requires v != ""
    ensures Escaped(v) == (if v[0] == '\'' then "\\'" else [v[0]]) + Escaped(v[1..])
  {
    assert "'" <= v <==> v[0] == '\'';
  }

  lemma EscapedRead(v: string, rest: string)
    requires v != ""
    ensures v[0] == '\'' ==> ReadQuoted("\\'" + rest) == match ReadQuoted(rest) case Some(r) => Some("'" + r) case None => None
    ensures v[0] !in "'\\" ==> ReadQuoted([v[0]] + rest) == match ReadQuoted(rest) case Some(r) => Some([v[0]] + r) case None => None
  {
    assert ("\\'" + rest)[2..] == rest && ([v[0]] + rest)[1..] == rest;
  }

  /** The text of a default is never read as more characters than it has. */
  lemma {:induction false} ReadShorter(v: string)
    ensures ReadQuoted(Escaped(v) + "'").Some? ==> |ReadQuoted(Escaped(v) + "'").value| <= |v|
    decreases |v|
  {
    if v != "" {
      EscapedCons(v);
      var e := Escaped(v[1..]) + "'";
      ReadShorter(v[1..]);
      EscapedRead(v, e);
      if v[0] == '\'' {
        assert Escaped(v) + "'" == "\\'" + e;
      } else {
        assert Escaped(v) + "'" == [v[0]] + e;
        if v[0] == '\\' {
          if |v| >= 2 {
            ReadShorter(v[2..]);
          }
          BackslashRead(v, e);
        }
      }
    }
  }

  /** A backslash in front: read with the character behind it, or not at all. */
  lemma BackslashRead(v: string, e: string)
    requires v != "" && v[0] == '\\' && e == Escaped(v[1..]) + "'"
    requires |v| >= 2 && v[1] == '\\' ==> var r := ReadQuoted(Escaped(v[2..]) + "'"); r.Some? ==> |r.value| <= |v| - 2
    ensures var r := ReadQuoted("\\" + e); r.Some? ==> |v| >= 2 && v[1] == '\\' && |r.value| <= |v| - 1
  {
    var s := "\\" + e;
    if |v| >= 2 {
      EscapedCons(v[1..]);
      var f := Escaped(v[2..]) + "'";
      assert v[1..][1..] == v[2..];
      if v[1] == '\'' {
        assert e == "\\'" + f && s[1] == '\\' && s[2..] == "'" + f;
        assert |f| >= 1;
      } else {
        assert e == [v[1]] + f && s[1] == v[1] && s[2..] == f;
      }
    } else {
      assert e == "'" && s[1] == '\'' && s[2..] == "";
    }
  }

  /**
   The default a table ends with is the one of the model exactly when that has no backslash: the
   migrator escapes quotes, and leaves backslashes to be read as escapes.
   */
  lemma {:induction false} DefaultExact(v: string)
    ensures ReadQuoted(Escaped(v) + "'") == Some(v) <==> '\\' !in v
    decreases |v|
  {
    if v != "" {
      EscapedCons(v);
      var e := Escaped(v[1..]) + "'";
      DefaultExact(v[1..]);
      EscapedRead(v, e);
      assert v == [v[0]] + v[1..];
      if v[0] == '\'' {
        assert Escaped(v) + "'" == "\\'" + e;
      } else {
        assert Escaped(v) + "'" == [v[0]] + e;
        if v[0] == '\\' {
          if |v| >= 2 {
            ReadShorter(v[2..]);
          }
          BackslashRead(v, e);
        }
      }
    }
  }

  /** And it is that text that stands in the schema. */
  lemma MigratedDefault(s: Schema, ms: seq<Model>, k: nat, i: nat, accepts: Stmt -> bool)
    requires OnlyModel(ms, k) && Creatable(s, ms) && AcceptsDefinitions(accepts) && Typed(ms[k], i)
    requires forall j | 0 <= j < |ms[k].fields| && j != i :: ms[k].fields[j].dbName != ms[k].fields[i].dbName
    requires ms[k].fields[i].defaultValue != ""
    ensures var t, m := MigrateAll(s, s.Keys, ms, accepts).0, ms[k];
            var f := m.fields[i];
            && m.table in t && f.dbName in t[m.table] && t[m.table][f.dbName].defaultValue.Some?
            && (ReadQuoted(t[m.table][f.dbName].defaultValue.value + "'") == Some(f.defaultValue) <==> '\\' !in f.defaultValue)
  {
    var m := ms[k];
    TableAfter(s, ms, k, accepts);
    OnlyField(m, i);
    DefaultExact(m.fields[i].defaultValue);
    if m.table in s {
      ReconciledExact(s[m.table], m, accepts, m.fields[i].dbName);
    }
  }

  // ------------------------------------------------- what a run leaves where it is

  lemma {:induction false} DefineRunKeeps(s: Schema, m: Model, n: nat, overwrite: bool, accepts: Stmt -> bool) returns (t: Schema)
    requires n <= |m.fields| && m.table in s
    ensures t == DefineRun(s, m, n, overwrite, accepts).0 && m.table in t && s[m.table].Keys <= t[m.table].Keys
  {
    if n == 0 {
      t := s;
    } else {
      var u := DefineRunKeeps(s, m, n - 1, overwrite, accepts);
      t := DefineRun(s, m, n, overwrite, accepts).0;
      DefineOneKeeps(u, m, m.fields[n - 1], overwrite, accepts);
    }
  }

  lemma DefineOneKeeps(s: Schema, m: Model, f: Field, overwrite: bool, accepts: Stmt -> bool)
    requires m.table in s
    ensures var t := DefineOne(s, m, f, overwrite, accepts).0; m.table in t && s[m.table].Keys <= t[m.table].Keys
  {
  }

  /** Without an answer to INFO FOR TABLE no field of a table is removed, however far the run gets. */
  lemma UnansweredRemovesNothing(s: Schema, m: Model, accepts: Stmt -> bool)
    requires m.table in s && !accepts(InfoTable(m.table))
    ensures var t := MigrateOne(s, s.Keys, m, accepts).0; m.table in t && s[m.table].Keys <= t[m.table].Keys
  {
    var t := DefineRunKeeps(s, m, |m.fields|, true, accepts);
  }

  // ---------------------------------------------------------------------- indexes

  lemma {:induction false} NamedColumnsExact(columns: seq<string>)
    ensures forall c | c in NamedColumns(columns) :: c != "" && c in columns
    ensures forall c | c in columns && c != "" :: c in NamedColumns(columns)
    ensures (forall c | c in columns :: c != "") ==> NamedColumns(columns) == columns
  {
    if columns != [] {
      var n := |columns| - 1;
      NamedColumnsExact(columns[..n]);
      assert columns == columns[..n] + [columns[n]];
      assert columns[n] in columns && forall c | c in columns[..n] :: c in columns;
    }
  }

  lemma IdSpellings(c: string)
    ensures Lower(c) == "id" <==> c in {"id", "Id", "iD", "ID"}
  {
    if |c| == 2 {
      assert Lower(c) == [LowerChar(c[0]), LowerChar(c[1])];
      assert c == [c[0], c[1]];
    }
    assert Lower("id") == "id" && Lower("Id") == "id" && Lower("iD") == "id" && Lower("ID") == "id";
  }

  /** An index the migrator asks the server for: it has a name and a named column, and is not on the id alone. */
  predicate Asked(x: Index) {
    x.name != "" && !(|x.columns| == 1 && x.columns[0] in {"id", "Id", "iD", "ID"}) && exists c | c in x.columns :: c != ""
  }

  lemma AskedExact(x: Index)
    ensures DefinesIndex(x) <==> Asked(x)
  {
    NamedColumnsExact(x.columns);
    if |x.columns| == 1 {
      IdSpellings(x.columns[0]);
    }
    if NamedColumns(x.columns) != [] {
      assert NamedColumns(x.columns)[0] in x.columns;
    }
  }

  /** With all fields accepted, the definitions of a table go through exactly when each index
      asked for is accepted, with its clause and its named columns in order. */
  lemma IndexesExact(s: Schema, m: Model, isNew: bool, accepts: Stmt -> bool)
    requires m.table in s && forall stmt: Stmt | !stmt.DefineIndex? :: accepts(stmt)
    ensures MigrateTable(s, m, isNew, accepts).1 <==>
            forall i | 0 <= i < |m.indexes| && Asked(m.indexes[i]) ::
              accepts(DefineIndex(m.table, m.indexes[i].name, NamedColumns(m.indexes[i].columns), m.indexes[i].clause))
  {
    FieldsGoThrough(s, m, |m.fields|, !isNew, accepts);
    forall i | 0 <= i < |m.indexes| ensures DefinesIndex(m.indexes[i]) <==> Asked(m.indexes[i]) {
      AskedExact(m.indexes[i]);
    }
  }

  lemma {:induction false} FieldsGoThrough(s: Schema, m: Model, n: nat, overwrite: bool, accepts: Stmt -> bool)
    requires n <= |m.fields| && forall stmt: Stmt | !stmt.DefineIndex? :: accepts(stmt)
    ensures DefineRun(s, m, n, overwrite, accepts).1
  {
    if n > 0 {
      FieldsGoThrough(s, m, n - 1, overwrite, accepts);
    }
  }

  // ---------------------------------------------------------------- edge tables

  /** The tables of the edge models, in order. */
  function EdgeTables(ms: seq<Model>): seq<string> {
    if ms == [] then []
    else EdgeTables(ms[..|ms| - 1]) + if ms[|ms| - 1].isEdge then [ms[|ms| - 1].table] else []
  }

  /** After a run the registry is as after registering the edge models it visited, and each of them
      is found by its name. */
  lemma {:induction false} EdgesRegistered(ts: seq<string>, ms: seq<Model>)
    ensures Registered(EdgeRegistry.Run(ts), ms) == EdgeRegistry.Run(ts + EdgeTables(ms))
    ensures forall i | 0 <= i < |ms| && ms[i].isEdge :: EdgeRegistry.Find(Registered(EdgeRegistry.Run(ts), ms), ms[i].table).Some?
  {
    if ms == [] {
      assert ts + EdgeTables(ms) == ts;
    } else {
      var n := |ms| - 1;
      EdgesRegistered(ts, ms[..n]);
      var before := ts + EdgeTables(ms[..n]);
      if ms[n].isEdge {
        assert ts + EdgeTables(ms) == before + [ms[n].table];
        assert (before + [ms[n].table])[..|before|] == before;
      } else {
        assert ts + EdgeTables(ms) == before;
      }
    }
    forall i | 0 <= i < |ms| && ms[i].isEdge ensures EdgeRegistry.Find(EdgeRegistry.Run(ts + EdgeTables(ms)), ms[i].table).Some? {
      TableListed(ms, i);
      EdgeRegistry.FindComplete(ts + EdgeTables(ms), ms[i].table);
    }
  }

  lemma {:induction false} TableListed(ms: seq<Model>, i: nat)
    requires i < |ms| && ms[i].isEdge
    ensures ms[i].table in EdgeTables(ms)
  {
    if i < |ms| - 1 {
      TableListed(ms[..|ms| - 1], i);
    }
  }
}
