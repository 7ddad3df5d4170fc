/**
 Schema reconciliation (migrator.go:30-98 and 228-507): AutoMigrate creates missing tables,
 defines every model field and index and removes fields the model no longer has. The state is
 the field definitions; index definitions only matter in that one may be rejected.
 */
module Migration {
  import opened Wrappers
  import opened Strings
  import EdgeRegistry

  /** A schema field as GORM parsed it; `dataType` is what the dialector maps it to. */
  datatype Field = Field(
    dbName: string, dataType: string, notNull: bool, flexible: bool, assertion: string, readOnly: bool,
    defaultValue: string, value: string, permissions: string)

  /** An index as GORM parsed it; `clause` is what its class and option print behind the columns. */
  datatype Index = Index(name: string, columns: seq<string>, clause: string)

  datatype Model = Model(table: string, fields: seq<Field>, indexes: seq<Index>, isEdge: bool)

  /** What a DEFINE FIELD statement says about the field. */
  datatype Definition = Definition(
    typeExpr: string, flexible: bool, assertion: Option<string>, reference: Option<string>, readOnly: bool,
    defaultValue: Option<string>, value: Option<string>, permissions: Option<string>)

  datatype Stmt =
    | DefineTable(table: string)
    | DefineField(table: string, name: string, def: Definition, overwrite: bool)
    | DefineIndex(table: string, name: string, columns: seq<string>, clause: string)
    | RemoveField(table: string, name: string)
    | InfoTable(table: string)
    | InfoDatabase

  /** The field definitions of every table. */
  type Schema = map<string, map<string, Definition>>

  /** What an accepted statement does. */
  function Apply(s: Schema, stmt: Stmt): Schema {
    match stmt
    case DefineTable(t) => s[t := map[]]
    case DefineField(t, n, d, overwrite) =>
      if t in s && (overwrite || n !in s[t]) then s[t := s[t][n := d]] else s
    case RemoveField(t, n) => if t in s then s[t := s[t] - {n}] else s
    case _ => s
  }

  /** A plain DEFINE TABLE of a table that exists is an error; any other statement is up to the server. */
  predicate Accepted(s: Schema, stmt: Stmt, accepts: Stmt -> bool) {
    accepts(stmt) && !(stmt.DefineTable? && stmt.table in s)
  }

  function IfSet(s: string): Option<string> {
    if s == "" then None else Some(s)
  }

  /** The definition of a model field. */
  function Define(f: Field): Definition {
    var dataType := if "geometry(" <= f.dataType then "geometry" else f.dataType;
    Definition(
      if f.notNull then dataType else "option<" + dataType + ">",
      f.flexible,
      if f.assertion != "" then Some(f.assertion)
      else if f.notNull then Some("$value != NONE AND $value != NULL")
      else None,
      if Contains(dataType, "record<") then Some(if f.notNull then "REJECT" else "UNSET") else None,
      f.readOnly,
      if f.defaultValue == "" then None else Some(ReplaceAll(f.defaultValue, "'", "\\'")),
      IfSet(f.value),
      IfSet(f.permissions))
  }

  /** Fields the server manages itself. */
  function Managed(isEdge: bool): set<string> {
    if isEdge then {"id", "in", "out", "created_at", "updated_at", "deleted_at"} else {"id"}
  }

  predicate Defines(f: Field, isEdge: bool) {
    f.dbName != "" && f.dbName !in Managed(isEdge) && f.dataType != ""
  }

  /** Names that are never removed. */
  function Desired(m: Model): set<string> {
    (set i | 0 <= i < |m.fields| && m.fields[i].dbName != "" :: m.fields[i].dbName) + Managed(m.isEdge)
  }

  // ------------------------------------------------------------- the steps of a run

  function DefineOne(s: Schema, m: Model, f: Field, overwrite: bool, accepts: Stmt -> bool): (r: (Schema, bool)) {
    var stmt := DefineField(m.table, f.dbName, Define(f), overwrite);
    if accepts(stmt) then (Apply(s, stmt), true) else (s, false)
  }

  /** The DEFINE FIELD loop; it stops at the first statement the server rejects. */
  function DefineRun(s: Schema, m: Model, n: nat, overwrite: bool, accepts: Stmt -> bool): (r: (Schema, bool))
    requires n <= |m.fields|
  {
    if n == 0 then (s, true)
    else
      var r := DefineRun(s, m, n - 1, overwrite, accepts);
      if r.1 && Defines(m.fields[n - 1], m.isEdge) then DefineOne(r.0, m, m.fields[n - 1], overwrite, accepts) else r
  }

  /** The columns of an index that have a name. */
  function NamedColumns(columns: seq<string>): seq<string> {
    if columns == [] then []
    else
      var n := |columns| - 1;
      NamedColumns(columns[..n]) + (if columns[n] != "" then [columns[n]] else [])
  }

  /** Indexes without a name or columns, and those of the id alone, are skipped. */
  predicate DefinesIndex(x: Index) {
    x.name != "" && !(|x.columns| == 1 && Lower(x.columns[0]) == "id") && NamedColumns(x.columns) != []
  }

  /** The DEFINE INDEX loop goes through when no statement of it is rejected. */
  predicate IndexesAccepted(m: Model, n: nat, accepts: Stmt -> bool)
    requires n <= |m.indexes|
  {
    forall i | 0 <= i < n && DefinesIndex(m.indexes[i]) ::
      accepts(DefineIndex(m.table, m.indexes[i].name, NamedColumns(m.indexes[i].columns), m.indexes[i].clause))
  }

  /** The REMOVE FIELD loop over the fields found; a rejected removal is ignored. */
  function Cleaned(fields: map<string, Definition>, m: Model, accepts: Stmt -> bool): map<string, Definition> {
    map n | n in fields && (n in Desired(m) || !accepts(RemoveField(m.table, n))) :: fields[n]
  }

  function RemoveObsolete(s: Schema, m: Model, accepts: Stmt -> bool): Schema {
    if m.table in s && accepts(InfoTable(m.table)) then s[m.table := Cleaned(s[m.table], m, accepts)] else s
  }

  /** Fields, indexes and cleanup of one model, whose table exists by now. */
  function MigrateTable(s: Schema, m: Model, isNew: bool, accepts: Stmt -> bool): (Schema, bool) {
    var (t, ok) := DefineRun(s, m, |m.fields|, !isNew, accepts);
    if !ok || !IndexesAccepted(m, |m.indexes|, accepts) then (t, false)
    else if isNew then (t, true)
    else (RemoveObsolete(t, m, accepts), true)
  }

  /** One model: `existing` are the tables found before the run began. */
  function MigrateOne(s: Schema, existing: set<string>, m: Model, accepts: Stmt -> bool): (Schema, bool) {
    var isNew := m.table !in existing;
    if isNew && !Accepted(s, DefineTable(m.table), accepts) then (s, false)
    else MigrateTable(if isNew then Apply(s, DefineTable(m.table)) else s, m, isNew, accepts)
  }

  function MigrateAll(s: Schema, existing: set<string>, ms: seq<Model>, accepts: Stmt -> bool): (Schema, bool) {
    if ms == [] then (s, true)
    else
      var (t, ok) := MigrateAll(s, existing, ms[..|ms| - 1], accepts);
      if !ok then (t, false) else MigrateOne(t, existing, ms[|ms| - 1], accepts)
  }

  /** The edge registry after the first models of a run were visited. */
  function Registered(edges: map<string, string>, ms: seq<Model>): map<string, string> {
    if ms == [] then edges
    else
      var before := Registered(edges, ms[..|ms| - 1]);
      if ms[|ms| - 1].isEdge then EdgeRegistry.Register(before, ms[|ms| - 1].table) else before
  }

  // ------------------------------------------------------------------ the migrator

  class Migrator {
    var schema: Schema
    const dialector: EdgeRegistry.Dialector
    const accepts: Stmt -> bool

    constructor (s: Schema, d: EdgeRegistry.Dialector, accepts: Stmt -> bool)
      ensures schema == s && dialector == d && this.accepts == accepts
    {
      schema, dialector, this.accepts := s, d, accepts;
    }

    method Exec(stmt: Stmt) returns (ok: bool)
      modifies this
      ensures ok == Accepted(old(schema), stmt, accepts)
      ensures schema == if ok then Apply(old(schema), stmt) else old(schema)
    {
      ok := accepts(stmt) && !(stmt.DefineTable? && stmt.table in schema);
      if ok {
        schema := Apply(schema, stmt);
      }
    }

    method DefineFields(m: Model, isNew: bool) returns (ok: bool)
      modifies this
      ensures (schema, ok) == DefineRun(old(schema), m, |m.fields|, !isNew, accepts)
    {
      RunStart(schema, m, !isNew, accepts);
      for i := 0 to |m.fields|
        invariant RunIs(old(schema), m, i, !isNew, accepts, schema, true)
      {
        var f := m.fields[i];
        RunStep(old(schema), m, i, !isNew, accepts, schema);
        if f.dbName == "" || f.dbName in Managed(m.isEdge) || f.dataType == "" {
          continue;
        }
        ok := Exec(DefineField(m.table, f.dbName, Define(f), !isNew));
        if !ok {
          FailureStays(old(schema), m, i + 1, |m.fields|, !isNew, accepts, schema);
          return;
        }
      }
      ok := true;
    }

    method DefineIndexes(m: Model) returns (ok: bool)
      modifies this
      ensures ok <==> IndexesAccepted(m, |m.indexes|, accepts)
      ensures schema == old(schema)
    {
      for i := 0 to |m.indexes|
        invariant IndexesAccepted(m, i, accepts) && schema == old(schema)
      {
        var x := m.indexes[i];
        if x.name == "" || (|x.columns| == 1 && Lower(x.columns[0]) == "id") {
          continue;
        }
        var names := [];
        for k := 0 to |x.columns|
          invariant names == NamedColumns(x.columns[..k])
        {
          assert x.columns[..k + 1][..k] == x.columns[..k];
          if x.columns[k] != "" {
            names := names + [x.columns[k]];
          }
        }
        assert x.columns[..|x.columns|] == x.columns;
        if names == [] {
          continue;
        }
        ok := Exec(DefineIndex(m.table, x.name, names, x.clause));
        if !ok {
          return;
        }
      }
      ok := true;
    }

    method RemoveObsoleteFields(m: Model)
      modifies this
      ensures schema == RemoveObsolete(old(schema), m, accepts)
    {
      var answered := Exec(InfoTable(m.table));
      if !answered || m.table !in schema {
        return;
      }
      var found := schema[m.table];
      var rest := found.Keys;
      while rest != {}
        invariant rest <= found.Keys && m.table in schema && schema.Keys == old(schema).Keys
        invariant forall t | t in schema && t != m.table :: schema[t] == old(schema)[t]
        invariant schema[m.table] ==
                  map n | n in found && (n in rest || n in Desired(m) || !accepts(RemoveField(m.table, n))) :: found[n]
      {
        var n :| n in rest;
        rest := rest - {n};
        if n !in Desired(m) {
          var _ := Exec(RemoveField(m.table, n));
        }
      }
      assert schema[m.table] == Cleaned(found, m, accepts);
    }

    /** `CreateTable` of one model; an edge table is registered once more when it exists. */
    method CreateTable(m: Model) returns (ok: bool)
      modifies this, dialector
      ensures ok == Accepted(old(schema), DefineTable(m.table), accepts)
      ensures schema == if ok then Apply(old(schema), DefineTable(m.table)) else old(schema)
      ensures dialector.edgeTables ==
              if ok && m.isEdge then EdgeRegistry.Register(old(dialector.edgeTables), m.table) else old(dialector.edgeTables)
    {
      ok := Exec(DefineTable(m.table));
      if ok && m.isEdge {
        dialector.RegisterEdgeTable(m.table);
      }
    }

    method DefineTableContents(m: Model, isNew: bool) returns (ok: bool)
      modifies this
      ensures (schema, ok) == MigrateTable(old(schema), m, isNew, accepts)
    {
      ok := DefineFields(m, isNew);
      if !ok {
        return;
      }
      ok := DefineIndexes(m);
      if !ok || isNew {
        return;
      }
      RemoveObsoleteFields(m);
    }

    /** Visits the models in order until a step fails; `visited` counts the one it failed at. */
    method AutoMigrate(ms: seq<Model>) returns (ok: bool, ghost visited: nat)
      modifies this, dialector
      ensures !accepts(InfoDatabase) ==> !ok && schema == old(schema) && visited == 0
      ensures accepts(InfoDatabase) ==> (schema, ok) == MigrateAll(old(schema), old(schema).Keys, ms, accepts)
      ensures visited <= |ms| && (ok ==> visited == |ms|)
      ensures dialector.edgeTables == Registered(old(dialector.edgeTables), ms[..visited])
    {
      visited := 0;
      ok := Exec(InfoDatabase);
      if !ok {
        return;
      }
      var existing := schema.Keys;
      for i := 0 to |ms|
        invariant visited == i && AllRunIs(old(schema), existing, ms, i, accepts, schema, true)
        invariant dialector.edgeTables == Registered(old(dialector.edgeTables), ms[..i])
      {
        AllRunStep(old(schema), existing, ms, i, accepts, schema);
        RegisteredStep(old(dialector.edgeTables), ms, i);
        visited := i + 1;
        ok := MigrateModel(ms[i], existing);
        if !ok {
          AllFailureStays(old(schema), existing, ms, i + 1, accepts, schema);
          AllRunEnd(old(schema), existing, ms, accepts, schema, false);
          return;
        }
      }
      AllRunEnd(old(schema), existing, ms, accepts, schema, true);
      assert ms[..|ms|] == ms;
      ok := true;
    }

    /** The body of the loop: one model. */
    method MigrateModel(m: Model, existing: set<string>) returns (ok: bool)
      modifies this, dialector
      ensures (schema, ok) == MigrateOne(old(schema), existing, m, accepts)
      ensures dialector.edgeTables ==
              if m.isEdge then EdgeRegistry.Register(old(dialector.edgeTables), m.table) else old(dialector.edgeTables)
    {
      if m.isEdge {
        dialector.RegisterEdgeTable(m.table);
      }
      var isNew := m.table !in existing;
      if isNew {
        RegisterTwice(old(dialector.edgeTables), m.table);
        ok := CreateTable(m);
        if !ok {
          return;
        }
      }
      ok := DefineTableContents(m, isNew);
    }
  }

  /** The state of the loop over the first `i` models. */
  ghost predicate AllRunIs(s: Schema, existing: set<string>, ms: seq<Model>, i: nat, accepts: Stmt -> bool, t: Schema, ok: bool) {
    i <= |ms| && MigrateAll(s, existing, ms[..i], accepts) == (t, ok)
  }

  lemma AllRunStep(s: Schema, existing: set<string>, ms: seq<Model>, i: nat, accepts: Stmt -> bool, t: Schema)
    requires i < |ms| && AllRunIs(s, existing, ms, i, accepts, t, true)
    ensures var (u, ok) := MigrateOne(t, existing, ms[i], accepts); AllRunIs(s, existing, ms, i + 1, accepts, u, ok)
  {
    assert ms[..i + 1][..i] == ms[..i];
  }

  lemma {:induction false} AllFailureStays(s: Schema, existing: set<string>, ms: seq<Model>, i: nat, accepts: Stmt -> bool, t: Schema)
    requires i <= |ms| && AllRunIs(s, existing, ms, i, accepts, t, false)
    ensures AllRunIs(s, existing, ms, |ms|, accepts, t, false)
    decreases |ms| - i
  {
    if i < |ms| {
      assert ms[..i + 1][..i] == ms[..i];
      AllFailureStays(s, existing, ms, i + 1, accepts, t);
    }
  }

  lemma AllRunEnd(s: Schema, existing: set<string>, ms: seq<Model>, accepts: Stmt -> bool, t: Schema, ok: bool)
    requires AllRunIs(s, existing, ms, |ms|, accepts, t, ok)
    ensures (t, ok) == MigrateAll(s, existing, ms, accepts)
  {
    assert ms[..|ms|] == ms;
  }

  lemma RegisteredStep(edges: map<string, string>, ms: seq<Model>, i: nat)
    requires i < |ms|
    ensures var before := Registered(edges, ms[..i]);
            Registered(edges, ms[..i + 1]) == if ms[i].isEdge then EdgeRegistry.Register(before, ms[i].table) else before
  {
    assert ms[..i + 1][..i] == ms[..i];
  }

  lemma RegisterTwice(edges: map<string, string>, t: string)
    ensures EdgeRegistry.Register(EdgeRegistry.Register(edges, t), t) == EdgeRegistry.Register(edges, t)
  {
  }

  /** The state of the loop over the first `n` fields. */
  ghost predicate RunIs(s: Schema, m: Model, n: nat, overwrite: bool, accepts: Stmt -> bool, t: Schema, ok: bool) {
    n <= |m.fields| && DefineRun(s, m, n, overwrite, accepts) == (t, ok)
  }

  lemma RunStart(s: Schema, m: Model, overwrite: bool, accepts: Stmt -> bool)
    ensures RunIs(s, m, 0, overwrite, accepts, s, true)
  {
  }

  lemma RunStep(s: Schema, m: Model, i: nat, overwrite: bool, accepts: Stmt -> bool, t: Schema)
    requires i < |m.fields| && RunIs(s, m, i, overwrite, accepts, t, true)
    ensures var f := m.fields[i];
            var stmt := DefineField(m.table, f.dbName, Define(f), overwrite);
            if !Defines(f, m.isEdge) then RunIs(s, m, i + 1, overwrite, accepts, t, true)
            else if accepts(stmt) then RunIs(s, m, i + 1, overwrite, accepts, Apply(t, stmt), true)
            else RunIs(s, m, i + 1, overwrite, accepts, t, false)
  {
  }

  lemma {:induction false} FailureStays(s: Schema, m: Model, i: nat, n: nat, overwrite: bool, accepts: Stmt -> bool, t: Schema)
    requires i <= n <= |m.fields| && RunIs(s, m, i, overwrite, accepts, t, false)
    ensures RunIs(s, m, n, overwrite, accepts, t, false)
    decreases n - i
  {
    if i < n {
      FailureStep(s, m, i, overwrite, accepts, t);
      FailureStays(s, m, i + 1, n, overwrite, accepts, t);
    }
  }

  lemma FailureStep(s: Schema, m: Model, i: nat, overwrite: bool, accepts: Stmt -> bool, t: Schema)
    requires i < |m.fields| && RunIs(s, m, i, overwrite, accepts, t, false)
    ensures RunIs(s, m, i + 1, overwrite, accepts, t, false)
  {
  }

  // ---------------------------------------------------------------- main results

  /** A definition that replaces an earlier one of its name. */
  function AddLast(fields: map<string, Definition>, f: Field, isEdge: bool): map<string, Definition> {
    if Defines(f, isEdge) then fields[f.dbName := Define(f)] else fields
  }

  /** A definition that gives way to an earlier one of its name. */
  function AddFirst(fields: map<string, Definition>, f: Field, isEdge: bool): map<string, Definition> {
    if Defines(f, isEdge) && f.dbName !in fields then fields[f.dbName := Define(f)] else fields
  }

  /** The definitions of the first `n` model fields, a later one of the same name winning. */
  function Target(m: Model, n: nat): map<string, Definition>
    requires n <= |m.fields|
  {
    if n == 0 then map[] else AddLast(Target(m, n - 1), m.fields[n - 1], m.isEdge)
  }

  function Definitions(m: Model): map<string, Definition> {
    Target(m, |m.fields|)
  }

  /** The server rejects nothing but removals. */
  ghost predicate AcceptsDefinitions(accepts: Stmt -> bool) {
    forall stmt: Stmt :: !stmt.RemoveField? ==> accepts(stmt)
  }

  lemma {:induction false} TargetNames(m: Model, n: nat)
    requires n <= |m.fields|
    ensures forall x | x in Target(m, n) :: x in Desired(m) && exists i :: 0 <= i < n && m.fields[i].dbName == x && x != ""
  {
    if n > 0 {
      TargetNames(m, n - 1);
      if Defines(m.fields[n - 1], m.isEdge) {
        assert m.fields[n - 1].dbName in Desired(m);
      }
    }
  }

  lemma DefineOver(s: Schema, table: string, fields: map<string, Definition>, n: string, d: Definition)
    ensures Apply(s[table := fields], DefineField(table, n, d, true)) == s[table := fields[n := d]]
    ensures Apply(s[table := fields], DefineField(table, n, d, false)) == s[table := if n in fields then fields else fields[n := d]]
  {
    assert s[table := fields][table := fields[n := d]] == s[table := fields[n := d]];
  }

  /** Over an existing table the loop puts every definition of the model over what was there. */
  lemma {:induction false} OverwriteRun(s: Schema, m: Model, n: nat, accepts: Stmt -> bool)
    requires n <= |m.fields| && m.table in s && AcceptsDefinitions(accepts)
    ensures Overwritten(s, m, n, accepts)
  {
    if n > 0 {
      OverwriteRun(s, m, n - 1, accepts);
      OverwriteNext(s, m, n - 1, accepts);
    } else {
      StartOver(s, m, true, accepts, s[m.table] + map[]);
    }
  }

  ghost predicate Overwritten(s: Schema, m: Model, n: nat, accepts: Stmt -> bool) {
    n <= |m.fields| && m.table in s && RunIs(s, m, n, true, accepts, s[m.table := s[m.table] + Target(m, n)], true)
  }

  lemma OverwriteNext(s: Schema, m: Model, i: nat, accepts: Stmt -> bool)
    requires i < |m.fields| && AcceptsDefinitions(accepts) && Overwritten(s, m, i, accepts)
    ensures Overwritten(s, m, i + 1, accepts)
  {
    AddOver(s[m.table], Target(m, i), m.fields[i], m.isEdge);
    OverwriteStep(s, m, i, accepts, s[m.table] + Target(m, i), s[m.table] + Target(m, i + 1));
  }

  lemma OverwriteStep(s: Schema, m: Model, i: nat, accepts: Stmt -> bool, before: map<string, Definition>, after: map<string, Definition>)
    requires i < |m.fields| && AcceptsDefinitions(accepts) && RunIs(s, m, i, true, accepts, s[m.table := before], true)
    requires after == AddLast(before, m.fields[i], m.isEdge)
    ensures RunIs(s, m, i + 1, true, accepts, s[m.table := after], true)
  {
    var f := m.fields[i];
    RunStep(s, m, i, true, accepts, s[m.table := before]);
    DefineOver(s, m.table, before, f.dbName, Define(f));
  }

  lemma AddOver(prior: map<string, Definition>, fields: map<string, Definition>, f: Field, isEdge: bool)
    ensures prior + AddLast(fields, f, isEdge) == AddLast(prior + fields, f, isEdge)
  {
  }

  /** The definitions of the first `n` model fields, the first one of a name winning. */
  function First(m: Model, n: nat): map<string, Definition>
    requires n <= |m.fields|
  {
    if n == 0 then map[] else AddFirst(First(m, n - 1), m.fields[n - 1], m.isEdge)
  }

  function FirstDefinitions(m: Model): map<string, Definition> {
    First(m, |m.fields|)
  }

  predicate IsEmpty(s: Schema, table: string) {
    table in s && s[table] == map[]
  }

  /** Into a new, empty table, IF NOT EXISTS lets only the first definition of each name through. */
  lemma NewTableRun(s: Schema, m: Model, n: nat, accepts: Stmt -> bool)
    requires n <= |m.fields| && IsEmpty(s, m.table) && AcceptsDefinitions(accepts)
    ensures Created(s, m, n, accepts)
  {
    NewTableStart(s, m, accepts);
    for i := 0 to n
      invariant Created(s, m, i, accepts)
    {
      NewTableNext(s, m, i, accepts);
    }
  }

  lemma NewTableStart(s: Schema, m: Model, accepts: Stmt -> bool)
    requires IsEmpty(s, m.table)
    ensures Created(s, m, 0, accepts)
  {
    StartOver(s, m, false, accepts, First(m, 0));
  }

  ghost predicate Created(s: Schema, m: Model, n: nat, accepts: Stmt -> bool) {
    n <= |m.fields| && RunIs(s, m, n, false, accepts, s[m.table := First(m, n)], true)
  }

  lemma NewTableNext(s: Schema, m: Model, i: nat, accepts: Stmt -> bool)
    requires i < |m.fields| && AcceptsDefinitions(accepts) && Created(s, m, i, accepts)
    ensures Created(s, m, i + 1, accepts)
  {
    NewTableStep(s, m, i, accepts, First(m, i), First(m, i + 1));
  }

  /** A run over no fields, with the table's fields written as `start`. */
  lemma StartOver(s: Schema, m: Model, overwrite: bool, accepts: Stmt -> bool, start: map<string, Definition>)
    requires m.table in s && s[m.table] == start
    ensures RunIs(s, m, 0, overwrite, accepts, s[m.table := start], true)
  {
    assert s[m.table := start] == s;
    RunStart(s, m, overwrite, accepts);
  }

  lemma NewTableStep(s: Schema, m: Model, i: nat, accepts: Stmt -> bool, before: map<string, Definition>, after: map<string, Definition>)
    requires i < |m.fields| && AcceptsDefinitions(accepts) && RunIs(s, m, i, false, accepts, s[m.table := before], true)
    requires after == AddFirst(before, m.fields[i], m.isEdge)
    ensures RunIs(s, m, i + 1, false, accepts, s[m.table := after], true)
  {
    var f := m.fields[i];
    RunStep(s, m, i, false, accepts, s[m.table := before]);
    DefineOver(s, m.table, before, f.dbName, Define(f));
  }

  /** The fields of a table after a run over it. */
  function Reconciled(prior: map<string, Definition>, m: Model, accepts: Stmt -> bool): map<string, Definition> {
    Cleaned(prior + Definitions(m), m, accepts)
  }

  /** One run over an existing table reconciles it and touches no other table. */
  lemma ExistingTableRun(s: Schema, existing: set<string>, m: Model, accepts: Stmt -> bool)
    requires m.table in existing && m.table in s && AcceptsDefinitions(accepts)
    ensures MigrateOne(s, existing, m, accepts) == (s[m.table := Reconciled(s[m.table], m, accepts)], true)
  {
    OverwriteRun(s, m, |m.fields|, accepts);
    var t := s[m.table := s[m.table] + Definitions(m)];
    assert t[m.table := Reconciled(s[m.table], m, accepts)] == s[m.table := Reconciled(s[m.table], m, accepts)];
  }

  /**
   A reconciled table holds every model field with the model's definition. Besides, it keeps
   from before only what the run leaves alone: names that are managed by the server or belong
   to a model field without a data type, and fields whose removal the server rejected.
   */
  lemma ReconciledExact(prior: map<string, Definition>, m: Model, accepts: Stmt -> bool, n: string)
    ensures var r := Reconciled(prior, m, accepts);
            && (n in Definitions(m) ==> n in r && r[n] == Definitions(m)[n])
            && (n !in Definitions(m) ==>
                  (n in r <==> n in prior && (n in Desired(m) || !accepts(RemoveField(m.table, n))))
                  && (n in r ==> r[n] == prior[n]))
  {
    TargetNames(m, |m.fields|);
  }

  /** Names a run neither defines nor removes. */
  function LeftAlone(m: Model): set<string> {
    Desired(m) - Definitions(m).Keys
  }

  function Restrict(fields: map<string, Definition>, names: set<string>): map<string, Definition> {
    map n | n in fields && n in names :: fields[n]
  }

  /**
   When removals are accepted, the result depends on the model only, exactly up to the names
   left alone: two tables become equal if and only if they agree on those.
   */
  lemma ConvergenceExact(p: map<string, Definition>, q: map<string, Definition>, m: Model, accepts: Stmt -> bool)
    requires forall n :: accepts(RemoveField(m.table, n))
    ensures Reconciled(p, m, accepts) == Reconciled(q, m, accepts) <==> Restrict(p, LeftAlone(m)) == Restrict(q, LeftAlone(m))
  {
    var rp, rq, kp, kq := Reconciled(p, m, accepts), Reconciled(q, m, accepts), Restrict(p, LeftAlone(m)), Restrict(q, LeftAlone(m));
    forall n
      ensures n in kp <==> n in rp && n !in Definitions(m)
      ensures n in kq <==> n in rq && n !in Definitions(m)
      ensures n in kp ==> kp[n] == rp[n]
      ensures n in kq ==> kq[n] == rq[n]
      ensures n in Definitions(m) ==> n in rp && n in rq && rp[n] == rq[n]
    {
      ReconciledExact(p, m, accepts, n);
      ReconciledExact(q, m, accepts, n);
    }
    if kp == kq {
      forall n ensures (n in rp <==> n in rq) && (n in rp ==> rp[n] == rq[n]) {
        assert n in kp <==> n in kq;
        if n in kp { assert kp[n] == kq[n]; }
      }
      assert rp == rq;
    }
    if rp == rq {
      forall n ensures (n in kp <==> n in kq) && (n in kp ==> kp[n] == kq[n]) {
      }
      assert kp == kq;
    }
  }

  /** Reconciling twice is reconciling once. */
  lemma ReconciledStable(prior: map<string, Definition>, m: Model, accepts: Stmt -> bool)
    ensures Reconciled(Reconciled(prior, m, accepts), m, accepts) == Reconciled(prior, m, accepts)
  {
    var r := Reconciled(prior, m, accepts);
    var rr := Reconciled(r, m, accepts);
    forall n ensures (n in rr <==> n in r) && (n in r ==> rr[n] == r[n]) {
      ReconciledExact(prior, m, accepts, n);
      ReconciledExact(r, m, accepts, n);
    }
  }

  // ---------------------------------------------------------- first and last definitions

  /** The first or the last field of its name that is defined. */
  ghost predicate IsFirst(m: Model, i: nat) {
    && i < |m.fields| && Defines(m.fields[i], m.isEdge)
    && forall k | 0 <= k < i && Defines(m.fields[k], m.isEdge) :: m.fields[k].dbName != m.fields[i].dbName
  }

  ghost predicate IsLast(m: Model, j: nat) {
    && j < |m.fields| && Defines(m.fields[j], m.isEdge)
    && forall k | j < k < |m.fields| && Defines(m.fields[k], m.isEdge) :: m.fields[k].dbName != m.fields[j].dbName
  }

  /** Fields of one name agree: its first and its last field have one definition. */
  ghost predicate NamesAgree(m: Model) {
    forall i: nat, j: nat | IsFirst(m, i) && IsLast(m, j) && m.fields[i].dbName == m.fields[j].dbName ::
      Define(m.fields[i]) == Define(m.fields[j])
  }

  lemma {:induction false} FirstIndex(m: Model, n: nat, x: string) returns (i: nat)
    requires n <= |m.fields| && x in First(m, n)
    ensures i < n && IsFirst(m, i) && m.fields[i].dbName == x && First(m, n)[x] == Define(m.fields[i])
  {
    if x in First(m, n - 1) {
      i := FirstIndex(m, n - 1, x);
    } else {
      i := n - 1;
      NewNameIsFirst(m, n - 1);
    }
  }

  lemma NewNameIsFirst(m: Model, i: nat)
    requires i < |m.fields| && Defines(m.fields[i], m.isEdge) && m.fields[i].dbName !in First(m, i)
    ensures IsFirst(m, i)
  {
    forall k | 0 <= k < i && Defines(m.fields[k], m.isEdge) ensures m.fields[k].dbName != m.fields[i].dbName {
      DefinedIn(m, i, k);
    }
  }

  ghost predicate NoneFrom(m: Model, n: nat, x: string) {
    forall k | n <= k < |m.fields| && Defines(m.fields[k], m.isEdge) :: m.fields[k].dbName != x
  }

  lemma {:induction false} LastIndex(m: Model, n: nat, x: string) returns (j: nat)
    requires n <= |m.fields| && x in Target(m, n) && NoneFrom(m, n, x)
    ensures j < n && IsLast(m, j) && m.fields[j].dbName == x && Target(m, n)[x] == Define(m.fields[j])
  {
    if Defines(m.fields[n - 1], m.isEdge) && m.fields[n - 1].dbName == x {
      j := n - 1;
      LastHere(m, j);
    } else {
      NotLast(m, n - 1, x);
      j := LastIndex(m, n - 1, x);
    }
  }

  lemma LastHere(m: Model, j: nat)
    requires j < |m.fields| && Defines(m.fields[j], m.isEdge) && NoneFrom(m, j + 1, m.fields[j].dbName)
    ensures IsLast(m, j) && Target(m, j + 1)[m.fields[j].dbName] == Define(m.fields[j])
  {
  }

  lemma NotLast(m: Model, n: nat, x: string)
    requires n < |m.fields| && x in Target(m, n + 1) && NoneFrom(m, n + 1, x)
    requires !(Defines(m.fields[n], m.isEdge) && m.fields[n].dbName == x)
    ensures x in Target(m, n) && Target(m, n)[x] == Target(m, n + 1)[x] && NoneFrom(m, n, x)
  {
  }

  /** Both hold the names of the defined fields. */
  lemma {:induction false} DefinedIn(m: Model, n: nat, k: nat)
    requires k < n <= |m.fields| && Defines(m.fields[k], m.isEdge)
    ensures m.fields[k].dbName in First(m, n) && m.fields[k].dbName in Target(m, n)
  {
    if k < n - 1 {
      DefinedIn(m, n - 1, k);
    }
  }

  lemma {:induction false} SameNames(m: Model, n: nat)
    requires n <= |m.fields|
    ensures First(m, n).Keys == Target(m, n).Keys
  {
    if n > 0 {
      SameNames(m, n - 1);
    }
  }

  /** A new table and a reconciled one get the same fields exactly when fields of one name agree. */
  lemma FirstIsLast(m: Model)
    ensures FirstDefinitions(m) == Definitions(m) <==> NamesAgree(m)
  {
    var a, b, n := FirstDefinitions(m), Definitions(m), |m.fields|;
    SameNames(m, n);
    if NamesAgree(m) {
      forall x | x in a ensures a[x] == b[x] {
        var i := FirstIndex(m, n, x);
        var j := LastIndex(m, n, x);
      }
    }
    if a == b {
      forall i: nat, j: nat | IsFirst(m, i) && IsLast(m, j) && m.fields[i].dbName == m.fields[j].dbName
        ensures Define(m.fields[i]) == Define(m.fields[j])
      {
        var x := m.fields[i].dbName;
        DefinedIn(m, n, i);
        var i' := FirstIndex(m, n, x);
        var j' := LastIndex(m, n, x);
        assert i == i' && j == j';
      }
    }
  }

  // ------------------------------------------------------------------- whole runs

  /** What the models of one existing table make of its fields, in order. */
  function TableRun(fields: map<string, Definition>, ms: seq<Model>, x: string, accepts: Stmt -> bool): map<string, Definition> {
    if ms == [] then fields
    else
      var before := TableRun(fields, ms[..|ms| - 1], x, accepts);
      if ms[|ms| - 1].table == x then Reconciled(before, ms[|ms| - 1], accepts) else before
  }

  /** A missing table has one model only. */
  ghost predicate Creatable(s: Schema, ms: seq<Model>) {
    forall i, j | 0 <= i < j < |ms| && ms[i].table == ms[j].table :: ms[i].table in s
  }

  /** Tables found are reconciled with their models in order. */
  ghost predicate FoundReconciled(s: Schema, ms: seq<Model>, accepts: Stmt -> bool, t: Schema) {
    forall x | x in s :: x in t && t[x] == TableRun(s[x], ms, x, accepts)
  }

  /** Missing tables get the first definitions of their model. */
  ghost predicate MissingCreated(s: Schema, ms: seq<Model>, t: Schema) {
    forall i | 0 <= i < |ms| && ms[i].table !in s :: ms[i].table in t && t[ms[i].table] == FirstDefinitions(ms[i])
  }

  ghost predicate NoOthers(s: Schema, ms: seq<Model>, t: Schema) {
    forall x | x in t && x !in s :: exists i :: 0 <= i < |ms| && ms[i].table == x
  }

  /** The state a run leaves. */
  ghost predicate Outcome(s: Schema, ms: seq<Model>, accepts: Stmt -> bool, t: Schema) {
    FoundReconciled(s, ms, accepts, t) && MissingCreated(s, ms, t) && NoOthers(s, ms, t)
  }

  lemma NewTableOne(s: Schema, existing: set<string>, m: Model, accepts: Stmt -> bool)
    requires m.table !in existing && AcceptsDefinitions(accepts)
    ensures m.table in s ==> !MigrateOne(s, existing, m, accepts).1
    ensures m.table !in s ==> MigrateOne(s, existing, m, accepts) == (s[m.table := FirstDefinitions(m)], true)
  {
    if m.table !in s {
      var t := s[m.table := map[]];
      NewTableRun(t, m, |m.fields|, accepts);
      assert t[m.table := FirstDefinitions(m)] == s[m.table := FirstDefinitions(m)];
    }
  }

  lemma CreatableStep(s: Schema, ms: seq<Model>)
    requires ms != []
    ensures var n := |ms| - 1;
            Creatable(s, ms) <==>
            Creatable(s, ms[..n]) && (ms[n].table in s || forall i | 0 <= i < n :: ms[i].table != ms[n].table)
  {
    var n := |ms| - 1;
    assert forall i | 0 <= i < n :: ms[..n][i] == ms[i];
  }

  /** The state after the last model of a run. */
  function Stepped(s: Schema, m: Model, accepts: Stmt -> bool, t: Schema): Schema {
    t[m.table := if m.table in s && m.table in t then Reconciled(t[m.table], m, accepts) else FirstDefinitions(m)]
  }

  lemma FoundStep(s: Schema, ms: seq<Model>, accepts: Stmt -> bool, t: Schema)
    requires ms != [] && FoundReconciled(s, ms[..|ms| - 1], accepts, t)
    ensures FoundReconciled(s, ms, accepts, Stepped(s, ms[|ms| - 1], accepts, t))
  {
  }

  lemma MissingStep(s: Schema, ms: seq<Model>, accepts: Stmt -> bool, t: Schema)
    requires ms != [] && Creatable(s, ms) && MissingCreated(s, ms[..|ms| - 1], t)
    ensures MissingCreated(s, ms, Stepped(s, ms[|ms| - 1], accepts, t))
  {
    var n := |ms| - 1;
    forall i | 0 <= i < n && ms[i].table !in s
      ensures ms[i].table != ms[n].table && ms[i].table in t && t[ms[i].table] == FirstDefinitions(ms[i])
    {
      assert ms[..n][i] == ms[i];
    }
  }

  lemma OthersStep(s: Schema, ms: seq<Model>, accepts: Stmt -> bool, t: Schema)
    requires ms != [] && NoOthers(s, ms[..|ms| - 1], t)
    ensures NoOthers(s, ms, Stepped(s, ms[|ms| - 1], accepts, t))
  {
    var n := |ms| - 1;
    forall x | x in Stepped(s, ms[n], accepts, t) && x !in s ensures exists i :: 0 <= i < |ms| && ms[i].table == x {
      if x != ms[n].table {
        var i :| 0 <= i < n && ms[..n][i].table == x;
        assert ms[i].table == x;
      }
    }
  }

  lemma TableTaken(s: Schema, ms: seq<Model>, accepts: Stmt -> bool, t: Schema, x: string)
    requires Outcome(s, ms, accepts, t) && x !in s
    ensures x in t <==> exists i :: 0 <= i < |ms| && ms[i].table == x
  {
  }

  /**
   For every schema and every list of models, a run goes through exactly when no missing table
   has two models (the tables found are read once, so the second tries to create it again), and
   then every table found is reconciled with its models, every missing one holds the first
   definitions of its model, and every other table is as before.
   */
  lemma {:induction false} AutoMigrateExact(s: Schema, ms: seq<Model>, accepts: Stmt -> bool)
    requires AcceptsDefinitions(accepts)
    ensures MigrateAll(s, s.Keys, ms, accepts).1 <==> Creatable(s, ms)
    ensures Creatable(s, ms) ==> Outcome(s, ms, accepts, MigrateAll(s, s.Keys, ms, accepts).0)
  {
    if ms != [] {
      var n := |ms| - 1;
      var m, p := ms[n], ms[..n];
      AutoMigrateExact(s, p, accepts);
      CreatableStep(s, ms);
      if Creatable(s, p) {
        var t := MigrateAll(s, s.Keys, p, accepts).0;
        if m.table in s {
          ExistingTableRun(t, s.Keys, m, accepts);
        } else {
          TableTaken(s, p, accepts, t, m.table);
          NewTableOne(t, s.Keys, m, accepts);
          assert forall i | 0 <= i < n :: p[i] == ms[i];
        }
        if Creatable(s, ms) {
          FoundStep(s, ms, accepts, t);
          MissingStep(s, ms, accepts, t);
          OthersStep(s, ms, accepts, t);
        }
      }
    }
  }

  // -------------------------------------------------------------- running it again

  function Slot(fields: map<string, Definition>, n: string): Option<Definition> {
    if n in fields then Some(fields[n]) else None
  }

  /** What one reconciliation makes of one name. */
  function SlotAfter(m: Model, n: string, v: Option<Definition>, accepts: Stmt -> bool): Option<Definition> {
    if n in Definitions(m) then Some(Definitions(m)[n])
    else if n in Desired(m) || !accepts(RemoveField(m.table, n)) then v
    else None
  }

  function SlotRun(ms: seq<Model>, x: string, n: string, v: Option<Definition>, accepts: Stmt -> bool): Option<Definition> {
    if ms == [] then v
    else
      var before := SlotRun(ms[..|ms| - 1], x, n, v, accepts);
      if ms[|ms| - 1].table == x then SlotAfter(ms[|ms| - 1], n, before, accepts) else before
  }

  lemma {:induction false} TableRunSlot(fields: map<string, Definition>, ms: seq<Model>, x: string, n: string, accepts: Stmt -> bool)
    ensures Slot(TableRun(fields, ms, x, accepts), n) == SlotRun(ms, x, n, Slot(fields, n), accepts)
  {
    if ms != [] {
      var p, m := ms[..|ms| - 1], ms[|ms| - 1];
      TableRunSlot(fields, p, x, n, accepts);
      ReconciledExact(TableRun(fields, p, x, accepts), m, accepts, n);
    }
  }

  /** A run over a table fixes a name whatever it held, or leaves it as it was. */
  lemma {:induction false} SlotRunFixesOrKeeps(ms: seq<Model>, x: string, n: string, v: Option<Definition>, w: Option<Definition>, accepts: Stmt -> bool)
    ensures SlotRun(ms, x, n, v, accepts) == SlotRun(ms, x, n, w, accepts) ||
            (SlotRun(ms, x, n, v, accepts) == v && SlotRun(ms, x, n, w, accepts) == w)
  {
    if ms != [] {
      SlotRunFixesOrKeeps(ms[..|ms| - 1], x, n, v, w, accepts);
    }
  }

  lemma SlotsDecide(p: map<string, Definition>, q: map<string, Definition>)
    requires forall n :: Slot(p, n) == Slot(q, n)
    ensures p == q
  {
    forall n ensures (n in p <==> n in q) && (n in p ==> p[n] == q[n]) {
      assert Slot(p, n) == Slot(q, n);
    }
  }

  /** Whatever models a table has, reconciling it with all of them again changes nothing. */
  lemma TableRunTwice(fields: map<string, Definition>, ms: seq<Model>, x: string, accepts: Stmt -> bool)
    ensures TableRun(TableRun(fields, ms, x, accepts), ms, x, accepts) == TableRun(fields, ms, x, accepts)
  {
    var once := TableRun(fields, ms, x, accepts);
    forall n ensures Slot(TableRun(once, ms, x, accepts), n) == Slot(once, n) {
      TableRunSlot(fields, ms, x, n, accepts);
      TableRunSlot(once, ms, x, n, accepts);
      SlotRunFixesOrKeeps(ms, x, n, Slot(fields, n), Slot(once, n), accepts);
    }
    SlotsDecide(TableRun(once, ms, x, accepts), once);
  }

  lemma {:induction false} TableRunNone(fields: map<string, Definition>, ms: seq<Model>, x: string, accepts: Stmt -> bool)
    requires forall i | 0 <= i < |ms| :: ms[i].table != x
    ensures TableRun(fields, ms, x, accepts) == fields
  {
    if ms != [] {
      TableRunNone(fields, ms[..|ms| - 1], x, accepts);
    }
  }

  lemma {:induction false} TableRunOnce(fields: map<string, Definition>, ms: seq<Model>, k: nat, accepts: Stmt -> bool)
    requires k < |ms| && forall i | 0 <= i < |ms| && i != k :: ms[i].table != ms[k].table
    ensures TableRun(fields, ms, ms[k].table, accepts) == Reconciled(fields, ms[k], accepts)
  {
    var p := ms[..|ms| - 1];
    if k == |ms| - 1 {
      TableRunNone(fields, p, ms[k].table, accepts);
    } else {
      assert p[k] == ms[k] && forall i | 0 <= i < |p| :: p[i] == ms[i];
      TableRunOnce(fields, p, k, accepts);
    }
  }

  /** A table made by its model's first definitions is reconciled to its last ones. */
  lemma FirstReconciled(m: Model, accepts: Stmt -> bool)
    ensures Reconciled(FirstDefinitions(m), m, accepts) == Definitions(m)
  {
    var r := Reconciled(FirstDefinitions(m), m, accepts);
    SameNames(m, |m.fields|);
    forall n ensures Slot(r, n) == Slot(Definitions(m), n) {
      ReconciledExact(FirstDefinitions(m), m, accepts, n);
    }
    SlotsDecide(r, Definitions(m));
  }

  /**
   For every run that goes through, running it again goes through too, and it changes nothing
   exactly when in the model of every table that was missing fields of one name agree.
   */
  lemma SecondRunExact(s: Schema, ms: seq<Model>, accepts: Stmt -> bool)
    requires AcceptsDefinitions(accepts) && Creatable(s, ms)
    ensures var once := MigrateAll(s, s.Keys, ms, accepts).0;
            var (twice, ok) := MigrateAll(once, once.Keys, ms, accepts);
            ok && (twice == once <==> forall i | 0 <= i < |ms| && ms[i].table !in s :: NamesAgree(ms[i]))
  {
    var once := MigrateAll(s, s.Keys, ms, accepts).0;
    var twice := MigrateAll(once, once.Keys, ms, accepts).0;
    AutoMigrateExact(s, ms, accepts);
    AllTablesThere(s, ms, accepts, once);
    AutoMigrateExact(once, ms, accepts);
    forall x | x in s ensures twice[x] == once[x] {
      TableRunTwice(s[x], ms, x, accepts);
    }
    forall i | 0 <= i < |ms| && ms[i].table !in s
      ensures twice[ms[i].table] == once[ms[i].table] <==> NamesAgree(ms[i])
    {
      NewTableAgain(s, ms, i, accepts);
    }
    SameSchema(s, ms, accepts, once, twice);
  }

  /** With fields of one name agreeing in every model, a second run changes nothing. */
  lemma SecondRunChangesNothing(s: Schema, ms: seq<Model>, accepts: Stmt -> bool)
    requires AcceptsDefinitions(accepts) && Creatable(s, ms) && forall i | 0 <= i < |ms| :: NamesAgree(ms[i])
    ensures var once := MigrateAll(s, s.Keys, ms, accepts).0;
            MigrateAll(once, once.Keys, ms, accepts) == (once, true)
  {
    SecondRunExact(s, ms, accepts);
  }

  lemma AllTablesThere(s: Schema, ms: seq<Model>, accepts: Stmt -> bool, t: Schema)
    requires Outcome(s, ms, accepts, t)
    ensures forall i | 0 <= i < |ms| :: ms[i].table in t
    ensures Creatable(t, ms)
  {
    forall i | 0 <= i < |ms| ensures ms[i].table in t {
      assert ms[i].table in s || ms[i].table !in s;
    }
  }

  lemma NewTableAgain(s: Schema, ms: seq<Model>, k: nat, accepts: Stmt -> bool)
    requires Creatable(s, ms) && k < |ms| && ms[k].table !in s
    ensures TableRun(FirstDefinitions(ms[k]), ms, ms[k].table, accepts) == FirstDefinitions(ms[k]) <==> NamesAgree(ms[k])
  {
    forall i | 0 <= i < |ms| && i != k ensures ms[i].table != ms[k].table {
      assert if i < k then i < k else k < i;
    }
    TableRunOnce(FirstDefinitions(ms[k]), ms, k, accepts);
    FirstReconciled(ms[k], accepts);
    FirstIsLast(ms[k]);
  }

  lemma SameSchema(s: Schema, ms: seq<Model>, accepts: Stmt -> bool, once: Schema, twice: Schema)
    requires Outcome(s, ms, accepts, once) && Outcome(once, ms, accepts, twice)
    requires forall x | x in s :: x in twice && twice[x] == once[x]
    requires forall i | 0 <= i < |ms| :: ms[i].table in once
    ensures twice == once <==> forall i | 0 <= i < |ms| && ms[i].table !in s :: ms[i].table in twice && twice[ms[i].table] == once[ms[i].table]
  {
    if forall i | 0 <= i < |ms| && ms[i].table !in s :: ms[i].table in twice && twice[ms[i].table] == once[ms[i].table] {
      forall x ensures (x in twice <==> x in once) && (x in once ==> twice[x] == once[x]) {
        if x in once && x !in s {
          var i :| 0 <= i < |ms| && ms[i].table == x;
        }
      }
    }
  }

  // ---------------------------------------------------- after a run that stopped

  /** `t` is `s` but for these names in this table. */
  ghost predicate TouchesOnly(s: Schema, t: Schema, x: string, names: set<string>) {
    && t.Keys == s.Keys && (forall y | y in s && y != x :: t[y] == s[y])
    && (x in s ==> forall n | n !in names :: Slot(t[x], n) == Slot(s[x], n))
  }

  lemma {:induction false} DefineTouches(s: Schema, m: Model, n: nat, overwrite: bool, accepts: Stmt -> bool, names: set<string>)
      returns (t: Schema)
    requires n <= |m.fields| && forall k | 0 <= k < n && Defines(m.fields[k], m.isEdge) :: m.fields[k].dbName in names
    ensures t == DefineRun(s, m, n, overwrite, accepts).0 && TouchesOnly(s, t, m.table, names)
  {
    if n == 0 {
      t := s;
    } else {
      var t' := DefineTouches(s, m, n - 1, overwrite, accepts, names);
      t := NextTouches(s, t', m, n - 1, overwrite, accepts, names);
    }
  }

  lemma NextTouches(s: Schema, t: Schema, m: Model, i: nat, overwrite: bool, accepts: Stmt -> bool, names: set<string>)
      returns (t': Schema)
    requires i < |m.fields| && (Defines(m.fields[i], m.isEdge) ==> m.fields[i].dbName in names)
    requires t == DefineRun(s, m, i, overwrite, accepts).0 && TouchesOnly(s, t, m.table, names)
    ensures t' == DefineRun(s, m, i + 1, overwrite, accepts).0 && TouchesOnly(s, t', m.table, names)
  {
    t' := DefineRun(s, m, i + 1, overwrite, accepts).0;
    if DefineRun(s, m, i, overwrite, accepts).1 && Defines(m.fields[i], m.isEdge) {
      OneTouches(s, t, m, m.fields[i], overwrite, accepts, names);
    }
  }

  lemma OneTouches(s: Schema, t: Schema, m: Model, f: Field, overwrite: bool, accepts: Stmt -> bool, names: set<string>)
    requires TouchesOnly(s, t, m.table, names) && f.dbName in names
    ensures TouchesOnly(s, DefineOne(t, m, f, overwrite, accepts).0, m.table, names)
  {
  }

  /** What a run over one model may do to one name of its table, however far it gets. */
  ghost predicate MayBecome(m: Model, n: string, before: Option<Definition>, after: Option<Definition>) {
    n in Definitions(m) || after == before || (n !in Desired(m) && after.None?)
  }

  ghost predicate MayBecomeTable(m: Model, before: map<string, Definition>, after: map<string, Definition>) {
    forall n :: MayBecome(m, n, Slot(before, n), Slot(after, n))
  }

  lemma TableMayBecome(s: Schema, m: Model, isNew: bool, accepts: Stmt -> bool)
    requires m.table in s
    ensures var t := MigrateTable(s, m, isNew, accepts).0;
            && t.Keys == s.Keys && (forall x | x in s && x != m.table :: t[x] == s[x])
            && MayBecomeTable(m, s[m.table], t[m.table])
  {
    forall k | 0 <= k < |m.fields| && Defines(m.fields[k], m.isEdge) ensures m.fields[k].dbName in Definitions(m).Keys {
      DefinedIn(m, |m.fields|, k);
    }
    var d := DefineTouches(s, m, |m.fields|, !isNew, accepts, Definitions(m).Keys);
    forall n ensures MayBecome(m, n, Slot(s[m.table], n), Slot(d[m.table], n)) {
    }
    forall n ensures MayBecome(m, n, Slot(s[m.table], n), Slot(RemoveObsolete(d, m, accepts)[m.table], n)) {
      assert n !in Definitions(m) ==> Slot(d[m.table], n) == Slot(s[m.table], n);
    }
  }

  /** A name that no model of a table defines or removes. */
  ghost predicate Spared(ms: seq<Model>, x: string, n: string) {
    forall i | 0 <= i < |ms| && ms[i].table == x :: n !in Definitions(ms[i]) && n in Desired(ms[i])
  }

  /** The tables found still have what no model touches. */
  ghost predicate FoundSpared(s: Schema, ms: seq<Model>, t: Schema) {
    forall x | x in s :: x in t && forall n | Spared(ms, x, n) :: Slot(t[x], n) == Slot(s[x], n)
  }

  /** Every other table is one of a model, with some of its fields. */
  ghost predicate OthersPartial(s: Schema, ms: seq<Model>, t: Schema) {
    forall x | x in t && x !in s :: exists i :: 0 <= i < |ms| && ms[i].table == x && t[x].Keys <= Definitions(ms[i]).Keys
  }

  /** The state in which any run leaves the schema, wherever the server stops it. */
  lemma {:induction false} AnyRun(s: Schema, ms: seq<Model>, accepts: Stmt -> bool)
    ensures FoundSpared(s, ms, MigrateAll(s, s.Keys, ms, accepts).0)
    ensures OthersPartial(s, ms, MigrateAll(s, s.Keys, ms, accepts).0)
  {
    if ms != [] {
      var n := |ms| - 1;
      var p, m := ms[..n], ms[n];
      AnyRun(s, p, accepts);
      var (t, ok) := MigrateAll(s, s.Keys, p, accepts);
      LessSpared(s, ms, t);
      if ok {
        OneModel(s, ms, t, accepts);
      }
    }
  }

  lemma LessSpared(s: Schema, ms: seq<Model>, t: Schema)
    requires ms != [] && FoundSpared(s, ms[..|ms| - 1], t) && OthersPartial(s, ms[..|ms| - 1], t)
    ensures FoundSpared(s, ms, t) && OthersPartial(s, ms, t)
  {
    var p := ms[..|ms| - 1];
    forall x, n | x in s && Spared(ms, x, n) ensures Slot(t[x], n) == Slot(s[x], n) {
      assert forall i | 0 <= i < |p| :: p[i] == ms[i];
      assert Spared(p, x, n);
    }
    forall x | x in t && x !in s ensures exists i :: 0 <= i < |ms| && ms[i].table == x && t[x].Keys <= Definitions(ms[i]).Keys {
      var i :| 0 <= i < |p| && p[i].table == x && t[x].Keys <= Definitions(p[i]).Keys;
      assert ms[i] == p[i];
    }
  }

  lemma OneModel(s: Schema, ms: seq<Model>, t: Schema, accepts: Stmt -> bool)
    requires ms != [] && FoundSpared(s, ms, t) && OthersPartial(s, ms, t)
    ensures var u := MigrateOne(t, s.Keys, ms[|ms| - 1], accepts).0; FoundSpared(s, ms, u) && OthersPartial(s, ms, u)
  {
    var m := ms[|ms| - 1];
    if m.table in s {
      OverFound(s, ms, t, accepts);
    } else if Accepted(t, DefineTable(m.table), accepts) {
      OverNew(s, ms, t, accepts);
    }
  }

  lemma OverFound(s: Schema, ms: seq<Model>, t: Schema, accepts: Stmt -> bool)
    requires ms != [] && FoundSpared(s, ms, t) && OthersPartial(s, ms, t) && ms[|ms| - 1].table in s
    ensures var u := MigrateTable(t, ms[|ms| - 1], false, accepts).0; FoundSpared(s, ms, u) && OthersPartial(s, ms, u)
  {
    var m := ms[|ms| - 1];
    var u := MigrateTable(t, m, false, accepts).0;
    TableMayBecome(t, m, false, accepts);
    forall x, n | x in s && Spared(ms, x, n) ensures Slot(u[x], n) == Slot(s[x], n) {
      if x == m.table {
        assert n !in Definitions(m) && n in Desired(m);
        assert MayBecome(m, n, Slot(t[x], n), Slot(u[x], n));
      }
    }
  }

  lemma OverNew(s: Schema, ms: seq<Model>, t: Schema, accepts: Stmt -> bool)
    requires ms != [] && FoundSpared(s, ms, t) && OthersPartial(s, ms, t) && ms[|ms| - 1].table !in s && ms[|ms| - 1].table !in t
    ensures var m := ms[|ms| - 1];
            var u := MigrateTable(t[m.table := map[]], m, true, accepts).0;
            FoundSpared(s, ms, u) && OthersPartial(s, ms, u)
  {
    var m := ms[|ms| - 1];
    var t1 := t[m.table := map[]];
    var u := MigrateTable(t1, m, true, accepts).0;
    TableMayBecome(t1, m, true, accepts);
    NewSubset(m, u[m.table]);
  }

  lemma NewSubset(m: Model, after: map<string, Definition>)
    requires MayBecomeTable(m, map[], after)
    ensures after.Keys <= Definitions(m).Keys
  {
    forall n | n in after ensures n in Definitions(m) {
      assert MayBecome(m, n, Slot(map[], n), Slot(after, n));
    }
  }

  /** A run with all removals accepted fixes every name that is not spared. */
  lemma {:induction false} UnsparedFixed(ms: seq<Model>, x: string, n: string, v: Option<Definition>, w: Option<Definition>, accepts: Stmt -> bool)
    requires !Spared(ms, x, n) && forall stmt :: accepts(stmt)
    ensures SlotRun(ms, x, n, v, accepts) == SlotRun(ms, x, n, w, accepts)
  {
    if ms != [] {
      var p := ms[..|ms| - 1];
      if !Spared(p, x, n) {
        UnsparedFixed(p, x, n, v, w, accepts);
      } else {
        assert forall i | 0 <= i < |p| :: p[i] == ms[i];
      }
    }
  }

  lemma SameTable(before: map<string, Definition>, now: map<string, Definition>, ms: seq<Model>, x: string, accepts: Stmt -> bool)
    requires (forall n | Spared(ms, x, n) :: Slot(now, n) == Slot(before, n)) && forall stmt :: accepts(stmt)
    ensures TableRun(now, ms, x, accepts) == TableRun(before, ms, x, accepts)
  {
    var a, b := TableRun(now, ms, x, accepts), TableRun(before, ms, x, accepts);
    forall n ensures Slot(a, n) == Slot(b, n) {
      TableRunSlot(now, ms, x, n, accepts);
      TableRunSlot(before, ms, x, n, accepts);
      if !Spared(ms, x, n) {
        UnsparedFixed(ms, x, n, Slot(now, n), Slot(before, n), accepts);
      }
    }
    SlotsDecide(a, b);
  }

  lemma PartReconciled(fields: map<string, Definition>, m: Model, accepts: Stmt -> bool)
    requires fields.Keys <= Definitions(m).Keys
    ensures Reconciled(fields, m, accepts) == Definitions(m)
  {
    var r := Reconciled(fields, m, accepts);
    forall n ensures Slot(r, n) == Slot(Definitions(m), n) {
      ReconciledExact(fields, m, accepts, n);
    }
    SlotsDecide(r, Definitions(m));
  }

  /** A table the stopped run created, after the next one. */
  lemma CreatedBefore(s: Schema, ms: seq<Model>, k: nat, t: Schema, accepts: Stmt -> bool)
    requires Creatable(s, ms) && OthersPartial(s, ms, t) && k < |ms| && ms[k].table !in s && ms[k].table in t
    ensures TableRun(t[ms[k].table], ms, ms[k].table, accepts) == Definitions(ms[k])
  {
    var x := ms[k].table;
    var i :| 0 <= i < |ms| && ms[i].table == x && t[x].Keys <= Definitions(ms[i]).Keys;
    assert i == k;
    forall j | 0 <= j < |ms| && j != k ensures ms[j].table != x {
      assert if j < k then j < k else k < j;
    }
    TableRunOnce(t[x], ms, k, accepts);
    PartReconciled(t[x], ms[k], accepts);
  }

  /**
   A run after one that the server stopped at any statement, or at none: it reaches what one run
   over the schema from before would have reached, exactly when in the model of every table the
   stopped run created fields of one name agree.
   */
  lemma RerunExact(s: Schema, ms: seq<Model>, stopping: Stmt -> bool, accepts: Stmt -> bool)
    requires Creatable(s, ms) && forall stmt :: accepts(stmt)
    ensures var mid := MigrateAll(s, s.Keys, ms, stopping).0;
            var (end, ok) := MigrateAll(mid, mid.Keys, ms, accepts);
            ok && (end == MigrateAll(s, s.Keys, ms, accepts).0 <==>
                   forall i | 0 <= i < |ms| && ms[i].table !in s && ms[i].table in mid :: NamesAgree(ms[i]))
  {
    var mid := MigrateAll(s, s.Keys, ms, stopping).0;
    var end, once := MigrateAll(mid, mid.Keys, ms, accepts).0, MigrateAll(s, s.Keys, ms, accepts).0;
    AnyRun(s, ms, stopping);
    assert Creatable(mid, ms);
    AutoMigrateExact(s, ms, accepts);
    AutoMigrateExact(mid, ms, accepts);
    forall x | x in s ensures x in end && end[x] == once[x] {
      SameTable(s[x], mid[x], ms, x, accepts);
    }
    forall i | 0 <= i < |ms| && ms[i].table !in s
      ensures ms[i].table in end && (end[ms[i].table] == once[ms[i].table] <==> (ms[i].table in mid ==> NamesAgree(ms[i])))
    {
      if ms[i].table in mid {
        CreatedBefore(s, ms, i, mid, accepts);
        FirstIsLast(ms[i]);
      }
    }
    SameEnd(s, ms, mid, end, once, accepts);
  }

  lemma SameEnd(s: Schema, ms: seq<Model>, mid: Schema, end: Schema, once: Schema, accepts: Stmt -> bool)
    requires OthersPartial(s, ms, mid) && Outcome(mid, ms, accepts, end) && Outcome(s, ms, accepts, once)
    requires forall x | x in s :: x in end && end[x] == once[x]
    requires forall i | 0 <= i < |ms| && ms[i].table !in s :: ms[i].table in end
    ensures end == once <==> forall i | 0 <= i < |ms| && ms[i].table !in s :: end[ms[i].table] == once[ms[i].table]
  {
    forall x | x !in s ensures (x in end <==> exists i :: 0 <= i < |ms| && ms[i].table == x) {
      if x in end {
        if x in mid {
          var i :| 0 <= i < |ms| && ms[i].table == x && mid[x].Keys <= Definitions(ms[i]).Keys;
        } else {
          assert exists i :: 0 <= i < |ms| && ms[i].table == x;
        }
      }
    }
    forall x | x !in s ensures x in once <==> exists i :: 0 <= i < |ms| && ms[i].table == x {
      TableTaken(s, ms, accepts, once, x);
    }
    if forall i | 0 <= i < |ms| && ms[i].table !in s :: end[ms[i].table] == once[ms[i].table] {
      forall x ensures (x in end <==> x in once) && (x in once ==> end[x] == once[x]) {
        if x !in s && x in once {
          var i :| 0 <= i < |ms| && ms[i].table == x;
        }
      }
    }
  }

  /** Two models of one missing table make every run fail that has both. */
  lemma SameTableTwiceFails(s: Schema, ms: seq<Model>, i: nat, j: nat, accepts: Stmt -> bool)
    requires i < j < |ms| && ms[i].table == ms[j].table && ms[i].table !in s && AcceptsDefinitions(accepts)
    ensures !MigrateAll(s, s.Keys, ms, accepts).1
  {
    AutoMigrateExact(s, ms, accepts);
  }

  /** Two fields of one name: the run that creates the table keeps the first definition, the next
      run over the same table the second. */
  lemma SameNameTwiceUnstable(f: Field, g: Field, t: string, accepts: Stmt -> bool)
    requires Defines(f, false) && Defines(g, false) && f.dbName == g.dbName && AcceptsDefinitions(accepts)
    ensures var ms, once, twice := [Model(t, [f, g], [], false)], map[t := map[f.dbName := Define(f)]], map[t := map[f.dbName := Define(g)]];
            && MigrateAll(map[], {}, ms, accepts) == (once, true)
            && MigrateAll(once, once.Keys, ms, accepts) == (twice, true)
  {
    var m := Model(t, [f, g], [], false);
    var once: Schema := map[t := map[f.dbName := Define(f)]];
    assert First(m, 0) == map[] && First(m, 1) == map[f.dbName := Define(f)] && First(m, 2) == First(m, 1);
    assert Target(m, 0) == map[] && Target(m, 1) == map[f.dbName := Define(f)];
    assert Target(m, 2) == map[f.dbName := Define(g)];
    assert [m][..0] == [];
    NewTableOne(map[], {}, m, accepts);
    ExistingTableRun(once, once.Keys, m, accepts);
    FirstReconciled(m, accepts);
    var twice: Schema := map[t := map[f.dbName := Define(g)]];
    assert Reconciled(once[t], m, accepts) == Definitions(m) == twice[t];
    assert once[t := twice[t]] == twice;
    assert MigrateAll(once, once.Keys, [], accepts) == (once, true);
  }
}
