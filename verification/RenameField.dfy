/**
 Renaming a field (alter.go:287-319): up to four statements, each of which may be the last
 one that is carried out. Records are schemaless: an absent field reads as NONE, and
 assigning NONE removes the field. A plain DEFINE FIELD of a defined field is an error.
 */
module RenameField {
  /** How INFO FOR TABLE spells the name in the text of a definition. */
  datatype Spelling = Backticked | Plain | Unrecognised

  datatype Definition = Definition(spelling: Spelling, body: string)

  type Fields = map<string, int>

  datatype Table = Table(defs: map<string, Definition>, records: map<string, Fields>)

  datatype Stmt =
    | Define(name: string, def: Definition)
    | Copy(target: string, source: string)
    | Unset(name: string)
    | Remove(name: string)

  function CopyField(r: Fields, target: string, source: string): Fields {
    if source in r then r[target := r[source]] else r - {target}
  }

  predicate Accepted(t: Table, s: Stmt) {
    s.Define? ==> s.name !in t.defs
  }

  function Apply(t: Table, s: Stmt): Table {
    match s
    case Define(n, d) => t.(defs := t.defs[n := d])
    case Copy(n, o) => t.(records := map id | id in t.records :: CopyField(t.records[id], n, o))
    case Unset(n) => t.(records := map id | id in t.records :: t.records[id] - {n})
    case Remove(n) => t.(defs := t.defs - {n})
  }

  /** The statements of a rename, given the definitions INFO FOR TABLE returned, if it did. */
  function Steps(known: bool, defs: map<string, Definition>, oldName: string, newName: string): seq<Stmt> {
    (if known && oldName in defs && !defs[oldName].spelling.Unrecognised? then [Define(newName, defs[oldName])] else []) +
    [Copy(newName, oldName), Unset(oldName), Remove(oldName)]
  }

  /** The table after the first `k` statements. */
  function After(t: Table, steps: seq<Stmt>, k: nat): Table
    requires k <= |steps|
  {
    if k == 0 then t else Apply(After(t, steps, k - 1), steps[k - 1])
  }

  class Migrator {
    var table: Table
    const rejects: Stmt -> bool

    constructor (t: Table, rejects: Stmt -> bool)
      ensures table == t && this.rejects == rejects
    {
      table, this.rejects := t, rejects;
    }

    method Exec(s: Stmt) returns (ok: bool)
      modifies this
      ensures ok <==> Accepted(old(table), s) && !rejects(s)
      ensures table == if ok then Apply(old(table), s) else old(table)
    {
      ok := (s.Define? ==> s.name !in table.defs) && !rejects(s);
      if ok {
        table := Apply(table, s);
      }
    }

    /** Whatever statement fails, the table is left as it was after the ones before it. */
    method Rename(known: bool, oldName: string, newName: string) returns (ok: bool, ghost k: nat)
      modifies this
      ensures var steps := Steps(known, old(table).defs, oldName, newName);
              && k <= |steps| && table == After(old(table), steps, k)
              && (ok <==> k == |steps|)
              && (!ok ==> !Accepted(table, steps[k]) || rejects(steps[k]))
    {
      k := 0;
      ghost var steps := Steps(known, table.defs, oldName, newName);
      ghost var start := table;
      if known && oldName in table.defs {
        var def := table.defs[oldName];
        if def.spelling != Unrecognised {
          ok := Exec(Define(newName, def));
          if !ok { return; }
          k := 1;
          assert table == After(start, steps, 1);
        }
      }
      ghost var j := k;
      assert steps[j] == Copy(newName, oldName) && steps[j + 1] == Unset(oldName) && steps[j + 2] == Remove(oldName);
      ok := Exec(Copy(newName, oldName));
      if !ok { return; }
      k := j + 1;
      assert table == After(start, steps, k);
      ok := Exec(Unset(oldName));
      if !ok { return; }
      k := j + 2;
      assert table == After(start, steps, k);
      ok := Exec(Remove(oldName));
      if !ok { return; }
      k := j + 3;
      assert table == After(start, steps, k);
    }
  }

  // ---------------------------------------------------------------- main results

  /** The statements of a rename, by number. */
  lemma StepList(known: bool, defs: map<string, Definition>, o: string, n: string)
    ensures var s, d := Steps(known, defs, o, n), |Steps(known, defs, o, n)| - 3;
            && d in {0, 1} && s[d] == Copy(n, o) && s[d + 1] == Unset(o) && s[d + 2] == Remove(o)
            && (d == 1 <==> known && o in defs && !defs[o].spelling.Unrecognised?)
            && (d == 1 ==> s[0] == Define(n, defs[o]))
  {
  }

  /** A record after so many of the data statements. */
  function Staged(r: Fields, o: string, n: string, done: int): Fields {
    if done <= 0 then r else if done == 1 then CopyField(r, n, o) else CopyField(r, n, o) - {o}
  }

  /** The records after the first `k` statements, by how many of the three data statements they include. */
  lemma AfterRecords(t: Table, known: bool, o: string, n: string, k: nat, id: string)
    requires var s := Steps(known, t.defs, o, n); k <= |s|
    requires id in t.records
    ensures var s := Steps(known, t.defs, o, n);
            var r, done := t.records[id], k - (|s| - 3);
            && After(t, s, k).records.Keys == t.records.Keys
            && After(t, s, k).records[id] == Staged(r, o, n, done)
  {
    StepList(known, t.defs, o, n);
    if k > 0 {
      AfterRecords(t, known, o, n, k - 1, id);
    }
  }

  /** Wherever a rename stops, each record still holds the value under the old or the new name. */
  lemma NothingLostMidway(t: Table, known: bool, o: string, n: string, k: nat, id: string)
    requires o != n && k <= |Steps(known, t.defs, o, n)|
    requires id in t.records && o in t.records[id]
    ensures var after := After(t, Steps(known, t.defs, o, n), k).records;
            && id in after
            && ((o in after[id] && after[id][o] == t.records[id][o]) || (n in after[id] && after[id][n] == t.records[id][o]))
  {
    AfterRecords(t, known, o, n, k, id);
  }

  /** A whole rename moves the value and the definition and leaves every other field alone. A
      record without the old field ends without the new one, even if it had it. */
  lemma RenameExact(t: Table, known: bool, o: string, n: string, id: string)
    requires o != n && id in t.records
    ensures var s := Steps(known, t.defs, o, n);
            var r, after := t.records[id], After(t, s, |s|);
            && id in after.records && o !in after.records[id]
            && (n in after.records[id] <==> o in r) && (o in r ==> after.records[id][n] == r[o])
            && (forall x | x != o && x != n :: (x in after.records[id] <==> x in r) && (x in r ==> after.records[id][x] == r[x]))
            && o !in after.defs
            && (known && o in t.defs && !t.defs[o].spelling.Unrecognised? ==> n in after.defs && after.defs[n] == t.defs[o])
            && (forall x | x != o && x != n :: (x in after.defs <==> x in t.defs) && (x in t.defs ==> after.defs[x] == t.defs[x]))
  {
    var s := Steps(known, t.defs, o, n);
    AfterRecords(t, known, o, n, |s|, id);
    AfterDefinitions(t, known, o, n);
  }

  lemma AfterDefinitions(t: Table, known: bool, o: string, n: string)
    ensures var s := Steps(known, t.defs, o, n);
            After(t, s, |s|).defs == (if |s| == 4 then t.defs[n := t.defs[o]] else t.defs) - {o}
  {
    var s := Steps(known, t.defs, o, n);
    StepList(known, t.defs, o, n);
    var d := |s| - 3;
    assert d == 1 ==> After(t, s, 1) == Apply(After(t, s, 0), s[0]);
    assert After(t, s, d + 1).defs == After(t, s, d).defs;
    assert After(t, s, d + 2).defs == After(t, s, d + 1).defs;
    assert After(t, s, d + 3) == Apply(After(t, s, d + 2), s[d + 2]);
  }

  /** Renaming a field to itself: the value is unset, unless the definition step stops the rename. */
  lemma SameNameDestroys(t: Table, known: bool, o: string, id: string)
    requires id in t.records && o in t.records[id]
    ensures var s := Steps(known, t.defs, o, o);
            if |s| == 4 then !Accepted(t, s[0])
            else id in After(t, s, |s|).records && o !in After(t, s, |s|).records[id]
  {
    var s := Steps(known, t.defs, o, o);
    StepList(known, t.defs, o, o);
    AfterRecords(t, known, o, o, |s|, id);
  }

  /** The value a record held under the old name stands under neither name. */
  ghost predicate Lost(before: Fields, after: Fields, o: string, n: string)
    requires o in before
  {
    !(o in after && after[o] == before[o]) && !(n in after && after[n] == before[o])
  }

  /** How many of the three data statements are among the first `k` of a rename. */
  function DataSteps(steps: seq<Stmt>, k: nat): int {
    k - (|steps| - 3)
  }

  /**
   Running a rename again after it stopped at any statement, with or without an answer to INFO
   FOR TABLE in either run, and stopping again anywhere or nowhere: the value is lost exactly when
   the first run reached the UNSET statement and the second the copying one.
   */
  lemma TwiceExact(t: Table, known1: bool, known2: bool, o: string, n: string, k: nat, k2: nat, id: string)
    requires o != n && k < |Steps(known1, t.defs, o, n)| && id in t.records && o in t.records[id]
    requires k2 <= |Steps(known2, After(t, Steps(known1, t.defs, o, n), k).defs, o, n)|
    ensures var s := Steps(known1, t.defs, o, n);
            var mid := After(t, s, k);
            var again := Steps(known2, mid.defs, o, n);
            var end := After(mid, again, k2).records;
            id in end && (Lost(t.records[id], end[id], o, n) <==> DataSteps(s, k) >= 2 && DataSteps(again, k2) >= 1)
  {
    var s := Steps(known1, t.defs, o, n);
    var mid := After(t, s, k);
    var again := Steps(known2, mid.defs, o, n);
    AfterRecords(t, known1, o, n, k, id);
    AfterRecords(mid, known2, o, n, k2, id);
    StagedTwice(t.records[id], o, n, DataSteps(s, k), DataSteps(again, k2));
  }

  lemma StagedTwice(r: Fields, o: string, n: string, a: int, b: int)
    requires o != n && o in r
    ensures Lost(r, Staged(Staged(r, o, n, a), o, n, b), o, n) <==> a >= 2 && b >= 1
  {
  }

  /** The second run begins with a definition the server rejects. */
  predicate StopsAtOnce(t: Table, known: bool, o: string, n: string) {
    var s := Steps(known, t.defs, o, n);
    s[0].Define? && !Accepted(t, s[0])
  }

  /** The table after a second run in which the server rejects nothing but a repeated definition. */
  function Again(t: Table, known: bool, o: string, n: string): Table {
    var s := Steps(known, t.defs, o, n);
    if StopsAtOnce(t, known, o, n) then t else After(t, s, |s|)
  }

  /**
   A rename run again to its end: the value is lost exactly when the first run reached the UNSET
   statement and the second does not begin with a rejected definition; it does so exactly when
   INFO answers then, the code recognises the definition of the old name, and the new name is
   defined, by the first run or from before.
   */
  lemma RestartExact(t: Table, known1: bool, known2: bool, o: string, n: string, k: nat, id: string)
    requires o != n && k < |Steps(known1, t.defs, o, n)| && id in t.records && o in t.records[id]
    ensures var s := Steps(known1, t.defs, o, n);
            var mid := After(t, s, k);
            && id in Again(mid, known2, o, n).records
            && (Lost(t.records[id], Again(mid, known2, o, n).records[id], o, n) <==>
                DataSteps(s, k) >= 2 && !StopsAtOnce(mid, known2, o, n))
            && (StopsAtOnce(mid, known2, o, n) <==>
                && known2 && o in t.defs && !t.defs[o].spelling.Unrecognised?
                && (n in t.defs || (|s| == 4 && k >= 1)))
  {
    var s := Steps(known1, t.defs, o, n);
    var mid := After(t, s, k);
    StepList(known1, t.defs, o, n);
    MidDefinitions(t, known1, o, n, k);
    var again := Steps(known2, mid.defs, o, n);
    StepList(known2, mid.defs, o, n);
    TwiceExact(t, known1, known2, o, n, k, if StopsAtOnce(mid, known2, o, n) then 0 else |again|, id);
  }

  lemma MidDefinitions(t: Table, known: bool, o: string, n: string, k: nat)
    requires o != n && k < |Steps(known, t.defs, o, n)|
    ensures var s := Steps(known, t.defs, o, n);
            After(t, s, k).defs == if |s| == 4 && k >= 1 then t.defs[n := t.defs[o]] else t.defs
  {
    StepList(known, t.defs, o, n);
    if k > 0 {
      MidDefinitions(t, known, o, n, k - 1);
    }
  }
}
