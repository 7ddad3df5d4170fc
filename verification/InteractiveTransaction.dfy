/**
 The interactive transaction (transaction.go:30-129) and the routing of statements to it
 (executor.go:18-38 and 228-234): a client of one open server transaction next to statements
 on the shared connection, built ones and raw ones (driver.go:29-89). The server gives the transaction the records as they were when it
 began, overlaid with its own writes; a commit puts these writes over the committed records.
 */
module InteractiveTransaction {
  import opened Wrappers
  import EdgeRegistry

  datatype Key = Key(table: string, id: string)

  /** A record with its content, or an edge between two records. */
  datatype Record = Plain(content: int) | Edge(source: string, target: string)

  type Records = map<Key, Record>

  /** The last write of each key; None is a deletion. */
  type Writes = map<Key, Option<Record>>

  function Overlay(r: Records, w: Writes): Records {
    (map k | k in r && k !in w :: r[k]) + (map k | k in w && w[k].Some? :: w[k].value)
  }

  /** A statement about one record. INSERT INTO key.table carries its first two arguments as record
      ids; the id of the new record is part of the statement. */
  datatype Stmt =
    | Read(key: Key, only: bool)                         // SELECT, maybe FROM ONLY
    | Write(key: Key, value: Option<Record>, quiet: bool)   // UPSERT or DELETE, maybe RETURN NONE
    | Insert(key: Key, content: int, source: Option<string>, target: Option<string>)

  /** What the server returns for a statement. */
  datatype Result = Nothing | Slice(n: nat) | One

  /** The result of a statement over the records it sees: a deletion returns no record. */
  function Answer(r: Records, s: Stmt): Result {
    match s
    case Read(k, only) => if only then (if k in r then One else Nothing) else Slice(if k in r then 1 else 0)
    case Write(_, v, quiet) => Slice(if v.None? || quiet then 0 else 1)
    case Insert(_, _, _, _) => Slice(1)
  }

  /** The rows `Dialector.ExecContext` counts in it. */
  function CountRows(res: Result): nat {
    match res
    case Nothing => 0
    case Slice(n) => n
    case One => 1
  }

  datatype Response = Rows(n: nat) | Found(v: Option<Record>) | Done | Error

  /** The server's open transaction, as the SDK holds it. */
  class SdkTransaction {
    const snapshot: Records
    var writes: Writes
    var closed: bool

    constructor (committed: Records)
      ensures snapshot == committed && writes == map[] && !closed
    {
      snapshot, writes, closed := committed, map[], false;
    }
  }

  class Connection {
    var committed: Records

    constructor (r: Records)
      ensures committed == r
    {
      committed := r;
    }

    /** `Dialector.ExecContext`: a raw statement on the shared connection. */
    method ExecContext(s: Stmt, edges: map<string, string>) returns (r: Response)
      modifies this
      ensures (committed, r) == StepDirect(old(committed), s, edges)
    {
      if s.Insert? && s.source.Some? && s.target.Some? && EdgeRegistry.Find(edges, s.key.table).Some? {
        var name := EdgeRegistry.Find(edges, s.key.table).value;
        committed := Overlay(committed, map[Key(name, s.key.id) := Some(Edge(s.source.value, s.target.value))]);
        return Rows(1);
      }
      var result := Answer(committed, s);
      if !s.Read? {
        committed := Overlay(committed, map[s.key := if s.Insert? then Some(Plain(s.content)) else s.value]);
      }
      var count := 0;
      match result {
        case Nothing =>
        case Slice(n) => count := n;
        case One => count := 1;
      }
      r := Rows(count);
    }
  }

  /** What the text of a write puts under which key. */
  function PlainEffect(s: Stmt): (Key, Option<Record>)
    requires !s.Read?
  {
    match s
    case Write(k, v, _) => (k, v)
    case Insert(k, v, _, _) => (k, Some(Plain(v)))
  }

  /** The same through ExecContext: an INSERT into a registered edge table with two record ids
      becomes a relation of the canonical table between them, and its content is lost. */
  function Effect(s: Stmt, edges: map<string, string>): (Key, Option<Record>)
    requires !s.Read?
  {
    if Relates(s, edges) then (Key(EdgeRegistry.Find(edges, s.key.table).value, s.key.id), Some(Edge(s.source.value, s.target.value))) else PlainEffect(s)
  }

  predicate Relates(s: Stmt, edges: map<string, string>) {
    s.Insert? && EdgeRegistry.Find(edges, s.key.table).Some? && s.source.Some? && s.target.Some?
  }

  /** The state of a run: the shared records and one transaction on them. */
  datatype State = State(committed: Records, snapshot: Records, writes: Writes, closed: bool)

  function Lookup(r: Records, k: Key): Option<Record> {
    if k in r then Some(r[k]) else None
  }

  function WriteShared(r: Records, kv: (Key, Option<Record>)): Records {
    Overlay(r, map[kv.0 := kv.1])
  }

  /** The transaction as GORM's ConnPool and TxCommitter. */
  class SurrealTx {
    const sdk: SdkTransaction
    const conn: Connection
    const edges: map<string, string>

    constructor (sdk: SdkTransaction, conn: Connection, edges: map<string, string>)
      ensures this.sdk == sdk && this.conn == conn && this.edges == edges
    {
      this.sdk, this.conn, this.edges := sdk, conn, edges;
    }

    ghost function Abstract(): State
      reads sdk, conn
    {
      State(conn.committed, sdk.snapshot, sdk.writes, sdk.closed)
    }

    method ExecContext(s: Stmt) returns (r: Response)
      modifies sdk
      ensures (Abstract(), r) == Step(old(Abstract()), Exec(s), edges)
    {
      if sdk.closed {
        return Error;
      }
      if s.Insert? && s.source.Some? && s.target.Some? && EdgeRegistry.Find(edges, s.key.table).Some? {
        var name := EdgeRegistry.Find(edges, s.key.table).value;
        sdk.writes := sdk.writes[Key(name, s.key.id) := Some(Edge(s.source.value, s.target.value))];
        return Rows(1);
      }
      if !s.Read? {
        sdk.writes := sdk.writes[s.key := if s.Insert? then Some(Plain(s.content)) else s.value];
      }
      r := Rows(0);
    }

    method Commit() returns (r: Response)
      modifies sdk, conn
      ensures (Abstract(), r) == Step(old(Abstract()), CommitTx, edges)
    {
      r := Done;
      if sdk.closed {
        return;
      }
      conn.committed := Overlay(conn.committed, sdk.writes);
      sdk.closed := true;
    }

    method Rollback() returns (r: Response)
      modifies sdk
      ensures (Abstract(), r) == Step(old(Abstract()), RollbackTx, edges)
    {
      r := Done;
      if sdk.closed {
        return;
      }
      sdk.closed := true;
    }
  }

  /** A statement built by GORM: on the transaction when its pool is one, else on the shared connection. */
  method ExecTxQuery(pool: Option<SurrealTx>, conn: Connection, s: Stmt, edges: map<string, string>) returns (r: Response)
    requires pool.Some? ==> pool.value.conn == conn && pool.value.edges == edges
    modifies conn, (if pool.Some? then {pool.value.sdk} else {})
    ensures pool.Some? ==> (pool.value.Abstract(), r) == Step(old(pool.value.Abstract()), Routed(s), edges)
    ensures pool.None? ==> (conn.committed, r) == StepShared(old(conn.committed), s)
  {
    match pool
    case Some(tx) =>
      if tx.sdk.closed {
        return Error;
      }
      if s.Read? {
        return Found(Lookup(Overlay(tx.sdk.snapshot, tx.sdk.writes), s.key));
      }
      var (k, v) := PlainEffect(s);
      tx.sdk.writes := tx.sdk.writes[k := v];
      r := Done;
    case None =>
      if s.Read? {
        return Found(Lookup(conn.committed, s.key));
      }
      conn.committed := WriteShared(conn.committed, PlainEffect(s));
      r := Done;
  }

  // ------------------------------------------------------------------------ runs

  datatype Event =
    | Exec(s: Stmt)      // ExecContext of the transaction
    | Routed(s: Stmt)    // a built statement whose pool is the transaction
    | Shared(s: Stmt)    // a built statement on the shared connection
    | Direct(s: Stmt)    // ExecContext of the shared connection
    | CommitTx
    | RollbackTx

  function StepShared(r: Records, s: Stmt): (Records, Response) {
    if s.Read? then (r, Found(Lookup(r, s.key))) else (WriteShared(r, PlainEffect(s)), Done)
  }

  function StepDirect(r: Records, s: Stmt, edges: map<string, string>): (Records, Response) {
    (if s.Read? then r else WriteShared(r, Effect(s, edges)),
     Rows(if Relates(s, edges) then 1 else CountRows(Answer(r, s))))
  }

  predicate OnShared(e: Event) {
    e.Shared? || e.Direct?
  }

  /** A statement on the shared connection, built or raw. */
  function StepOutside(r: Records, e: Event, edges: map<string, string>): (Records, Response)
    requires OnShared(e)
  {
    if e.Shared? then StepShared(r, e.s) else StepDirect(r, e.s, edges)
  }

  function Step(t: State, e: Event, edges: map<string, string>): (State, Response) {
    match e
    case Shared(_) => (t.(committed := StepOutside(t.committed, e, edges).0), StepOutside(t.committed, e, edges).1)
    case Direct(_) => (t.(committed := StepOutside(t.committed, e, edges).0), StepOutside(t.committed, e, edges).1)
    case CommitTx =>
      if t.closed then (t, Done) else (t.(committed := Overlay(t.committed, t.writes), closed := true), Done)
    case RollbackTx => (t.(closed := true), Done)
    case Exec(s) =>
      if t.closed then (t, Error)
      else if s.Read? then (t, Rows(0))
      else (Written(t, Effect(s, edges)), Rows(if Relates(s, edges) then 1 else 0))
    case Routed(s) =>
      if t.closed then (t, Error)
      else if s.Read? then (t, Found(Lookup(Overlay(t.snapshot, t.writes), s.key)))
      else (Written(t, PlainEffect(s)), Done)
  }

  function Written(t: State, kv: (Key, Option<Record>)): State {
    t.(writes := t.writes[kv.0 := kv.1])
  }

  /** A run from BEGIN over the committed records. */
  function Run(r: Records, es: seq<Event>, edges: map<string, string>): State {
    if es == [] then State(r, r, map[], false)
    else Step(Run(r, es[..|es| - 1], edges), es[|es| - 1], edges).0
  }

  /** The committed records when only the shared statements of a run are carried out. */
  function SharedOnly(r: Records, es: seq<Event>, edges: map<string, string>): Records {
    if es == [] then r
    else
      var before := SharedOnly(r, es[..|es| - 1], edges);
      if OnShared(es[|es| - 1]) then StepOutside(before, es[|es| - 1], edges).0 else before
  }

  predicate Closing(e: Event) {
    e.CommitTx? || e.RollbackTx?
  }

  ghost predicate NeverCloses(es: seq<Event>) {
    forall i | 0 <= i < |es| :: !Closing(es[i])
  }

  predicate Writing(e: Event) {
    (e.Exec? || e.Routed?) && !e.s.Read?
  }

  function EventEffect(e: Event, edges: map<string, string>): (Key, Option<Record>)
    requires Writing(e)
  {
    if e.Exec? then Effect(e.s, edges) else PlainEffect(e.s)
  }

  /** The transaction's own last write of a key. */
  function LastWrite(es: seq<Event>, k: Key, edges: map<string, string>): Option<Option<Record>> {
    if es == [] then None
    else
      var e := es[|es| - 1];
      if Writing(e) && EventEffect(e, edges).0 == k then Some(EventEffect(e, edges).1)
      else LastWrite(es[..|es| - 1], k, edges)
  }

  /** Until it is closed, a transaction changes nothing but its own writes. */
  lemma {:induction false} OpenRun(r: Records, es: seq<Event>, edges: map<string, string>)
    requires NeverCloses(es)
    ensures var t := Run(r, es, edges);
            && !t.closed && t.snapshot == r && t.committed == SharedOnly(r, es, edges)
            && (forall k :: (k in t.writes <==> LastWrite(es, k, edges).Some?)
                            && (k in t.writes ==> t.writes[k] == LastWrite(es, k, edges).value))
  {
    if es != [] {
      OpenRun(r, es[..|es| - 1], edges);
      assert !Closing(es[|es| - 1]);
    }
  }

  /** A read inside the transaction sees its own last write of the key, and otherwise the record as it was at BEGIN. */
  lemma ReadsOwnWrites(r: Records, es: seq<Event>, k: Key, only: bool, edges: map<string, string>)
    requires NeverCloses(es)
    ensures Step(Run(r, es, edges), Routed(Read(k, only)), edges).1 ==
            Found(if LastWrite(es, k, edges).Some? then LastWrite(es, k, edges).value else Lookup(r, k))
  {
    OpenRun(r, es, edges);
  }

  /** Nothing a closed transaction is asked to do has an effect, and each statement is an error. */
  lemma ClosedRefuses(t: State, s: Stmt, edges: map<string, string>)
    requires t.closed
    ensures Step(t, Exec(s), edges) == (t, Error) && Step(t, Routed(s), edges) == (t, Error)
    ensures Step(t, CommitTx, edges) == (t, Done) && Step(t, RollbackTx, edges) == (t, Done)
  {
  }

  lemma ClosedStep(t: State, e: Event, edges: map<string, string>)
    requires t.closed
    ensures Step(t, e, edges).0 ==
            if OnShared(e) then t.(committed := StepOutside(t.committed, e, edges).0) else t
  {
  }

  /** So after it is closed, a transaction stays as it is, and only shared statements change the records. */
  lemma {:induction false} ClosedRun(r: Records, es: seq<Event>, n: nat, edges: map<string, string>)
    requires n <= |es| && Run(r, es[..n], edges).closed
    ensures var t, start := Run(r, es, edges), Run(r, es[..n], edges);
            t == start.(committed := SharedOnly(start.committed, es[n..], edges))
  {
    if n == |es| {
      assert es[..n] == es;
    } else {
      var p := es[..|es| - 1];
      assert p[..n] == es[..n];
      assert es[n..][..|es[n..]| - 1] == p[n..];
      ClosedRun(r, p, n, edges);
      ClosedStep(Run(r, p, edges), es[|es| - 1], edges);
    }
  }

  /**
   Atomicity over whole runs, by the first closing event at `n`. If it is a commit, the
   committed records are what the shared statements before it left, overlaid with the
   transaction's writes at once, and then changed by the shared statements after it; if it is
   a rollback, they are as if the transaction had never been.
   */
  lemma RunIsAtomic(r: Records, es: seq<Event>, n: nat, edges: map<string, string>)
    requires n < |es| && Closing(es[n]) && NeverCloses(es[..n])
    ensures es[n].RollbackTx? ==> Run(r, es, edges).committed == SharedOnly(r, es, edges)
    ensures es[n].CommitTx? ==>
              Run(r, es, edges).committed ==
              SharedOnly(Overlay(SharedOnly(r, es[..n], edges), Run(r, es[..n], edges).writes), es[n + 1..], edges)
  {
    var p := es[..n + 1];
    assert p[..n] == es[..n] && p[n] == es[n];
    OpenRun(r, es[..n], edges);
    ClosedRun(r, es, n + 1, edges);
    SharedSplit(r, es, n + 1, edges);
  }

  /** A transaction that is never closed leaves no trace either. */
  lemma {:induction false} UnclosedLeavesNoTrace(r: Records, es: seq<Event>, edges: map<string, string>)
    requires NeverCloses(es)
    ensures Run(r, es, edges).committed == SharedOnly(r, es, edges)
  {
    OpenRun(r, es, edges);
  }

  lemma {:induction false} SharedSplit(r: Records, es: seq<Event>, n: nat, edges: map<string, string>)
    requires n <= |es|
    ensures SharedOnly(r, es, edges) == SharedOnly(SharedOnly(r, es[..n], edges), es[n..], edges)
  {
    if n == |es| {
      assert es[..n] == es;
    } else {
      var p := es[..|es| - 1];
      assert p[..n] == es[..n];
      assert es[n..][..|es[n..]| - 1] == p[n..];
      SharedSplit(r, p, n, edges);
    }
  }

  /**
   The row counts of the two ExecContext methods, for every statement over all records: they
   agree exactly on relations, reads of a missing record, deletions and writes that return
   nothing. Every other statement reports none in a transaction and its rows outside.
   */
  lemma RowCountsExact(t: State, r: Records, s: Stmt, edges: map<string, string>)
    requires !t.closed
    ensures Step(t, Exec(s), edges).1 == StepDirect(r, s, edges).1 <==>
            match s
            case Read(k, _) => k !in r
            case Write(_, v, quiet) => v.None? || quiet
            case Insert(_, _, _, _) => Relates(s, edges)
  {
  }

  // ------------------------------------------------- where a write ends up

  /** The table a spelling stands for after a history of registrations, by its last registration
      or that of its plural. */
  function TableOf(ts: seq<string>, spelling: string): Option<string> {
    if EdgeRegistry.LastMatch(ts, spelling).Some? then EdgeRegistry.LastMatch(ts, spelling)
    else EdgeRegistry.LastMatch(ts, spelling + "s")
  }

  /** The key a statement writes: a relation goes to the table its spelling stands for. */
  function WrittenKey(ts: seq<string>, s: Stmt): Key {
    if s.Insert? && s.source.Some? && s.target.Some? && TableOf(ts, s.key.table).Some?
    then Key(TableOf(ts, s.key.table).value, s.key.id) else s.key
  }

  /** The record a statement leaves there, if any: a relation holds its two ends only. */
  function LeftRecord(ts: seq<string>, s: Stmt): Option<Record>
    requires !s.Read?
  {
    match s
    case Write(_, v, _) => v
    case Insert(k, c, source, target) =>
      if source.Some? && target.Some? && TableOf(ts, k.table).Some? then Some(Edge(source.value, target.value)) else Some(Plain(c))
  }

  /** What the transaction sees, and what it would leave behind if it were committed. */
  function Sees(t: State, k: Key): Option<Record> {
    Lookup(Overlay(t.snapshot, t.writes), k)
  }

  lemma TableFound(ts: seq<string>, spelling: string)
    ensures EdgeRegistry.Find(EdgeRegistry.Run(ts), spelling) == TableOf(ts, spelling)
  {
    EdgeRegistry.FindExact(ts, spelling);
  }

  lemma ExecLands(t: State, ts: seq<string>, s: Stmt, k: Key)
    requires !t.closed && !s.Read?
    ensures var (u, response) := Step(t, Exec(s), EdgeRegistry.Run(ts));
            && Sees(u, k) == (if k == WrittenKey(ts, s) then LeftRecord(ts, s) else Sees(t, k))
            && u.committed == t.committed && !u.closed
            && response == Rows(if s.Insert? && s.source.Some? && s.target.Some? && TableOf(ts, s.key.table).Some? then 1 else 0)
    ensures var edges := EdgeRegistry.Run(ts);
            Lookup(Step(Step(t, Exec(s), edges).0, CommitTx, edges).0.committed, k) ==
            if k == WrittenKey(ts, s) then LeftRecord(ts, s) else Lookup(Step(t, CommitTx, edges).0.committed, k)
  {
    if s.Insert? {
      TableFound(ts, s.key.table);
    }
  }

  /**
   For every history of registrations and every run that did not close, a raw statement on the
   transaction leaves its record under the table registered last for its spelling, and nothing
   else changes: an INSERT of two record ids leaves an edge between them, under the spelling
   only if that is the registered name. A commit puts it there for good.
   */
  lemma WriteLands(r: Records, es: seq<Event>, ts: seq<string>, s: Stmt, k: Key)
    requires NeverCloses(es) && !s.Read?
    ensures var edges := EdgeRegistry.Run(ts);
            var t, (u, response) := Run(r, es, edges), Step(Run(r, es, edges), Exec(s), edges);
            && Sees(u, k) == (if k == WrittenKey(ts, s) then LeftRecord(ts, s) else Sees(t, k))
            && u.committed == t.committed && !u.closed
            && response == Rows(if s.Insert? && s.source.Some? && s.target.Some? && TableOf(ts, s.key.table).Some? then 1 else 0)
    ensures var edges := EdgeRegistry.Run(ts);
            Lookup(Run(r, es + [Exec(s), CommitTx], edges).committed, k) ==
            if k == WrittenKey(ts, s) then LeftRecord(ts, s) else Lookup(Run(r, es + [CommitTx], edges).committed, k)
  {
    var edges := EdgeRegistry.Run(ts);
    OpenRun(r, es, edges);
    ExecLands(Run(r, es, edges), ts, s, k);
    RunSnoc(r, es, CommitTx, edges);
    RunSnoc(r, es, Exec(s), edges);
    RunSnoc(r, es + [Exec(s)], CommitTx, edges);
    assert es + [Exec(s), CommitTx] == es + [Exec(s)] + [CommitTx];
  }

  lemma RunSnoc(r: Records, es: seq<Event>, e: Event, edges: map<string, string>)
    ensures Run(r, es + [e], edges) == Step(Run(r, es, edges), e, edges).0
  {
    assert (es + [e])[..|es|] == es;
  }

  /** The same on the shared connection, at once. */
  lemma DirectWriteLands(r: Records, ts: seq<string>, s: Stmt, k: Key)
    requires !s.Read?
    ensures var (after, response) := StepDirect(r, s, EdgeRegistry.Run(ts));
            && Lookup(after, k) == (if k == WrittenKey(ts, s) then LeftRecord(ts, s) else Lookup(r, k))
            && (s.Insert? ==> response == Rows(1))
  {
    if s.Insert? {
      TableFound(ts, s.key.table);
    }
  }

  /** A statement GORM built is never made a relation: it writes the key it names, on either side. */
  lemma BuiltWriteLands(t: State, r: Records, s: Stmt, edges: map<string, string>, k: Key)
    requires !t.closed && !s.Read?
    ensures var left := if s.Insert? then Some(Plain(s.content)) else s.value;
            && Sees(Step(t, Routed(s), edges).0, k) == (if k == s.key then left else Sees(t, k))
            && Lookup(StepShared(r, s).0, k) == (if k == s.key then left else Lookup(r, k))
  {
  }
}
