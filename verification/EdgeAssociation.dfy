/**
 Association("X").Delete, Replace and Count on graph edge tables (callback_edge.go:12-256),
 and the edge insertion behind Append (driver.go:31-55). An edge table is a bag of edges, kept in
 insertion order. The server may reject any statement; the callback then stops where it is.
 */
module EdgeAssociation {
  import opened Wrappers
  import EdgeRegistry

  type Id = string

  datatype Edge = Edge(source: Id, target: Id)

  type Graph = map<string, seq<Edge>>

  function EdgesOf(g: Graph, table: string): seq<Edge> {
    if table in g then g[table] else []
  }

  datatype Stmt =
    | DeletePair(source: Id, target: Id)   // DELETE table WHERE in = $in AND out = $out
    | DeleteOwner(source: Id)              // DELETE table WHERE in = $in
    | Relate(source: Id, target: Id)

  function Without(es: seq<Edge>, drop: Edge -> bool): seq<Edge> {
    if es == [] then []
    else if drop(es[0]) then Without(es[1..], drop)
    else [es[0]] + Without(es[1..], drop)
  }

  function Apply(es: seq<Edge>, s: Stmt): seq<Edge> {
    match s
    case DeletePair(i, o) => Without(es, (e: Edge) => e.source == i && e.target == o)
    case DeleteOwner(i) => Without(es, (e: Edge) => e.source == i)
    case Relate(i, o) => es + [Edge(i, o)]
  }

  /** What the association points to from one owner, in edge order. */
  function Outs(es: seq<Edge>, owner: Id): seq<Id> {
    if es == [] then []
    else if es[0].source == owner then [es[0].target] + Outs(es[1..], owner)
    else Outs(es[1..], owner)
  }

  // ----------------------------------------------------------------- the callbacks

  /** A many-to-many relation of the statement's schema: its join table and the record id of
      the owner, if the primary key is set and is one. */
  datatype Relation = Relation(joinTable: Option<string>, owner: Option<Id>)

  /** The destination of the call: a slice, a single value, or nothing usable; an element
      without a record id is skipped. */
  datatype Dest = Slice(ids: seq<Option<Id>>) | Single(id: Option<Id>) | Unusable

  function Present(ids: seq<Option<Id>>): seq<Id> {
    if ids == [] then []
    else if ids[0].Some? then [ids[0].value] + Present(ids[1..])
    else Present(ids[1..])
  }

  function DeleteIds(d: Dest): seq<Id> {
    match d
    case Slice(ids) => Present(ids)
    case Single(id) => Present([id])
    case Unusable => []
  }

  /** Replace reads slices only. */
  function ReplaceIds(d: Dest): seq<Id> {
    match d
    case Slice(ids) => Present(ids)
    case Single(_) => []
    case Unusable => []
  }

  function EdgeTable(r: Relation, m: map<string, string>): Option<string> {
    if r.joinTable.None? then None else EdgeRegistry.Find(m, r.joinTable.value)
  }

  /** The relation a call works on: the first one of the schema whose join table is an edge
      table and whose owner has an id, whichever relation the caller named. */
  function Chosen(rels: seq<Relation>, m: map<string, string>): Option<(string, Id)> {
    if rels == [] then None
    else if EdgeTable(rels[0], m).Some? && rels[0].owner.Some? then Some((EdgeTable(rels[0], m).value, rels[0].owner.value))
    else Chosen(rels[1..], m)
  }

  function ApplyAll(es: seq<Edge>, ss: seq<Stmt>): seq<Edge> {
    if ss == [] then es else Apply(ApplyAll(es, ss[..|ss| - 1]), ss[|ss| - 1])
  }

  function DeleteStmts(owner: Id, outs: seq<Id>): seq<Stmt> {
    seq(|outs|, i requires 0 <= i < |outs| => DeletePair(owner, outs[i]))
  }

  function RelateStmts(owner: Id, outs: seq<Id>): seq<Stmt> {
    seq(|outs|, i requires 0 <= i < |outs| => Relate(owner, outs[i]))
  }

  class Database {
    var graph: Graph
    var patience: nat   // how many more statements the server accepts

    constructor (g: Graph, n: nat)
      ensures graph == g && patience == n
    {
      graph, patience := g, n;
    }

    method Exec(table: string, s: Stmt) returns (ok: bool)
      modifies this
      ensures ok <==> old(patience) > 0
      ensures ok ==> patience == old(patience) - 1 && graph == old(graph)[table := Apply(EdgesOf(old(graph), table), s)]
      ensures !ok ==> patience == old(patience) && graph == old(graph)
    {
      ok := patience > 0;
      if ok {
        patience := patience - 1;
        graph := graph[table := Apply(EdgesOf(graph, table), s)];
      }
    }

    /** Runs statements until one is rejected; `n` of them were carried out. */
    method ExecEach(table: string, ss: seq<Stmt>) returns (ok: bool, ghost n: nat)
      modifies this
      ensures n <= |ss| && (ok <==> n == |ss|) && n <= old(patience) && patience == old(patience) - n
      ensures !ok ==> patience == 0
      ensures n == 0 ==> graph == old(graph)
      ensures n > 0 ==> graph == old(graph)[table := ApplyAll(EdgesOf(old(graph), table), ss[..n])]
    {
      n := 0;
      for i := 0 to |ss|
        invariant n == i <= old(patience) && patience == old(patience) - n
        invariant n == 0 ==> graph == old(graph)
        invariant n > 0 ==> graph == old(graph)[table := ApplyAll(EdgesOf(old(graph), table), ss[..n])]
      {
        ok := Exec(table, ss[i]);
        if !ok {
          return;
        }
        n := n + 1;
        assert ss[..n][..n - 1] == ss[..n - 1];
      }
      ok := true;
    }

    /** Association("X").Delete. */
    method Delete(rels: seq<Relation>, dest: Dest, d: EdgeRegistry.Dialector) returns (ok: bool, ghost n: nat)
      modifies this
      ensures Chosen(rels, d.edgeTables).None? ==> ok && graph == old(graph)
      ensures Chosen(rels, d.edgeTables).Some? ==>
                var (table, owner) := Chosen(rels, d.edgeTables).value;
                var ss := DeleteStmts(owner, DeleteIds(dest));
                && n <= |ss| && (ok <==> n == |ss|)
                && (n == 0 ==> graph == old(graph))
                && (n > 0 ==> graph == old(graph)[table := ApplyAll(EdgesOf(old(graph), table), ss[..n])])
    {
      n := 0;
      var k := 0;
      while k < |rels|
        invariant 0 <= k <= |rels| && graph == old(graph) && patience == old(patience)
        invariant Chosen(rels, d.edgeTables) == Chosen(rels[k..], d.edgeTables)
      {
        var rel := rels[k];
        assert rels[k..][1..] == rels[k + 1..];
        k := k + 1;
        if rel.joinTable.None? {
          continue;
        }
        var table, found := d.FindEdgeTable(rel.joinTable.value);
        if !found || rel.owner.None? {
          continue;
        }
        ok, n := ExecEach(table, DeleteStmts(rel.owner.value, DeleteIds(dest)));
        return;
      }
      ok := true;
    }

    /** Association("X").Replace: one deletion of all the owner's edges, then the insertions. */
    method Replace(rels: seq<Relation>, dest: Dest, d: EdgeRegistry.Dialector) returns (ok: bool, ghost n: nat)
      modifies this
      ensures Chosen(rels, d.edgeTables).None? ==> ok && graph == old(graph)
      ensures Chosen(rels, d.edgeTables).Some? ==>
                var (table, owner) := Chosen(rels, d.edgeTables).value;
                var ss := [DeleteOwner(owner)] + RelateStmts(owner, ReplaceIds(dest));
                && n <= |ss| && (ok <==> n == |ss|)
                && (n == 0 ==> graph == old(graph))
                && (n > 0 ==> graph == old(graph)[table := ApplyAll(EdgesOf(old(graph), table), ss[..n])])
    {
      n := 0;
      var k := 0;
      while k < |rels|
        invariant 0 <= k <= |rels| && graph == old(graph) && patience == old(patience)
        invariant Chosen(rels, d.edgeTables) == Chosen(rels[k..], d.edgeTables)
      {
        var rel := rels[k];
        assert rels[k..][1..] == rels[k + 1..];
        k := k + 1;
        if rel.joinTable.None? {
          continue;
        }
        var table, found := d.FindEdgeTable(rel.joinTable.value);
        if !found || rel.owner.None? {
          continue;
        }
        ok, n := ExecEach(table, [DeleteOwner(rel.owner.value)] + RelateStmts(rel.owner.value, ReplaceIds(dest)));
        return;
      }
      ok := true;
    }
  }

  /** Count stops at the first edge relation, even when its owner has no id. */
  function ChosenForCount(rels: seq<Relation>, m: map<string, string>): Option<(string, Id)> {
    if rels == [] then None
    else if EdgeTable(rels[0], m).Some? then
      if rels[0].owner.Some? then Some((EdgeTable(rels[0], m).value, rels[0].owner.value)) else None
    else ChosenForCount(rels[1..], m)
  }

  /** Association("X").Count: the rows counted, or what the statement had before when there is
      no relation to count on or the server returns no row for an empty group. */
  method Count(g: Graph, rels: seq<Relation>, d: EdgeRegistry.Dialector, before: nat, rowWhenEmpty: bool) returns (rows: nat)
    ensures rows == match ChosenForCount(rels, d.edgeTables)
                    case Some((table, owner)) =>
                      var outs := Outs(EdgesOf(g, table), owner);
                      if outs == [] && !rowWhenEmpty then before else |outs|
                    case None => before
  {
    rows := before;
    var k := 0;
    while k < |rels|
      invariant 0 <= k <= |rels| && rows == before
      invariant ChosenForCount(rels, d.edgeTables) == ChosenForCount(rels[k..], d.edgeTables)
    {
      var rel := rels[k];
      assert rels[k..][1..] == rels[k + 1..];
      k := k + 1;
      if rel.joinTable.None? {
        continue;
      }
      var table, found := d.FindEdgeTable(rel.joinTable.value);
      if !found {
        continue;
      }
      if rel.owner.Some? {
        var n := CountOwned(EdgesOf(g, table), rel.owner.value);
        if n > 0 || rowWhenEmpty {
          rows := n;
        }
      }
      return;
    }
  }

  /** `SELECT count() FROM table WHERE in = $in GROUP ALL`. */
  method CountOwned(es: seq<Edge>, owner: Id) returns (n: nat)
    ensures n == |Outs(es, owner)|
  {
    n := 0;
    for i := 0 to |es|
      invariant n + |Outs(es[i..], owner)| == |Outs(es, owner)|
    {
      assert es[i..][1..] == es[i + 1..];
      if es[i].source == owner {
        n := n + 1;
      }
    }
  }

  // ---------------------------------------------------------------- main results

  function Remove(ids: seq<Id>, o: Id): seq<Id> {
    if ids == [] then []
    else if ids[0] == o then Remove(ids[1..], o)
    else [ids[0]] + Remove(ids[1..], o)
  }

  function RemoveAll(ids: seq<Id>, gone: seq<Id>): seq<Id> {
    if ids == [] then []
    else if ids[0] in gone then RemoveAll(ids[1..], gone)
    else [ids[0]] + RemoveAll(ids[1..], gone)
  }

  lemma {:induction false} OutsAppend(a: seq<Edge>, b: seq<Edge>, j: Id)
    ensures Outs(a + b, j) == Outs(a, j) + Outs(b, j)
  {
    if a == [] {
      assert a + b == b;
    } else {
      assert (a + b)[1..] == a[1..] + b;
      OutsAppend(a[1..], b, j);
    }
  }

  lemma RemoveCons(x: Id, rest: seq<Id>, o: Id)
    ensures Remove([x] + rest, o) == if x == o then Remove(rest, o) else [x] + Remove(rest, o)
  {
    assert ([x] + rest)[1..] == rest;
  }

  lemma {:induction false} OutsWithoutPair(es: seq<Edge>, i: Id, o: Id, j: Id)
    ensures Outs(Without(es, (e: Edge) => e.source == i && e.target == o), j) ==
            if j == i then Remove(Outs(es, j), o) else Outs(es, j)
  {
    if es != [] {
      var drop := (e: Edge) => e.source == i && e.target == o;
      OutsWithoutPair(es[1..], i, o, j);
      OutsCons(es[0], Without(es[1..], drop), j);
      RemoveCons(es[0].target, Outs(es[1..], j), o);
    }
  }

  lemma OutsCons(e: Edge, rest: seq<Edge>, j: Id)
    ensures Outs([e] + rest, j) == if e.source == j then [e.target] + Outs(rest, j) else Outs(rest, j)
  {
    assert ([e] + rest)[1..] == rest;
  }

  lemma {:induction false} OutsWithoutOwner(es: seq<Edge>, i: Id, j: Id)
    ensures Outs(Without(es, (e: Edge) => e.source == i), j) == if j == i then [] else Outs(es, j)
  {
    if es != [] {
      var drop := (e: Edge) => e.source == i;
      OutsWithoutOwner(es[1..], i, j);
      OutsCons(es[0], Without(es[1..], drop), j);
    }
  }

  /** What one statement does to the association of one owner. */
  function StepOuts(ids: seq<Id>, s: Stmt, j: Id): seq<Id> {
    match s
    case DeletePair(i, o) => if i == j then Remove(ids, o) else ids
    case DeleteOwner(i) => if i == j then [] else ids
    case Relate(i, o) => if i == j then ids + [o] else ids
  }

  lemma ApplyOuts(es: seq<Edge>, s: Stmt, j: Id)
    ensures Outs(Apply(es, s), j) == StepOuts(Outs(es, j), s, j)
  {
    match s
    case DeletePair(i, o) => OutsWithoutPair(es, i, o, j);
    case DeleteOwner(i) => OutsWithoutOwner(es, i, j);
    case Relate(i, o) =>
      OutsAppend(es, [Edge(i, o)], j);
      assert [Edge(i, o)][1..] == [];
  }

  lemma {:induction false} RemoveStep(ids: seq<Id>, gone: seq<Id>, o: Id)
    ensures Remove(RemoveAll(ids, gone), o) == RemoveAll(ids, gone + [o])
  {
    if ids != [] {
      RemoveStep(ids[1..], gone, o);
      RemoveCons(ids[0], RemoveAll(ids[1..], gone), o);
    }
  }

  lemma {:induction false} RemoveNone(ids: seq<Id>)
    ensures RemoveAll(ids, []) == ids
  {
    if ids != [] {
      RemoveNone(ids[1..]);
    }
  }

  /** After `n` of its statements, a deletion has removed all copies of the first `n` targets
      from the owner and nothing from anybody else. */
  lemma {:induction false} DeleteExact(es: seq<Edge>, owner: Id, outs: seq<Id>, n: nat, j: Id)
    requires n <= |outs|
    ensures Outs(ApplyAll(es, DeleteStmts(owner, outs)[..n]), j) ==
            if j == owner then RemoveAll(Outs(es, j), outs[..n]) else Outs(es, j)
  {
    var ss := DeleteStmts(owner, outs)[..n];
    if n == 0 {
      RemoveNone(Outs(es, j));
    } else {
      assert ss[..n - 1] == DeleteStmts(owner, outs)[..n - 1];
      DeleteExact(es, owner, outs, n - 1, j);
      ApplyOuts(ApplyAll(es, ss[..n - 1]), ss[n - 1], j);
      RemoveStep(Outs(es, j), outs[..n - 1], outs[n - 1]);
      assert outs[..n - 1] + [outs[n - 1]] == outs[..n];
    }
  }

  /** After the deletion and `n` insertions, the owner has exactly the first `n` new targets:
      a replacement that is cut short has lost the old ones already. */
  lemma {:induction false} ReplaceExact(es: seq<Edge>, owner: Id, outs: seq<Id>, n: nat, j: Id)
    requires n <= |outs|
    ensures Outs(ApplyAll(es, ([DeleteOwner(owner)] + RelateStmts(owner, outs))[..n + 1]), j) ==
            if j == owner then outs[..n] else Outs(es, j)
  {
    var all := [DeleteOwner(owner)] + RelateStmts(owner, outs);
    var ss := all[..n + 1];
    assert ss[..n] == all[..n];
    if n == 0 {
      assert ss[..0] == [] && ApplyAll(es, []) == es;
    } else {
      ReplaceExact(es, owner, outs, n - 1, j);
      assert all[n] == Relate(owner, outs[n - 1]);
      assert outs[..n - 1] + [outs[n - 1]] == outs[..n];
    }
    ApplyOuts(ApplyAll(es, ss[..n]), ss[n], j);
  }

  /** What the caller passed, read as Delete reads it. */
  function Given(d: Dest): seq<Id> {
    DeleteIds(d)
  }

  /** A completed replacement leaves the owner with what the caller passed, exactly when that
      was not one single value: a single value is not read, and the owner ends with nothing. */
  lemma ReplaceLeavesGiven(es: seq<Edge>, owner: Id, dest: Dest)
    ensures var after := ApplyAll(es, [DeleteOwner(owner)] + RelateStmts(owner, ReplaceIds(dest)));
            && (Outs(after, owner) == Given(dest) <==> !(dest.Single? && dest.id.Some?))
            && (dest.Single? ==> Outs(after, owner) == [])
  {
    var outs := ReplaceIds(dest);
    var all := [DeleteOwner(owner)] + RelateStmts(owner, outs);
    assert all[..|outs| + 1] == all && outs[..|outs|] == outs;
    ReplaceExact(es, owner, outs, |outs|, owner);
    if dest.Single? {
      assert [dest.id][1..] == [];
    }
  }

  /** How many of the first `i` elements have an id. */
  function WithId(ids: seq<Option<Id>>, i: nat): nat
    requires i <= |ids|
  {
    if i == 0 then 0 else WithId(ids, i - 1) + if ids[i - 1].Some? then 1 else 0
  }

  /** `xs` are the ids of a slice, each at the place it has among them. */
  ghost predicate IdsOf(xs: seq<Id>, ids: seq<Option<Id>>) {
    && |xs| == WithId(ids, |ids|)
    && forall i | 0 <= i < |ids| && ids[i].Some? :: WithId(ids, i) < |xs| && xs[WithId(ids, i)] == ids[i].value
  }

  lemma {:induction false} PresentAppend(a: seq<Option<Id>>, b: seq<Option<Id>>)
    ensures Present(a + b) == Present(a) + Present(b)
  {
    if a == [] {
      assert a + b == b;
    } else {
      assert (a + b)[1..] == a[1..] + b;
      PresentAppend(a[1..], b);
    }
  }

  lemma PresentOne(x: Option<Id>)
    ensures Present([x]) == if x.Some? then [x.value] else []
  {
    assert [x][1..] == [];
  }

  lemma {:induction false} PresentUpTo(ids: seq<Option<Id>>, i: nat)
    requires i <= |ids|
    ensures |Present(ids[..i])| == WithId(ids, i)
  {
    if i > 0 {
      PresentUpTo(ids, i - 1);
      assert ids[..i] == ids[..i - 1] + [ids[i - 1]];
      PresentAppend(ids[..i - 1], [ids[i - 1]]);
      PresentOne(ids[i - 1]);
    }
  }

  lemma PresentAt(ids: seq<Option<Id>>, i: nat)
    requires i < |ids| && ids[i].Some?
    ensures WithId(ids, i) < |Present(ids)| && Present(ids)[WithId(ids, i)] == ids[i].value
  {
    PresentUpTo(ids, i);
    assert ids == ids[..i] + ([ids[i]] + ids[i + 1..]);
    PresentAppend(ids[..i], [ids[i]] + ids[i + 1..]);
    PresentAppend([ids[i]], ids[i + 1..]);
    PresentOne(ids[i]);
  }

  lemma PresentExact(ids: seq<Option<Id>>)
    ensures IdsOf(Present(ids), ids)
  {
    PresentUpTo(ids, |ids|);
    assert ids[..|ids|] == ids;
    forall i | 0 <= i < |ids| && ids[i].Some? ensures WithId(ids, i) < |Present(ids)| && Present(ids)[WithId(ids, i)] == ids[i].value {
      PresentAt(ids, i);
    }
  }

  /**
   What Delete and Replace read of the destination: the ids of a slice, in order, elements without
   one skipped; Delete reads one single value too, and Replace does not.
   */
  lemma DestinationExact(d: Dest)
    ensures d.Slice? ==> IdsOf(DeleteIds(d), d.ids) && ReplaceIds(d) == DeleteIds(d)
    ensures d.Single? ==> DeleteIds(d) == (if d.id.Some? then [d.id.value] else []) && ReplaceIds(d) == []
    ensures d.Unusable? ==> DeleteIds(d) == [] && ReplaceIds(d) == []
  {
    match d
    case Slice(ids) => PresentExact(ids);
    case Single(id) => PresentOne(id);
    case Unusable =>
  }

  /** So a completed Replace with a slice leaves the owner with exactly the ids of the slice, in
      order, and every other owner with what it had. */
  lemma ReplacedBySlice(es: seq<Edge>, owner: Id, ids: seq<Option<Id>>, j: Id)
    ensures var after := ApplyAll(es, [DeleteOwner(owner)] + RelateStmts(owner, ReplaceIds(Slice(ids))));
            if j == owner then IdsOf(Outs(after, j), ids) else Outs(after, j) == Outs(es, j)
  {
    var xs := ReplaceIds(Slice(ids));
    DestinationExact(Slice(ids));
    var all := [DeleteOwner(owner)] + RelateStmts(owner, xs);
    assert all[..|xs| + 1] == all && xs[..|xs|] == xs;
    ReplaceExact(es, owner, xs, |xs|, j);
  }

  datatype Op = Append(owner: Id, target: Id) | DeleteOp(owner: Id, outs: seq<Id>) | ReplaceOp(owner: Id, outs: seq<Id>)

  function Stmts(op: Op): seq<Stmt> {
    match op
    case Append(i, o) => [Relate(i, o)]
    case DeleteOp(i, outs) => DeleteStmts(i, outs)
    case ReplaceOp(i, outs) => [DeleteOwner(i)] + RelateStmts(i, outs)
  }

  function RunOps(es: seq<Edge>, ops: seq<Op>): seq<Edge> {
    if ops == [] then es else ApplyAll(RunOps(es, ops[..|ops| - 1]), Stmts(ops[|ops| - 1]))
  }

  /** The association of one owner as a plain list: what each operation is documented to do to it. */
  function AssociationAfter(ids: seq<Id>, op: Op, j: Id): seq<Id> {
    if op.owner != j then ids
    else match op
      case Append(_, o) => ids + [o]
      case DeleteOp(_, outs) => RemoveAll(ids, outs)
      case ReplaceOp(_, outs) => outs
  }

  function RunAssociation(ids: seq<Id>, ops: seq<Op>, j: Id): seq<Id> {
    if ops == [] then ids else AssociationAfter(RunAssociation(ids, ops[..|ops| - 1], j), ops[|ops| - 1], j)
  }

  /**
   Over every run of operations of any owners on one edge table, the edges of each owner are
   the plain list the operations describe; so Count yields its length, and an owner nobody
   named keeps its edges.
   */
  lemma {:induction false} RunRefinesLists(es: seq<Edge>, ops: seq<Op>, j: Id)
    ensures Outs(RunOps(es, ops), j) == RunAssociation(Outs(es, j), ops, j)
  {
    if ops != [] {
      var p, op := ops[..|ops| - 1], ops[|ops| - 1];
      var mid := RunOps(es, p);
      RunRefinesLists(es, p, j);
      match op
      case Append(i, o) =>
        assert Stmts(op)[..0] == [] && ApplyAll(mid, []) == mid;
        ApplyOuts(mid, Relate(i, o), j);
      case DeleteOp(i, outs) =>
        assert Stmts(op)[..|outs|] == Stmts(op) && outs[..|outs|] == outs;
        DeleteExact(mid, i, outs, |outs|, j);
      case ReplaceOp(i, outs) =>
        assert Stmts(op)[..|outs| + 1] == Stmts(op) && outs[..|outs|] == outs;
        ReplaceExact(mid, i, outs, |outs|, j);
    }
  }

  /** A call reaches the relation the caller named exactly when no relation before it qualifies. */
  lemma {:induction false} NamedRelationReached(rels: seq<Relation>, k: nat, m: map<string, string>)
    requires k < |rels| && EdgeTable(rels[k], m).Some? && rels[k].owner.Some?
    requires forall i | 0 <= i < |rels| && i != k && EdgeTable(rels[i], m).Some? :: EdgeTable(rels[i], m) != EdgeTable(rels[k], m)
    ensures Chosen(rels, m) == Some((EdgeTable(rels[k], m).value, rels[k].owner.value)) <==>
            forall i | 0 <= i < k :: EdgeTable(rels[i], m).None? || rels[i].owner.None?
  {
    if k > 0 {
      if EdgeTable(rels[0], m).Some? && rels[0].owner.Some? {
        assert Chosen(rels, m).value.0 != EdgeTable(rels[k], m).value;
      } else {
        assert rels[1..][k - 1] == rels[k];
        NamedRelationReached(rels[1..], k - 1, m);
        assert forall i | 0 <= i < k - 1 :: rels[1..][i] == rels[i + 1];
        assert forall i | 1 <= i < k :: rels[i] == rels[1..][i - 1];
      }
    }
  }

  /** Count reaches the relation the caller named exactly when no relation before it has an edge
      table: one whose owner has no id stops it, where Delete and Replace go on. */
  lemma {:induction false} CountedRelationReached(rels: seq<Relation>, k: nat, m: map<string, string>)
    requires k < |rels| && EdgeTable(rels[k], m).Some? && rels[k].owner.Some?
    requires forall i | 0 <= i < |rels| && i != k && EdgeTable(rels[i], m).Some? :: EdgeTable(rels[i], m) != EdgeTable(rels[k], m)
    ensures ChosenForCount(rels, m) == Some((EdgeTable(rels[k], m).value, rels[k].owner.value)) <==>
            forall i | 0 <= i < k :: EdgeTable(rels[i], m).None?
  {
    if k > 0 {
      if EdgeTable(rels[0], m).None? {
        assert rels[1..][k - 1] == rels[k];
        CountedRelationReached(rels[1..], k - 1, m);
        assert forall i | 0 <= i < k - 1 :: rels[1..][i] == rels[i + 1];
        assert forall i | 1 <= i < k :: rels[i] == rels[1..][i - 1];
      }
    }
  }

  /** The table worked on is one that was registered: the last registration of the join table's
      name or its plural, or else of what its plural stands for. */
  lemma {:induction false} ChosenIsRegistered(rels: seq<Relation>, ts: seq<string>)
    ensures var c := Chosen(rels, EdgeRegistry.Run(ts));
            c.Some? ==> c.value.0 in ts && exists i :: 0 <= i < |rels| && RegisteredFor(rels[i], ts, c.value)
    ensures var c := ChosenForCount(rels, EdgeRegistry.Run(ts));
            c.Some? ==> c.value.0 in ts && exists i :: 0 <= i < |rels| && RegisteredFor(rels[i], ts, c.value)
  {
    if rels != [] {
      ChosenIsRegistered(rels[1..], ts);
      assert forall i | 0 <= i < |rels| - 1 :: rels[1..][i] == rels[i + 1];
      if rels[0].joinTable.Some? {
        EdgeRegistry.FindExact(ts, rels[0].joinTable.value);
        EdgeRegistry.FindSound(ts, rels[0].joinTable.value);
      }
    }
  }

  /** The relation's own owner, and the table its join table stands for. */
  ghost predicate RegisteredFor(r: Relation, ts: seq<string>, c: (string, Id)) {
    && r.owner == Some(c.1) && r.joinTable.Some?
    && var k := r.joinTable.value;
       Some(c.0) == if EdgeRegistry.LastMatch(ts, k).Some? then EdgeRegistry.LastMatch(ts, k) else EdgeRegistry.LastMatch(ts, k + "s")
  }
}
