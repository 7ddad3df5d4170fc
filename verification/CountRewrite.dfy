/**
 The rewriting of association counts (executor.go:77-158): a count over a JOIN with an edge
 table becomes a count over the edge table or over a graph traversal.
 */
module CountRewrite {
  import opened Wrappers
  import opened Store
  import EdgeRegistry

  /** The endpoint column of an edge. */
  datatype Endpoint = In | Out {
    function Other(): Endpoint {
      if this == In then Out else In
    }
  }

  datatype Edge = Edge(source: RecordId, target: RecordId, fields: map<string, int>) {
    function At(f: Endpoint): RecordId {
      if f == In then source else target
    }
  }

  /** One comparison of the ON or WHERE clause, in text order. */
  datatype Cond =
    | EndpointIs(table: string, field: Endpoint, place: nat)   // `table`.`field` = $pN
    | Joins(field: Endpoint)                                  // `edge`.`field` = `record table`.`id`
    | OnRow(holds: Row -> bool)                                // about the joined record
    | OnEdge(test: Edge -> bool)                               // about the edge

  /** `SELECT count(*) FROM from JOIN join ON on WHERE where`. */
  datatype CountQuery = CountQuery(from: string, join: string, on: seq<Cond>, where: seq<Cond>)

  /** `->` leads along the edges, `<-` against them. */
  datatype Arrow = Forward | Backward

  datatype Rewritten =
    | Unchanged
    | EdgeCount(edge: string, field: Endpoint, place: nat)      // FROM `edge` WHERE `field` = $pN
    | Traversal(place: nat, arrow: Arrow, edge: string, target: string, where: seq<Cond>)   // FROM $pN->edge->target WHERE where

  // ---------------------------------------------------------------- the rewriting

  /** The first comparison of endpoint `f` with a parameter, of one table or of any. */
  function FirstPlace(cs: seq<Cond>, f: Endpoint, table: Option<string>): Option<nat> {
    if cs == [] then None
    else if cs[0].EndpointIs? && cs[0].field == f && (table.None? || cs[0].table == table.value) then Some(cs[0].place)
    else FirstPlace(cs[1..], f, table)
  }

  /** `in` is preferred over `out`, wherever the two stand. */
  function FirstOwner(cs: seq<Cond>, table: Option<string>): Option<(Endpoint, nat)> {
    match FirstPlace(cs, In, table)
    case Some(p) => Some((In, p))
    case None =>
      match FirstPlace(cs, Out, table)
      case Some(p) => Some((Out, p))
      case None => None
  }

  /** From an owner at this end of the edges to their other end. */
  function Towards(owner: Endpoint): Arrow {
    if owner == In then Forward else Backward
  }

  function RewriteTraversal(q: CountQuery, m: map<string, string>): Rewritten {
    match EdgeRegistry.Find(m, q.join)
    case None => Unchanged
    case Some(canonical) =>
      match FirstOwner(q.on + q.where, Some(canonical))
      case None => Unchanged
      case Some((f, p)) => if q.from == "" then Unchanged else Traversal(p, Towards(f), canonical, q.from, q.where)
  }

  /** The statement the executor sends instead. */
  function Rewrite(q: CountQuery, m: map<string, string>): Rewritten {
    match EdgeRegistry.Find(m, q.from)
    case None => RewriteTraversal(q, m)
    case Some(canonical) =>
      match FirstOwner(q.on + q.where, None)
      case None => RewriteTraversal(q, m)
      case Some((f, p)) => EdgeCount(canonical, f, p)
  }

  /** The search for the owner column, as the code runs it: a loop over the two columns around a search of the text. */
  method FindOwner(cs: seq<Cond>, table: Option<string>) returns (owner: Option<(Endpoint, nat)>)
    ensures owner == FirstOwner(cs, table)
  {
    var fields := [In, Out];
    owner := None;
    for i := 0 to 2
      invariant owner == None
      invariant forall j | 0 <= j < i :: FirstPlace(cs, fields[j], table) == None
    {
      var k := 0;
      while k < |cs|
        invariant 0 <= k <= |cs| && FirstPlace(cs, fields[i], table) == FirstPlace(cs[k..], fields[i], table)
      {
        if cs[k].EndpointIs? && cs[k].field == fields[i] && (table.None? || cs[k].table == table.value) {
          assert i == 1 ==> FirstPlace(cs, fields[0], table) == None;
          return Some((fields[i], cs[k].place));
        }
        assert cs[k..][1..] == cs[k + 1..];
        k := k + 1;
      }
    }
    assert FirstPlace(cs, fields[0], table) == None && FirstPlace(cs, fields[1], table) == None;
  }

  method RewriteCount(q: CountQuery, d: EdgeRegistry.Dialector) returns (r: Rewritten)
    ensures r == Rewrite(q, d.edgeTables)
  {
    r := Unchanged;
    // Case 1: the FROM table is an edge table.
    var canonical, ok := d.FindEdgeTable(q.from);
    if ok {
      var owner := FindOwner(q.on + q.where, None);
      if owner.Some? {
        return EdgeCount(canonical, owner.value.0, owner.value.1);
      }
    }
    // Case 2: the joined table is one.
    canonical, ok := d.FindEdgeTable(q.join);
    if ok {
      var owner := FindOwner(q.on + q.where, Some(canonical));
      if owner.Some? && q.from != "" {
        var arrow := if owner.value.0 == In then Forward else Backward;
        r := Traversal(owner.value.1, arrow, canonical, q.from, q.where);
      }
    }
  }

  // ------------------------------------------------------------------- meanings

  datatype Graph = Graph(db: Database, edges: map<string, seq<Edge>>)

  function Edges(g: Graph, edge: string): seq<Edge> {
    if edge in g.edges then g.edges[edge] else []
  }

  /** A comparison on a pair of a record and an edge of table `edge`. */
  predicate Holds(c: Cond, edge: string, r: Row, e: Edge, params: map<nat, RecordId>) {
    match c
    case EndpointIs(table, f, p) => table == edge && p in params && e.At(f) == params[p]
    case Joins(f) => e.At(f) == r.id
    case OnRow(h) => h(r)
    case OnEdge(t) => t(e)
  }

  predicate AllHold(cs: seq<Cond>, edge: string, r: Row, e: Edge, params: map<nat, RecordId>) {
    forall i | 0 <= i < |cs| :: Holds(cs[i], edge, r, e, params)
  }

  /** The number of pairs of a record and an edge that pass. */
  function CountPairs(rows: seq<Row>, edges: seq<Edge>, p: (Row, Edge) -> bool): nat {
    if rows == [] then 0 else CountEdges(edges, (e: Edge) => p(rows[0], e)) + CountPairs(rows[1..], edges, p)
  }

  function CountEdges(edges: seq<Edge>, p: Edge -> bool): nat {
    if edges == [] then 0 else (if p(edges[0]) then 1 else 0) + CountEdges(edges[1..], p)
  }

  /** The join rows of the count query: `records` and `edge` are its two tables, in either role. */
  function JoinCount(records: string, edge: string, cs: seq<Cond>, g: Graph, params: map<nat, RecordId>): nat {
    CountPairs(Rows(g.db, records), Edges(g, edge), (r: Row, e: Edge) => AllHold(cs, edge, r, e, params))
  }

  /** The ids `$p->edge->target` or `$p<-edge<-target` reaches, in edge order. */
  function Reached(edges: seq<Edge>, arrow: Arrow, id: RecordId, target: string): seq<RecordId> {
    if edges == [] then []
    else
      var (start, end) := if arrow == Forward then (edges[0].source, edges[0].target) else (edges[0].target, edges[0].source);
      (if start == id && end.table == target then [end] else []) + Reached(edges[1..], arrow, id, target)
  }

  predicate RowHolds(cs: seq<Cond>, r: Row) {
    forall i | 0 <= i < |cs| && cs[i].OnRow? :: cs[i].holds(r)
  }

  /** `SELECT count() FROM traversal WHERE where`: the conditions are asked of the reached record. */
  function TraversalCount(t: Rewritten, g: Graph, id: RecordId): nat
    requires t.Traversal?
  {
    |Filter(FetchAll(g.db, Reached(Edges(g, t.edge), t.arrow, id, t.target)), (r: Row) => RowHolds(t.where, r))|
  }

  /** The number of records one edge of the owner contributes. */
  function Contribution(rows: seq<Row>, e: Edge, p: (Row, Edge) -> bool): nat {
    |Filter(rows, (r: Row) => p(r, e))|
  }

  /** Counting pairs record by record is counting them edge by edge. */
  lemma {:induction false} PairsByEdge(rows: seq<Row>, edges: seq<Edge>, p: (Row, Edge) -> bool)
    ensures edges == [] ==> CountPairs(rows, edges, p) == 0
    ensures edges != [] ==> CountPairs(rows, edges, p) == Contribution(rows, edges[0], p) + CountPairs(rows, edges[1..], p)
  {
    if rows != [] {
      PairsByEdge(rows[1..], edges, p);
    }
  }

  // ----------------------------------------------------------- comparing counts

  lemma {:induction false} EdgesCompare(edges: seq<Edge>, p: Edge -> bool, q: Edge -> bool)
    requires forall e | e in edges :: p(e) ==> q(e)
    ensures CountEdges(edges, p) <= CountEdges(edges, q)
    ensures CountEdges(edges, p) == CountEdges(edges, q) <==> forall e | e in edges :: q(e) ==> p(e)
  {
    if edges != [] {
      assert forall e :: e in edges <==> e == edges[0] || e in edges[1..];
      EdgesCompare(edges[1..], p, q);
    }
  }

  /** A stronger condition counts fewer pairs, and as many exactly when it accepts the same pairs. */
  lemma {:induction false} PairsCompare(rows: seq<Row>, edges: seq<Edge>, p: (Row, Edge) -> bool, q: (Row, Edge) -> bool)
    requires forall r, e | r in rows && e in edges :: p(r, e) ==> q(r, e)
    ensures CountPairs(rows, edges, p) <= CountPairs(rows, edges, q)
    ensures CountPairs(rows, edges, p) == CountPairs(rows, edges, q) <==>
            forall r, e | r in rows && e in edges :: q(r, e) ==> p(r, e)
  {
    if rows != [] {
      var r := rows[0];
      assert r in rows && forall x :: x in rows <==> x == r || x in rows[1..];
      EdgesCompare(edges, (e: Edge) => p(r, e), (e: Edge) => q(r, e));
      PairsCompare(rows[1..], edges, p, q);
    }
  }

  // --------------------------------------------------- case 2: graph traversal

  /** The pairs of an edge of the owner and the record at its other end. */
  predicate OwnPair(r: Row, e: Edge, owner: Endpoint, id: RecordId, where: seq<Cond>) {
    e.At(owner) == id && e.At(owner.Other()) == r.id && RowHolds(where, r)
  }

  lemma OneEdge(db: Database, target: string, e: Edge, owner: Endpoint, id: RecordId, where: seq<Cond>)
    requires WellFormed(db)
    ensures Contribution(Rows(db, target), e, (r: Row, x: Edge) => OwnPair(r, x, owner, id, where)) ==
            if e.At(owner) == id && e.At(owner.Other()).table == target
            then |Filter(Fetch(db, e.At(owner.Other())), (r: Row) => RowHolds(where, r))| else 0
  {
    var rows, o := Rows(db, target), e.At(owner.Other());
    var pair := (r: Row, x: Edge) => OwnPair(r, x, owner, id, where);
    var byId, w := (r: Row) => r.id == o, (r: Row) => RowHolds(where, r);
    if e.At(owner) == id && o.table == target {
      FilterTwice(rows, byId, w);
      FilterSame(rows, (r: Row) => byId(r) && w(r), (r: Row) => pair(r, e));
    } else {
      FilterNone(rows, (r: Row) => pair(r, e));
    }
  }

  /** What a traversal reaches, filtered, is the number of own pairs: for every bag of edges, dangling ones included. */
  lemma {:induction false} TraversalCountsPairs(db: Database, target: string, edges: seq<Edge>, owner: Endpoint, id: RecordId, where: seq<Cond>)
    requires WellFormed(db)
    ensures |Filter(FetchAll(db, Reached(edges, Towards(owner), id, target)), (r: Row) => RowHolds(where, r))| ==
            CountPairs(Rows(db, target), edges, (r: Row, e: Edge) => OwnPair(r, e, owner, id, where))
  {
    var pair, w := (r: Row, e: Edge) => OwnPair(r, e, owner, id, where), (r: Row) => RowHolds(where, r);
    PairsByEdge(Rows(db, target), edges, pair);
    if edges != [] {
      var e := edges[0];
      OneEdge(db, target, e, owner, id, where);
      TraversalCountsPairs(db, target, edges[1..], owner, id, where);
      var rest := Reached(edges[1..], Towards(owner), id, target);
      if e.At(owner) == id && e.At(owner.Other()).table == target {
        assert ([e.At(owner.Other())] + rest)[1..] == rest;
        FilterAppend(Fetch(db, e.At(owner.Other())), FetchAll(db, rest), w);
      } else {
        assert [] + rest == rest;
      }
    }
  }

  /** The count query of an association: the joined table is an edge table under its own
      name, the record table is none, the two tables are joined over the other endpoint, and
      WHERE is about the record. */
  ghost predicate Association(q: CountQuery, m: map<string, string>, f: Endpoint, place: nat) {
    && q.from != "" && EdgeRegistry.Find(m, q.from) == None && EdgeRegistry.Find(m, q.join) == Some(q.join)
    && (forall c | c in q.where :: c.OnRow?)
    && FirstOwner(q.on, Some(q.join)) == Some((f, place))
    && Joins(f.Other()) in q.on
  }

  lemma {:induction false} FirstPlaceAppend(a: seq<Cond>, b: seq<Cond>, f: Endpoint, table: Option<string>)
    requires forall c | c in b :: !c.EndpointIs?
    ensures FirstPlace(a + b, f, table) == FirstPlace(a, f, table)
    ensures FirstPlace(a, f, table).Some? ==>
              exists c | c in a :: c.EndpointIs? && c.field == f && c.place == FirstPlace(a, f, table).value && (table.Some? ==> c.table == table.value)
  {
    if a == [] {
      assert a + b == b;
      if b != [] {
        assert b[0] in b;
        assert [] + b[1..] == b[1..];
        FirstPlaceAppend([], b[1..], f, table);
      }
    } else {
      assert (a + b)[1..] == a[1..] + b;
      FirstPlaceAppend(a[1..], b, f, table);
      if FirstPlace(a, f, table).Some? && !(a[0].EndpointIs? && a[0].field == f && (table.None? || a[0].table == table.value)) {
        var c :| c in a[1..] && c.EndpointIs? && c.field == f && c.place == FirstPlace(a, f, table).value && (table.Some? ==> c.table == table.value);
        assert c in a;
      }
    }
  }

  /** The association count is rewritten to the traversal from the owner, in the owner's direction. */
  lemma AssociationIsTraversal(q: CountQuery, m: map<string, string>, f: Endpoint, place: nat)
    requires Association(q, m, f, place)
    ensures Rewrite(q, m) == Traversal(place, if f == In then Forward else Backward, q.join, q.from, q.where)
    ensures EndpointIs(q.join, f, place) in q.on
  {
    forall g | g in {In, Out} ensures FirstPlace(q.on + q.where, g, Some(q.join)) == FirstPlace(q.on, g, Some(q.join)) {
      FirstPlaceAppend(q.on, q.where, g, Some(q.join));
    }
    FirstPlaceAppend(q.on, q.where, f, Some(q.join));
    var c :| c in q.on && c.EndpointIs? && c.field == f && c.place == place && c.table == q.join;
    assert c == EndpointIs(q.join, f, place);
  }

  lemma AllHoldImpliesOwnPair(q: CountQuery, f: Endpoint, place: nat, r: Row, e: Edge, params: map<nat, RecordId>)
    requires EndpointIs(q.join, f, place) in q.on && Joins(f.Other()) in q.on && place in params
    requires forall c | c in q.where :: c.OnRow?
    ensures AllHold(q.on + q.where, q.join, r, e, params) <==>
            OwnPair(r, e, f, params[place], q.where) && AllHold(q.on, q.join, r, e, params)
  {
    var cs := q.on + q.where;
    if AllHold(cs, q.join, r, e, params) {
      forall i | 0 <= i < |q.on| ensures Holds(q.on[i], q.join, r, e, params) { assert cs[i] == q.on[i]; }
      forall i | 0 <= i < |q.where| ensures Holds(q.where[i], q.join, r, e, params) { assert cs[|q.on| + i] == q.where[i]; }
      var i :| 0 <= i < |q.on| && q.on[i] == EndpointIs(q.join, f, place);
      var j :| 0 <= j < |q.on| && q.on[j] == Joins(f.Other());
    }
    if RowHolds(q.where, r) {
      forall i | 0 <= i < |q.where| ensures Holds(q.where[i], q.join, r, e, params) { assert q.where[i] in q.where; }
    }
  }

  /**
   The traversal count is never below the association count, and equal to it exactly when no
   further ON condition rejects an edge of the owner and its record. With only the two
   standard ON conditions there is nothing left to reject.
   */
  lemma AssociationCountExact(q: CountQuery, m: map<string, string>, f: Endpoint, place: nat, g: Graph, params: map<nat, RecordId>)
    requires Association(q, m, f, place) && WellFormed(g.db) && place in params
    ensures Rewrite(q, m).Traversal?
    ensures var join, traversal := JoinCount(q.from, q.join, q.on + q.where, g, params), TraversalCount(Rewrite(q, m), g, params[place]);
            && join <= traversal
            && (join == traversal <==>
                forall r, e | r in Rows(g.db, q.from) && e in Edges(g, q.join) ::
                  OwnPair(r, e, f, params[place], q.where) ==> AllHold(q.on, q.join, r, e, params))
  {
    AssociationIsTraversal(q, m, f, place);
    var rows, edges, id := Rows(g.db, q.from), Edges(g, q.join), params[place];
    var all := (r: Row, e: Edge) => AllHold(q.on + q.where, q.join, r, e, params);
    var own := (r: Row, e: Edge) => OwnPair(r, e, f, id, q.where);
    TraversalCountsPairs(g.db, q.from, edges, f, id, q.where);
    forall r, e ensures all(r, e) <==> own(r, e) && AllHold(q.on, q.join, r, e, params) {
      AllHoldImpliesOwnPair(q, f, place, r, e, params);
    }
    PairsCompare(rows, edges, all, own);
  }

  /** The statement GORM builds for an association: nothing but the two standard ON conditions. */
  lemma StandardAssociationExact(q: CountQuery, m: map<string, string>, f: Endpoint, place: nat, g: Graph, params: map<nat, RecordId>)
    requires Association(q, m, f, place) && WellFormed(g.db) && place in params
    requires forall c | c in q.on :: c in {Joins(f.Other()), EndpointIs(q.join, f, place)}
    ensures Rewrite(q, m).Traversal?
    ensures TraversalCount(Rewrite(q, m), g, params[place]) == JoinCount(q.from, q.join, q.on + q.where, g, params)
  {
    AssociationCountExact(q, m, f, place, g, params);
    forall r, e | OwnPair(r, e, f, params[place], q.where) ensures AllHold(q.on, q.join, r, e, params) {
      forall i | 0 <= i < |q.on| ensures Holds(q.on[i], q.join, r, e, params) { assert q.on[i] in q.on; }
    }
  }

  /** A further ON condition, such as the soft-delete test of the edge, is lost: one rejected edge is counted. */
  lemma ExtraConditionLost(t: string, w: string, owner: RecordId, other: RecordId)
    requires t != "" && w != "" && other.table == t && w !in {t, EdgeRegistry.Plural(t)}
    ensures var q := CountQuery(t, w, [Joins(Out), EndpointIs(w, In, 1), OnEdge((e: Edge) => "deleted_at" !in e.fields)], []);
            var g := Graph(map[t := [Row(other, map[])]], map[w := [Edge(owner, other, map["deleted_at" := 1])]]);
            && WellFormed(g.db) && Rewrite(q, map[w := w]) == Traversal(1, Forward, w, t, [])
            && JoinCount(t, w, q.on + q.where, g, map[1 := owner]) == 0
            && TraversalCount(Traversal(1, Forward, w, t, []), g, owner) == 1
  {
    var q := CountQuery(t, w, [Joins(Out), EndpointIs(w, In, 1), OnEdge((e: Edge) => "deleted_at" !in e.fields)], []);
    var r, e := Row(other, map[]), Edge(owner, other, map["deleted_at" := 1]);
    var g := Graph(map[t := [r]], map[w := [e]]);
    assert FirstPlace(q.on, In, Some(w)) == FirstPlace(q.on[1..], In, Some(w)) == Some(1);
    assert Association(q, map[w := w], In, 1);
    AssociationIsTraversal(q, map[w := w], In, 1);
    assert q.on + q.where == q.on;
    assert !AllHold(q.on, w, r, e, map[1 := owner]) by { assert !Holds(q.on[2], w, r, e, map[1 := owner]); }
    var all := (x: Row, y: Edge) => AllHold(q.on, w, x, y, map[1 := owner]);
    assert CountEdges([e], (y: Edge) => all(r, y)) == 0;
    assert [r][1..] == [];
    assert CountPairs([r], [e], all) == 0;
    assert [e][1..] == [] && Reached([e], Forward, owner, t) == [other] + [];
    assert Rows(g.db, t) == [r];
    var p := (x: Row) => x.id == other;
    assert Filter([r], p) == [r] + Filter([r][1..], p) == [r];
    assert Fetch(g.db, other) == [r];
    assert FetchAll(g.db, [other]) == [r] + [];
    var h := (x: Row) => RowHolds([], x);
    assert Filter([r], h) == [r] + Filter([r][1..], h) == [r];
    assert WellFormed(g.db);
    assert JoinCount(t, w, q.on + q.where, g, map[1 := owner]) == CountPairs([r], [e], all);
    assert TraversalCount(Traversal(1, Forward, w, t, []), g, owner) == 1;
  }

  /** A joined table named by an alias of an edge table is not recognised: the rewriting looks
      for the owner under the canonical name only. */
  lemma AliasNotRewritten(q: CountQuery, m: map<string, string>, canonical: string)
    requires EdgeRegistry.Find(m, q.from) == None && EdgeRegistry.Find(m, q.join) == Some(canonical)
    requires forall c | c in q.on + q.where :: c.EndpointIs? ==> c.table == q.join
    ensures q.join != canonical ==> Rewrite(q, m) == Unchanged
  {
    if q.join != canonical {
      NoPlace(q.on + q.where, In, canonical);
      NoPlace(q.on + q.where, Out, canonical);
    }
  }

  lemma {:induction false} NoPlace(cs: seq<Cond>, f: Endpoint, table: string)
    requires forall c | c in cs :: c.EndpointIs? ==> c.table != table
    ensures FirstPlace(cs, f, Some(table)) == None
  {
    if cs != [] {
      assert cs[0] in cs;
      NoPlace(cs[1..], f, table);
    }
  }

  // --------------------------------------------------------- case 1: edge count

  /** The pairs of the owner's edges, edge by edge: each adds at most one. */
  lemma {:induction false} OwnEdgesCompare(rows: seq<Row>, edges: seq<Edge>, p: (Row, Edge) -> bool, f: Endpoint, id: RecordId)
    requires forall i, j | 0 <= i < j < |rows| :: rows[i].id != rows[j].id
    requires forall r, e | p(r, e) :: e.At(f) == id && e.At(f.Other()) == r.id
    ensures CountPairs(rows, edges, p) <= CountEdges(edges, (e: Edge) => e.At(f) == id)
    ensures CountPairs(rows, edges, p) == CountEdges(edges, (e: Edge) => e.At(f) == id) <==>
            forall e | e in edges && e.At(f) == id :: exists r :: r in rows && p(r, e)
  {
    PairsByEdge(rows, edges, p);
    if edges != [] {
      var e := edges[0];
      OwnEdgesCompare(rows, edges[1..], p, f, id);
      OwnContribution(rows, e, p, f, id);
      assert forall x :: x in edges <==> x == e || x in edges[1..];
      assert e in edges;
    }
  }

  lemma OwnContribution(rows: seq<Row>, e: Edge, p: (Row, Edge) -> bool, f: Endpoint, id: RecordId)
    requires forall i, j | 0 <= i < j < |rows| :: rows[i].id != rows[j].id
    requires forall r, x | p(r, x) :: x.At(f) == id && x.At(f.Other()) == r.id
    ensures Contribution(rows, e, p) <= (if e.At(f) == id then 1 else 0)
    ensures Contribution(rows, e, p) == 1 <==> exists r :: r in rows && p(r, e)
  {
    var h := (r: Row) => p(r, e);
    AtMostOne(rows, h, e.At(f.Other()));
    if r :| r in rows && p(r, e) {
      FilterMember(rows, h, r);
    } else {
      FilterNone(rows, h);
    }
  }

  /** The comparison under the canonical name of its table. */
  function Renamed(c: Cond, from: string, to: string): Cond {
    if c.EndpointIs? && c.table == from then EndpointIs(to, c.field, c.place) else c
  }

  function RenamedAll(cs: seq<Cond>, from: string, to: string): seq<Cond> {
    seq(|cs|, i requires 0 <= i < |cs| => Renamed(cs[i], from, to))
  }

  /** `SELECT count() FROM edge WHERE field = $pN`. */
  function EdgeCountValue(r: Rewritten, g: Graph, params: map<nat, RecordId>): nat
    requires r.EdgeCount? && r.place in params
  {
    CountEdges(Edges(g, r.edge), (e: Edge) => e.At(r.field) == params[r.place])
  }

  /**
   A count FROM an edge table, under any of its names, counts the edges of the canonical table and
   drops the JOIN and every other condition. It is never below the count of the same statement
   over the canonical table, and equal to it exactly when each edge of the owner joins a record
   that passes all conditions.
   */
  lemma EdgeCountExact(q: CountQuery, m: map<string, string>, canonical: string, f: Endpoint, place: nat, g: Graph, params: map<nat, RecordId>)
    requires EdgeRegistry.Find(m, q.from) == Some(canonical) && FirstOwner(q.on + q.where, None) == Some((f, place))
    requires WellFormed(g.db) && place in params
    requires EndpointIs(q.from, f, place) in q.on + q.where && Joins(f.Other()) in q.on + q.where
    ensures Rewrite(q, m) == EdgeCount(canonical, f, place)
    ensures var cs := RenamedAll(q.on + q.where, q.from, canonical);
            var join, count := JoinCount(q.join, canonical, cs, g, params), EdgeCountValue(Rewrite(q, m), g, params);
            && join <= count
            && (join == count <==>
                forall e | e in Edges(g, canonical) && e.At(f) == params[place] ::
                  exists r :: r in Rows(g.db, q.join) && AllHold(cs, canonical, r, e, params))
  {
    var cs, id := RenamedAll(q.on + q.where, q.from, canonical), params[place];
    var all := (r: Row, e: Edge) => AllHold(cs, canonical, r, e, params);
    var i :| 0 <= i < |q.on + q.where| && (q.on + q.where)[i] == EndpointIs(q.from, f, place);
    var j :| 0 <= j < |q.on + q.where| && (q.on + q.where)[j] == Joins(f.Other());
    assert cs[i] == EndpointIs(canonical, f, place) && cs[j] == Joins(f.Other());
    forall r, e | all(r, e) ensures e.At(f) == id && e.At(f.Other()) == r.id {
      assert Holds(cs[i], canonical, r, e, params) && Holds(cs[j], canonical, r, e, params);
    }
    OwnEdgesCompare(Rows(g.db, q.join), Edges(g, canonical), all, f, id);
  }

  // ------------------------------------------------------ what the searches find

  /** A comparison of this endpoint with a parameter, of this table or of any. */
  predicate Compares(c: Cond, f: Endpoint, table: Option<string>) {
    c.EndpointIs? && c.field == f && (table.Some? ==> c.table == table.value)
  }

  /** The first of them. */
  ghost predicate FirstAt(cs: seq<Cond>, f: Endpoint, table: Option<string>, i: nat) {
    i < |cs| && Compares(cs[i], f, table) && forall j | 0 <= j < i :: !Compares(cs[j], f, table)
  }

  lemma {:induction false} FirstPlaceExact(cs: seq<Cond>, f: Endpoint, table: Option<string>) returns (i: nat)
    ensures if FirstPlace(cs, f, table).Some? then FirstAt(cs, f, table, i) && cs[i].place == FirstPlace(cs, f, table).value
            else forall c | c in cs :: !Compares(c, f, table)
  {
    i := 0;
    if cs != [] && !Compares(cs[0], f, table) {
      var k := FirstPlaceExact(cs[1..], f, table);
      i := k + 1;
      assert forall c | c in cs :: c == cs[0] || c in cs[1..];
      assert forall j | 1 <= j < |cs| :: cs[j] == cs[1..][j - 1];
    }
  }

  lemma FirstAtUnique(cs: seq<Cond>, f: Endpoint, table: Option<string>, i: nat, j: nat)
    requires FirstAt(cs, f, table, i) && FirstAt(cs, f, table, j)
    ensures i == j
  {
    assert !(i < j) && !(j < i);
  }

  /** The owner is the first `in` compared with a parameter, and only without one the first `out`. */
  lemma OwnerExact(cs: seq<Cond>, table: Option<string>, i: nat)
    ensures FirstAt(cs, In, table, i) ==> FirstOwner(cs, table) == Some((In, cs[i].place))
    ensures (forall c | c in cs :: !Compares(c, In, table)) && FirstAt(cs, Out, table, i) ==> FirstOwner(cs, table) == Some((Out, cs[i].place))
    ensures FirstOwner(cs, table) == None <==> forall c | c in cs :: !Compares(c, In, table) && !Compares(c, Out, table)
  {
    var a := FirstPlaceExact(cs, In, table);
    var b := FirstPlaceExact(cs, Out, table);
    if FirstAt(cs, In, table, i) {
      assert cs[i] in cs;
      FirstAtUnique(cs, In, table, i, a);
    } else if FirstAt(cs, Out, table, i) && FirstPlace(cs, In, table).None? {
      assert cs[i] in cs;
      FirstAtUnique(cs, Out, table, i, b);
    }
    if FirstPlace(cs, In, table).Some? {
      assert cs[a] in cs;
    }
    if FirstPlace(cs, Out, table).Some? {
      assert cs[b] in cs;
    }
  }

  /** A count is left alone exactly when FROM names no edge table or nothing is compared with an
      owner, and JOIN names none or nothing is compared under its canonical name. */
  lemma UnchangedExact(q: CountQuery, m: map<string, string>)
    ensures Rewrite(q, m) == Unchanged <==>
            && (EdgeRegistry.Find(m, q.from).Some? ==> forall c | c in q.on + q.where :: !c.EndpointIs?)
            && (EdgeRegistry.Find(m, q.join).Some? && q.from != "" ==>
                  forall c | c in q.on + q.where :: c.EndpointIs? ==> c.table != EdgeRegistry.Find(m, q.join).value)
  {
    var cs := q.on + q.where;
    OwnerExact(cs, None, 0);
    assert forall c: Cond :: c.EndpointIs? <==> Compares(c, In, None) || Compares(c, Out, None);
    if EdgeRegistry.Find(m, q.join).Some? {
      var t := EdgeRegistry.Find(m, q.join);
      OwnerExact(cs, t, 0);
      assert forall c: Cond :: c.EndpointIs? && c.table == t.value <==> Compares(c, In, t) || Compares(c, Out, t);
    }
  }
}
