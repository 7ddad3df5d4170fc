/**
 Preloads as FETCH paths and graph selections (callback_preload.go:12-118): every dotted
 preload name is mapped part by part to column names, expanded to all its prefixes, and
 the paths of all names, visited in map order, are listed without repetition.
 */
module Preload {
  import opened Wrappers
  import opened Strings
  import EdgeRegistry

  /** What a schema lookup finds: the column, and the schema the search goes on in. */
  datatype Field = Field(dbName: string, schema: Option<nat>)

  /** A relation of the statement's schema, as far as the graph selection needs it. */
  datatype Relation = Relation(manyToMany: bool, joinTable: Option<string>, relatedTable: string, ownerIsOut: bool)

  datatype Context = Context(
    edges: map<string, string>,
    relations: map<string, Relation>,
    root: Option<nat>,
    schemas: map<nat, map<string, Field>>,
    columnName: string -> string)

  /** `strings.Split(s, ".")`. */
  function SplitDots(s: string): (r: seq<string>)
    ensures r != [] && forall i | 0 <= i < |r| :: '.' !in r[i]
    ensures Join(r, ".") == s
  {
    if s == [] then [""]
    else
      var rest := SplitDots(s[1..]);
      if s[0] == '.' then [""] + rest
      else
        assert Join([[s[0]] + rest[0]] + rest[1..], ".") == [s[0]] + Join(rest, ".") by {
          assert |rest| > 1 ==> ([[s[0]] + rest[0]] + rest[1..])[1..] == rest[1..];
          assert |rest| > 1 ==> [s[0]] + rest[0] + "." + Join(rest[1..], ".") == [s[0]] + (rest[0] + "." + Join(rest[1..], "."));
        }
        [[s[0]] + rest[0]] + rest[1..]
  }

  /** One part: its column name, and the schema for the next part. */
  function MapPart(c: Context, schema: Option<nat>, part: string): (string, Option<nat>) {
    var found := schema.Some? && schema.value in c.schemas && part in c.schemas[schema.value] && c.schemas[schema.value][part].dbName != "";
    var mapped := if found then c.schemas[schema.value][part].dbName else part;
    (if mapped == part then c.columnName(part) else mapped,
     if found then c.schemas[schema.value][part].schema else schema)
  }

  /** The mapped parts of a name; parts mapped to nothing are left out. */
  function MapParts(c: Context, schema: Option<nat>, parts: seq<string>): seq<string>
    decreases parts
  {
    if parts == [] then []
    else
      var (mapped, next) := MapPart(c, schema, parts[0]);
      (if mapped == "" then [] else [mapped]) + MapParts(c, next, parts[1..])
  }

  function DbParts(c: Context, name: string): seq<string> {
    MapParts(c, c.root, SplitDots(name))
  }

  function Prefix(parts: seq<string>, i: nat): string
    requires i < |parts|
  {
    Join(parts[..i + 1], ".")
  }

  /** The paths of one name: all prefixes of its parts, shortest first. */
  function Expand(parts: seq<string>): seq<string> {
    seq(|parts|, i requires 0 <= i < |parts| => Prefix(parts, i))
  }

  /** The graph selection of a name that is a many-to-many over an edge table. */
  function GraphField(c: Context, name: string): Option<string> {
    if name in c.relations && c.relations[name].manyToMany && c.relations[name].joinTable.Some? then
      var rel := c.relations[name];
      match EdgeRegistry.Find(c.edges, rel.joinTable.value)
      case None => None
      case Some(edge) =>
        var arrow := if rel.ownerIsOut then "<-" else "->";
        Some(arrow + edge + arrow + rel.relatedTable + " AS " + c.columnName(name))
    else None
  }

  /** The FETCH paths of one preload name. */
  function Paths(c: Context, name: string): seq<string> {
    if GraphField(c, name).Some? then [] else Expand(DbParts(c, name))
  }

  function Flatten(f: string -> seq<string>, order: seq<string>): seq<string> {
    if order == [] then [] else Flatten(f, order[..|order| - 1]) + f(order[|order| - 1])
  }

  function FetchFields(c: Context, order: seq<string>): seq<string> {
    Flatten((name: string) => Paths(c, name), order)
  }

  function GraphFields(c: Context, order: seq<string>): seq<string> {
    if order == [] then []
    else
      var name := order[|order| - 1];
      GraphFields(c, order[..|order| - 1]) + (if GraphField(c, name).Some? then [GraphField(c, name).value] else [])
  }

  /** First occurrences only. */
  function Unique(xs: seq<string>): seq<string> {
    if xs == [] then []
    else
      var u := Unique(xs[..|xs| - 1]);
      if xs[|xs| - 1] in xs[..|xs| - 1] then u else u + [xs[|xs| - 1]]
  }

  ghost predicate IsOrder(order: seq<string>, names: set<string>) {
    && (forall k :: k in order <==> k in names)
    && (forall i, j | 0 <= i < j < |order| :: order[i] != order[j])
  }

  // --------------------------------------------------------------- the callback

  method MapName(c: Context, name: string) returns (parts: seq<string>)
    ensures parts == DbParts(c, name)
  {
    var split := SplitDots(name);
    var schema := c.root;
    parts := [];
    assert split[0..] == split;
    for i := 0 to |split|
      invariant parts + MapParts(c, schema, split[i..]) == DbParts(c, name)
    {
      var (mapped, next) := MapPart(c, schema, split[i]);
      assert split[i..][1..] == split[i + 1..];
      ghost var rest := MapParts(c, next, split[i + 1..]);
      Assoc(parts, if mapped == "" then [] else [mapped], rest);
      schema := next;
      parts := parts + (if mapped == "" then [] else [mapped]);
    }
  }

  method ExpandPath(parts: seq<string>) returns (paths: seq<string>)
    ensures paths == Expand(parts)
  {
    paths := [];
    var currentPath := "";
    for i := 0 to |parts|
      invariant paths == Expand(parts)[..i]
      invariant i > 0 ==> currentPath == Join(parts[..i], ".")
    {
      assert parts[..i + 1] == parts[..i] + [parts[i]];
      if i == 0 {
        currentPath := parts[i];
      } else {
        JoinSnoc(parts[..i], parts[i], ".");
        currentPath := currentPath + "." + parts[i];
      }
      paths := paths + [currentPath];
    }
  }

  method Deduplicate(fields: seq<string>) returns (unique: seq<string>)
    ensures unique == Unique(fields)
  {
    var seen: set<string> := {};
    unique := [];
    for i := 0 to |fields|
      invariant unique == Unique(fields[..i])
      invariant forall x :: x in seen <==> x in fields[..i]
    {
      assert fields[..i + 1][..i] == fields[..i];
      if fields[i] !in seen {
        seen := seen + {fields[i]};
        unique := unique + [fields[i]];
      }
    }
    assert fields[..|fields|] == fields;
  }

  /** The FETCH and graph fields; the preload map is visited in an order Go does not fix. */
  method HandlePreloads(c: Context, preloads: set<string>) returns (fetch: seq<string>, graph: seq<string>, ghost order: seq<string>)
    ensures forall x :: x in fetch <==> Wanted(c, preloads, x)
    ensures forall i, j | 0 <= i < j < |fetch| :: fetch[i] != fetch[j]
    ensures forall x :: x in graph <==> exists name :: name in preloads && GraphField(c, name) == Some(x)
    ensures IsOrder(order, preloads) && fetch == Unique(FetchFields(c, order)) && graph == GraphFields(c, order)
  {
    fetch, graph, order := [], [], [];
    var rest, fields := preloads, [];
    while rest != {}
      invariant rest <= preloads && IsOrder(order, preloads - rest)
      invariant fields == FetchFields(c, order) && graph == GraphFields(c, order)
    {
      var name :| name in rest;
      rest := rest - {name};
      assert (order + [name])[..|order|] == order;
      order := order + [name];
      var selection := GraphField(c, name);
      if selection.Some? {
        graph := graph + [selection.value];
        continue;
      }
      var parts := MapName(c, name);
      var paths := ExpandPath(parts);
      fields := fields + paths;
    }
    assert preloads - rest == preloads;
    fetch := Deduplicate(fields);
    forall x ensures x in fetch <==> Wanted(c, preloads, x)
      ensures x in graph <==> exists name :: name in preloads && GraphField(c, name) == Some(x)
    {
      FetchExact(c, preloads, order, x);
      GraphMembers(c, order, x);
    }
    UniqueExact(fields);
  }

  // ---------------------------------------------------------------- main results

  /** `x` is a prefix of the mapped path of some preload that is not a graph selection. */
  ghost predicate Wanted(c: Context, preloads: set<string>, x: string) {
    exists name, i: nat :: name in preloads && GraphField(c, name).None? && i < |DbParts(c, name)| && x == Prefix(DbParts(c, name), i)
  }

  lemma {:induction false} UniqueExact(xs: seq<string>)
    ensures forall x :: x in Unique(xs) <==> x in xs
    ensures forall i, j | 0 <= i < j < |Unique(xs)| :: Unique(xs)[i] != Unique(xs)[j]
  {
    if xs != [] {
      var p, x := xs[..|xs| - 1], xs[|xs| - 1];
      UniqueExact(p);
      assert xs == p + [x];
    }
  }

  lemma {:induction false} FlattenMembers(f: string -> seq<string>, order: seq<string>, x: string)
    ensures x in Flatten(f, order) <==> exists name :: name in order && x in f(name)
  {
    if order != [] {
      var p, last := order[..|order| - 1], order[|order| - 1];
      FlattenMembers(f, p, x);
      assert forall name :: name in order <==> name in p || name == last;
    }
  }

  lemma {:induction false} GraphMembers(c: Context, order: seq<string>, x: string)
    ensures x in GraphFields(c, order) <==> exists name :: name in order && GraphField(c, name) == Some(x)
  {
    if order != [] {
      var p, last := order[..|order| - 1], order[|order| - 1];
      GraphMembers(c, p, x);
      assert forall name :: name in order <==> name in p || name == last;
    }
  }

  lemma WantedPath(c: Context, preloads: set<string>, x: string)
    ensures Wanted(c, preloads, x) <==> exists name :: name in preloads && x in Paths(c, name)
  {
    if name :| name in preloads && x in Paths(c, name) {
      var parts := DbParts(c, name);
      var i :| 0 <= i < |parts| && Expand(parts)[i] == x;
      assert x == Prefix(parts, i);
    }
    if name, i: nat :| name in preloads && GraphField(c, name).None? && i < |DbParts(c, name)| && x == Prefix(DbParts(c, name), i) {
      assert Expand(DbParts(c, name))[i] == x;
      assert x in Paths(c, name);
    }
  }

  /** Whatever the map order, the emitted list holds exactly the wanted paths, each once. */
  lemma FetchExact(c: Context, preloads: set<string>, order: seq<string>, x: string)
    requires IsOrder(order, preloads)
    ensures x in Unique(FetchFields(c, order)) <==> Wanted(c, preloads, x)
    ensures forall i, j | 0 <= i < j < |Unique(FetchFields(c, order))| :: Unique(FetchFields(c, order))[i] != Unique(FetchFields(c, order))[j]
  {
    var f := (name: string) => Paths(c, name);
    UniqueExact(FetchFields(c, order));
    FlattenMembers(f, order, x);
    WantedPath(c, preloads, x);
    forall name ensures name in order && x in f(name) <==> name in preloads && x in Paths(c, name) {
    }
  }

  /** Every path stands behind all its dotted prefixes, which are in the list. */
  ghost predicate ParentsFirst(xs: seq<string>) {
    forall n, k | 0 <= n < |xs| && 0 <= k < |xs[n]| && xs[n][k] == '.' :: xs[n][..k] in xs[..n]
  }

  /** A column name is a single path segment. */
  ghost predicate SingleSegments(c: Context, name: string) {
    forall i | 0 <= i < |DbParts(c, name)| :: '.' !in DbParts(c, name)[i]
  }

  /** The dots of `x + "." + last` are those of `x` and the one between. */
  lemma DotsBeforeLast(x: string, last: string, k: nat)
    requires '.' !in last && k < |x + "." + last| && (x + "." + last)[k] == '.'
    ensures k <= |x| && (x + "." + last)[..k] == x[..k]
  {
    var y := x + "." + last;
    assert forall i | |x| < i < |y| :: y[i] == last[i - |x| - 1] && last[i - |x| - 1] in last;
  }

  /** The text before a dot of a joined path is a shorter joined path. */
  lemma {:induction false} DotsSplitParts(parts: seq<string>, k: nat) returns (j: nat)
    requires parts != [] && forall i | 0 <= i < |parts| :: '.' !in parts[i]
    requires k < |Join(parts, ".")| && Join(parts, ".")[k] == '.'
    ensures 1 <= j < |parts| && Join(parts, ".")[..k] == Join(parts[..j], ".")
  {
    var n := |parts| - 1;
    var p, last := parts[..n], parts[n];
    assert parts == p + [last];
    assert forall i | 0 <= i < |last| :: last[i] in last;
    j := n;
    if n > 0 {
      JoinSnoc(p, last, ".");
      var x := Join(p, ".");
      DotsBeforeLast(x, last, k);
      if k < |x| {
        j := DotsSplitParts(p, k);
        assert parts[..j] == p[..j];
      }
    }
  }

  lemma ExpandParents(parts: seq<string>, n: nat, k: nat)
    requires forall i | 0 <= i < |parts| :: '.' !in parts[i]
    requires n < |parts| && k < |Expand(parts)[n]| && Expand(parts)[n][k] == '.'
    ensures Expand(parts)[n][..k] in Expand(parts)[..n]
  {
    var j := DotsSplitParts(parts[..n + 1], k);
    assert parts[..n + 1][..j] == parts[..j];
    assert Expand(parts)[..n][j - 1] == Join(parts[..j], ".");
  }

  lemma PathsParents(c: Context, name: string)
    requires SingleSegments(c, name)
    ensures ParentsFirst(Paths(c, name))
  {
    if GraphField(c, name).None? {
      var b := Expand(DbParts(c, name));
      forall n, k | 0 <= n < |b| && 0 <= k < |b[n]| && b[n][k] == '.' ensures b[n][..k] in b[..n] {
        ExpandParents(DbParts(c, name), n, k);
      }
    }
  }

  lemma {:induction false} FlattenParents(f: string -> seq<string>, order: seq<string>)
    requires forall name | name in order :: ParentsFirst(f(name))
    ensures ParentsFirst(Flatten(f, order))
  {
    if order != [] {
      var p, last := order[..|order| - 1], order[|order| - 1];
      assert forall name | name in p :: name in order;
      FlattenParents(f, p);
      assert last in order;
      ParentsAppend(Flatten(f, p), f(last));
    }
  }

  lemma ParentsAppend(a: seq<string>, b: seq<string>)
    requires ParentsFirst(a) && ParentsFirst(b)
    ensures ParentsFirst(a + b)
  {
    var xs := a + b;
    forall n, k | 0 <= n < |xs| && 0 <= k < |xs[n]| && xs[n][k] == '.' ensures xs[n][..k] in xs[..n] {
      if n < |a| {
        assert xs[..n] == a[..n];
      } else {
        assert xs[n] == b[n - |a|];
        assert xs[..n] == a + b[..n - |a|];
      }
    }
  }

  lemma {:induction false} UniqueParents(xs: seq<string>)
    requires ParentsFirst(xs)
    ensures ParentsFirst(Unique(xs))
  {
    if xs != [] {
      var p, x := xs[..|xs| - 1], xs[|xs| - 1];
      forall n, k | 0 <= n < |p| && 0 <= k < |p[n]| && p[n][k] == '.' ensures p[n][..k] in p[..n] {
        assert p[n] == xs[n] && p[..n] == xs[..n];
      }
      UniqueParents(p);
      UniqueExact(p);
      var u, v := Unique(p), Unique(xs);
      forall n, k | 0 <= n < |v| && 0 <= k < |v[n]| && v[n][k] == '.' ensures v[n][..k] in v[..n] {
        if n < |u| {
          assert v[n] == u[n] && v[..n] == u[..n];
        } else {
          assert v[..n] == u && v[n] == x;
          assert xs[|xs| - 1][..k] in xs[..|xs| - 1];
        }
      }
    }
  }

  /** The emitted list is closed under dotted prefixes and places each parent before its children. */
  lemma FetchIsPrefixClosed(c: Context, preloads: set<string>, order: seq<string>)
    requires IsOrder(order, preloads) && forall name | name in preloads :: SingleSegments(c, name)
    ensures ParentsFirst(Unique(FetchFields(c, order)))
  {
    forall name | name in order ensures ParentsFirst(Paths(c, name)) {
      PathsParents(c, name);
    }
    FlattenParents((name: string) => Paths(c, name), order);
    UniqueParents(FetchFields(c, order));
  }

  /** Two map orders emit the same paths. */
  lemma FetchIgnoresOrder(c: Context, preloads: set<string>, a: seq<string>, b: seq<string>)
    requires IsOrder(a, preloads) && IsOrder(b, preloads)
    ensures multiset(Unique(FetchFields(c, a))) == multiset(Unique(FetchFields(c, b)))
  {
    forall x ensures multiset(Unique(FetchFields(c, a)))[x] == multiset(Unique(FetchFields(c, b)))[x] {
      FetchExact(c, preloads, a, x);
      FetchExact(c, preloads, b, x);
      OnceEach(Unique(FetchFields(c, a)), x);
      OnceEach(Unique(FetchFields(c, b)), x);
    }
  }

  lemma {:induction false} OnceEach(xs: seq<string>, x: string)
    requires forall i, j | 0 <= i < j < |xs| :: xs[i] != xs[j]
    ensures multiset(xs)[x] == if x in xs then 1 else 0
  {
    if xs != [] {
      assert xs == [xs[0]] + xs[1..];
      OnceEach(xs[1..], x);
    }
  }

  // --------------------------------------------------------------- names and columns

  /** The column of a part: the one of the schema's field, or the naming strategy's when there is no
      such field or it is called like the part. */
  ghost predicate ColumnOf(c: Context, schema: Option<nat>, part: string, column: string, next: Option<nat>) {
    if schema.Some? && schema.value in c.schemas && part in c.schemas[schema.value] && c.schemas[schema.value][part].dbName != "" then
      var f := c.schemas[schema.value][part];
      column == (if f.dbName == part then c.columnName(part) else f.dbName) && next == f.schema
    else column == c.columnName(part) && next == schema
  }

  /** The schemas a dotted name leads through, each found by the field before, and its columns. */
  ghost predicate Walk(c: Context, parts: seq<string>, schemas: seq<Option<nat>>, columns: seq<string>) {
    && |schemas| == |parts| + 1 && |columns| == |parts|
    && forall i | 0 <= i < |parts| :: ColumnOf(c, schemas[i], parts[i], columns[i], schemas[i + 1])
  }

  function Nonempty(columns: seq<string>): seq<string> {
    if columns == [] then []
    else (if columns[0] == "" then [] else [columns[0]]) + Nonempty(columns[1..])
  }

  /** The mapped parts of a name are the columns along its walk through the schemas, in order, without the empty ones. */
  lemma {:induction false} MapPartsExact(c: Context, parts: seq<string>, schemas: seq<Option<nat>>, columns: seq<string>)
    requires Walk(c, parts, schemas, columns)
    ensures MapParts(c, schemas[0], parts) == Nonempty(columns)
  {
    if parts != [] {
      var p, s, l := parts[1..], schemas[1..], columns[1..];
      assert ColumnOf(c, schemas[0], parts[0], columns[0], schemas[1]);
      forall i | 0 <= i < |p| ensures ColumnOf(c, s[i], p[i], l[i], s[i + 1]) {
        assert ColumnOf(c, schemas[i + 1], parts[i + 1], columns[i + 1], schemas[i + 2]);
      }
      MapPartsExact(c, p, s, l);
    }
  }

  /** So a plain preload is fetched under the columns of its walk, from its first part on, and under
      nothing else. */
  lemma PathExact(c: Context, preloads: set<string>, order: seq<string>, name: string, schemas: seq<Option<nat>>, columns: seq<string>, x: string)
    requires IsOrder(order, preloads) && name in preloads && GraphField(c, name).None?
    requires Walk(c, SplitDots(name), schemas, columns) && schemas[0] == c.root
    ensures x in Paths(c, name) <==> StartsPath(Nonempty(columns), x)
    ensures StartsPath(Nonempty(columns), x) ==> x in Unique(FetchFields(c, order))
  {
    MapPartsExact(c, SplitDots(name), schemas, columns);
    ExpandMembers(Nonempty(columns), x);
    FetchExact(c, preloads, order, x);
    WantedPath(c, preloads, x);
  }

  /** The first parts of a path, with dots between them. */
  ghost predicate StartsPath(parts: seq<string>, x: string) {
    exists n | 1 <= n <= |parts| :: x == Join(parts[..n], ".")
  }

  lemma ExpandMembers(parts: seq<string>, x: string)
    ensures x in Expand(parts) <==> StartsPath(parts, x)
  {
    if i :| 0 <= i < |parts| && Expand(parts)[i] == x {
      assert x == Join(parts[..i + 1], ".");
    }
    if n :| 1 <= n <= |parts| && x == Join(parts[..n], ".") {
      assert Expand(parts)[n - 1] == x;
    }
  }

  /** The edge table a join table's name stands for after a history of registrations. */
  function EdgeOf(ts: seq<string>, joinTable: string): Option<string> {
    if EdgeRegistry.LastMatch(ts, joinTable).Some? then EdgeRegistry.LastMatch(ts, joinTable)
    else EdgeRegistry.LastMatch(ts, joinTable + "s")
  }

  /**
   A preload becomes a graph selection exactly when it is a many-to-many over a registered edge
   table, and the selection leads from the owner's end of the edges to the related table: along
   them from an `in`, against them from an `out`.
   */
  lemma GraphFieldExact(c: Context, ts: seq<string>, name: string)
    requires c.edges == EdgeRegistry.Run(ts)
    ensures GraphField(c, name).Some? <==>
            name in c.relations && c.relations[name].manyToMany && c.relations[name].joinTable.Some?
            && EdgeOf(ts, c.relations[name].joinTable.value).Some?
    ensures GraphField(c, name).Some? ==>
              var rel := c.relations[name];
              var edge := EdgeOf(ts, rel.joinTable.value).value;
              GraphField(c, name).value ==
              (if rel.ownerIsOut then "<-" + edge + "<-" + rel.relatedTable else "->" + edge + "->" + rel.relatedTable)
              + " AS " + c.columnName(name)
  {
    if name in c.relations && c.relations[name].joinTable.Some? {
      EdgeRegistry.FindExact(ts, c.relations[name].joinTable.value);
    }
  }
}
