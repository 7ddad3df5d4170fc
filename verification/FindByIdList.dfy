/**
 Lookups by a list of record ids (callback_query.go:23-69): what the text optimiser makes of
 printed lists, of lists over other columns, and what rows the two statements select.
 */
module FindByIdList {
  import opened Strings
  import opened ConjunctText
  import opened Store
  import opened Wrappers
  import opened Decimal
  import opened IdListSearch
  import opened FindById
  import FindByIdComparison

  /** The id conjunct of the statement is a printed list over a name the search takes. */
  predicate PrintedList(q: LookupQuery, name: string, places: seq<nat>) {
    && IsListName(name) && places != []
    && q.style == Listed(ListPred(name, places), Join(Placeholders(places), ", "))
  }

  /** The text of the list conjunct stands once in the statement, and the FROM clause not in the select list. */
  ghost predicate ListTextOnce(q: LookupQuery) {
    && q.style.Listed?
    && OnlyAt(Print(q), q.style.pred, |Print(q)| - |q.style.pred + After(q)|)
    && !Contains(Head(q), q.style.pred)
    && (forall i | 0 <= i < |"SELECT " + q.columns + " "| :: !At(Print(q), "FROM " + Quote(q.table), i))
  }

  /** The search finds nothing in the statement before the list conjunct. */
  ghost predicate NoEarlierMatch(q: LookupQuery) {
    NoMatchIn(Ahead(q), IdText(q) + (Behind(q) + q.rest))
  }

  predicate AllRecordIds(places: seq<nat>, vars: seq<Var>) {
    forall i | 0 <= i < |places| :: 1 <= places[i] <= |vars| && vars[places[i] - 1].RecordIdVar?
  }

  /** The placeholders of a printed list are those it was printed from. */
  lemma PrintedPlaces(places: seq<nat>, vars: seq<Var>)
    ensures var phs := FindPlaces(ListBody(places));
            phs == Placeholders(places) && (PlacesAreIds(phs, vars) <==> AllRecordIds(places, vars))
  {
    FindPlacesPrinted(places);
    PlaceNumbers(places);
    var phs := Placeholders(places);
    if PlacesAreIds(phs, vars) {
      forall i | 0 <= i < |places| ensures 1 <= places[i] <= |vars| && vars[places[i] - 1].RecordIdVar? {
        assert PlaceNumber(phs[i]) == places[i];
      }
    }
  }

  lemma {:induction false} BodyPlain(places: seq<nat>)
    ensures ' ' !in ListBody(places)
    decreases |places|
  {
    if places != [] {
      var d := Dec(places[0]);
      BodySplit(places);
      BodyPlain(places[1..]);
      assert ' ' !in "$p" && forall c | c in d :: IsDigit(c);
    }
  }

  /** The blanks of a list predicate stand before IN and before the parenthesis. */
  lemma PredBlanks(name: string, body: string, e: nat)
    requires |name| >= 2 && (forall i | 0 <= i < |name| :: name[i] != ' ') && ' ' !in body
    ensures var k := name + (LIST + (body + ")"));
            e < |k| && k[e] == ' ' ==> e == |name| || e == |name| + 3
  {
    var k, p := name + (LIST + (body + ")")), body + ")";
    assert ' ' !in p;
    assert forall x | 0 <= x < |name| :: k[x] == name[x];
    assert forall x | |name| + 5 <= x < |k| :: k[x] == p[x - |name| - 5] && p[x - |name| - 5] in p;
    assert k[|name| + 1] == 'I' && k[|name| + 2] == 'N' && k[|name| + 4] == '(';
  }

  lemma PredShape(name: string, places: seq<nat>)
    requires IsListName(name)
    ensures var k := ListPred(name, places);
            k != [] && BlankBefore(k) && (forall c | ClauseLetter(c) :: BlanksAvoid(k, c))
  {
    var k, n := ListPred(name, places), |name|;
    NameChars(name);
    BodyPlain(places);
    assert k[n] == ' ' && k[n + 1] == 'I' && k[n + 2] == 'N' && k[n + 3] == ' ' && k[n + 4] == '(' && k[|k| - 1] == ')';
    assert k[0] == name[0] && k[n - 1] == name[n - 1];
    EndsLast(name, "id", 0);
    EndsLast(name, "id`", 0);
    assert name[n - 1] in "d`";
    forall e | 0 <= e < |k| && k[e] == ' ' ensures e == n || e == n + 3 {
      PredBlanks(name, ListBody(places), e);
    }
  }

  /** The leftmost match in the statement is its list conjunct. */
  lemma SearchFinds(q: LookupQuery, name: string, places: seq<nat>)
    requires PrintedList(q, name, places) && NoEarlierMatch(q)
    ensures Search(Print(q)) == Some(Match(q.style.pred, ListBody(places)))
  {
    PrintParts(q);
    PredAndRest(name, places, Behind(q) + q.rest);
    SearchParts(Ahead(q), name, places, Behind(q) + q.rest);
  }

  /** Why a name in front of ` IN (` that starts before the list conjunct has its own list. */
  lemma EarlierList(a: string, name: string, l: string, c: string, m: string)
    requires |a| >= 2 && a[|a| - 1] == ' ' && a[|a| - 2] != 'N'
    requires IsListName(name) && IsListName(c) && a + (name + (LIST + l)) == c + (LIST + m)
    ensures |c| + |LIST| <= |a| && At(a, LIST, |c|) && c <= a
  {
    var t, n := a + (name + (LIST + l)), |c|;
    NameChars(name);
    NameChars(c);
    ListStands(c, m);
    assert t[|a| - 1] == ' ' && t[|a| - 2] == a[|a| - 2];
    assert t[|a|] == name[0] && t[|a| + 1] == name[1] && (|name| > 2 ==> t[|a| + 2] == name[2] != ' ');
    assert forall i | 0 <= i < n :: t[i] == c[i] != ' ';
    assert t[n + 1] == 'I' && t[n + 2] == 'N' && t[n + 3] == ' ' && t[n + 4] == '(';
    if n + |LIST| <= |a| {
      AtLeft(a, name + (LIST + l), LIST, n);
      assert t[..n] == c && a[..n] == t[..n];
    } else {
      assert false;
    }
  }

  lemma ListStands(c: string, m: string)
    ensures var t := c + (LIST + m);
            && At(t, LIST, |c|) && t[|c|] == ' ' && t[|c| + 1] == 'I' && t[|c| + 2] == 'N' && t[|c| + 3] == ' ' && t[|c| + 4] == '('
  {
  }

  /** A simple way to meet the condition: no list before it compares a column that ends in `id`. */
  lemma NoEarlierList(q: LookupQuery, name: string, places: seq<nat>)
    requires PrintedList(q, name, places)
    requires forall p | At(Ahead(q), LIST, p) :: !EndsWith(Ahead(q)[..p], "id") && !EndsWith(Ahead(q)[..p], "id`")
    ensures NoEarlierMatch(q)
  {
    var rest := Behind(q) + q.rest;
    AheadEnd(q);
    PredAndRest(name, places, rest);
    forall j | 0 <= j < |Ahead(q)| ensures MatchAt(Ahead(q)[j..] + (q.style.pred + rest)).None? {
      NoEarlierAt(Ahead(q), name, ListBody(places) + (")" + rest), j);
    }
  }

  lemma AheadEnd(q: LookupQuery)
    requires q.style.Listed?
    ensures var a := Ahead(q); |a| >= 2 && a[|a| - 1] == ' ' && a[|a| - 2] != 'N'
  {
    var a, l := Ahead(q), Lead(Before(q), q.before == [], "");
    assert l == Before(q) + (if q.before == [] then WHERE else AND);
    assert a[|a| - 1] == l[|l| - 1] && a[|a| - 2] == l[|l| - 2];
  }

  lemma NoEarlierAt(a: string, name: string, l: string, j: nat)
    requires |a| >= 2 && a[|a| - 1] == ' ' && a[|a| - 2] != 'N' && j < |a| && IsListName(name)
    requires forall p | At(a, LIST, p) :: !EndsWith(a[..p], "id") && !EndsWith(a[..p], "id`")
    ensures MatchAt(a[j..] + (name + (LIST + l))).None?
  {
    var t := a[j..] + (name + (LIST + l));
    if MatchAt(t).Some? {
      var c := MatchSound(t);
      EarlierInside(a, name, l, j, c, MatchAt(t).value.0);
    }
  }

  lemma EarlierInside(a: string, name: string, l: string, j: nat, c: string, m: string)
    requires |a| >= 2 && a[|a| - 1] == ' ' && a[|a| - 2] != 'N' && j < |a| && IsListName(name) && IsListName(c)
    requires a[j..] + (name + (LIST + l)) == c + (LIST + m)
    ensures At(a, LIST, j + |c|) && (EndsWith(a[..j + |c|], "id") || EndsWith(a[..j + |c|], "id`"))
  {
    NameChars(c);
    assert (c + (LIST + m))[0] == c[0] && (a[j..] + (name + (LIST + l)))[0] == a[j];
    if j == |a| - 1 {
      assert false;
    } else {
      EarlierList(a[j..], name, l, c, m);
      NamePlace(a, j, c);
    }
  }

  lemma NamePlace(a: string, j: nat, c: string)
    requires j <= |a| && c <= a[j..] && At(a[j..], LIST, |c|) && (EndsWith(c, "id") || EndsWith(c, "id`"))
    ensures At(a, LIST, j + |c|) && (EndsWith(a[..j + |c|], "id") || EndsWith(a[..j + |c|], "id`"))
  {
    assert a == a[..j] + a[j..];
    AtRight(a[..j], a[j..], LIST, |c|);
    assert a[..j + |c|] == a[..j] + c;
    if EndsWith(c, "id") { EndsWithin(a[..j], c, "id"); } else { EndsWithin(a[..j], c, "id`"); }
  }

  /** `FROM $p1, $p2` with the remaining conjuncts and everything behind them. */
  function DirectList(q: LookupQuery): string {
    Head(q) + WhereText(Texts(q.before) + Texts(q.after)) + Tail(q)
  }

  /** Where the parameters of a text begin and end. */
  lemma {:induction false} OuterDollars(k: string) returns (first: nat, last: nat)
    requires '$' in k
    ensures first < |k| && k[first] == '$' && forall j | 0 <= j < |k| && k[j] == '$' :: first <= j
    ensures last < |k| && k[last] == '$' && forall j | 0 <= j < |k| && k[j] == '$' :: j <= last
  {
    var n := |k| - 1;
    var p := k[..n];
    assert k == p + [k[n]];
    if '$' in p {
      first, last := OuterDollars(p);
      assert forall j | 0 <= j < n :: p[j] == k[j];
      last := if k[n] == '$' then n else last;
    } else {
      assert forall j | 0 <= j < n :: k[j] == p[j] && p[j] in p;
      first, last := n, n;
    }
  }

  /** A text with parameters occurs once when no other parameters stand around it. */
  lemma OnlyDollars(a: string, k: string, r: string, i: int)
    requires '$' in k && '$' !in a && '$' !in r && At(a + (k + r), k, i)
    ensures i == |a|
  {
    var s := a + (k + r);
    var first, last := OuterDollars(k);
    AtChars(s, k, i);
    assert s[i + first] == '$' && s[i + last] == '$';
    assert forall j | 0 <= j < |a| :: s[j] == a[j] && a[j] in a;
    assert forall j | |a| + |k| <= j < |s| :: s[j] == r[j - |a| - |k|] && r[j - |a| - |k|] in r;
    assert k[i + first - |a|] == '$' && k[i + last - |a|] == '$';
  }

  /** A simple way to meet the condition: no other parameter in the statement. */
  lemma NoOtherListParameter(q: LookupQuery)
    requires q.style.Listed? && '$' in q.style.pred
    requires '$' !in Ahead(q) && '$' !in Behind(q) + q.rest
    ensures OnlyAt(Print(q), q.style.pred, |Print(q)| - |q.style.pred + After(q)|)
  {
    PrintParts(q);
    IdTextStands(Ahead(q), q.style.pred, Behind(q) + q.rest);
    forall i | At(Print(q), q.style.pred, i) ensures i == |Ahead(q)| {
      OnlyDollars(Ahead(q), q.style.pred, Behind(q) + q.rest, i);
    }
  }

  lemma ListLocated(q: LookupQuery)
    requires LaterClause(q) && ListTextOnce(q) && (forall c | ClauseLetter(c) :: BlanksAvoid(q.style.pred, c))
    ensures OnlyAt(Head(q) + Body(q), q.style.pred, |Lead(Head(q) + Before(q), q.before == [], "")|)
    ensures Detached(q.style.pred, After(q))
  {
    LocatedText(q);
    TailShape(q);
    ListEnds(q);
    OnceBehind(Head(q), Body(q), Print(q), q.style.pred, |q.style.pred + After(q)|);
  }

  lemma ListEnds(q: LookupQuery)
    requires ListTextOnce(q) && BlanksAvoid(q.style.pred, 'W')
    ensures EndsOnce(Print(q), Body(q), q.style.pred, |q.style.pred + After(q)|)
  {
    PrintEnds(q);
    BodyDetached(q, q.style.pred);
  }

  lemma ListHit(b: string, isFirst: bool, k: string, r: string)
    requires k != [] && OnlyAt(Lead(b, isFirst, "") + (k + r), k, |Lead(b, isFirst, "")|)
    requires BlankBefore(k) && Detached(k, r)
    ensures Apply(Lead(b, isFirst, "") + (k + r), ListReplacements(k)) == Dropped(b, isFirst, r)
  {
    var l, ps := Lead(b, isFirst, ""), ListReplacements(k);
    assert l == b + (if isFirst then WHERE else AND);
    assert Context(b, isFirst, l) && l[..|b|] == b;
    DroppedIsClean(b, isFirst, l, k, r, k);
    KeywordEnds(b, isFirst);
    assert "" + r[0..] == r;
    ApplyFirstFit(l, k, r, ps, if isFirst then (if AND <= r then 0 else 2) else 1, Dropped(b, isFirst, r));
  }

  lemma ListDropped(q: LookupQuery)
    requires LaterClause(q) && ListTextOnce(q)
    requires q.style.pred != "" && BlankBefore(q.style.pred) && (forall c | ClauseLetter(c) :: BlanksAvoid(q.style.pred, c))
    ensures Apply(Head(q) + Body(q), ListReplacements(q.style.pred)) == Front(q) + Tail(q)
  {
    LocatedText(q);
    ListLocated(q);
    DroppedText(q);
    ListHitIn(Head(q) + Body(q), Head(q) + Before(q), q.before == [], q.style.pred, After(q), Front(q) + Tail(q));
  }

  lemma ListHitIn(s: string, b: string, isFirst: bool, k: string, r: string, out: string)
    requires k != [] && OnlyAt(s, k, |Lead(b, isFirst, "")|) && BlankBefore(k) && Detached(k, r)
    requires s == Lead(b, isFirst, "") + (k + r) && out == Dropped(b, isFirst, r)
    ensures Apply(s, ListReplacements(k)) == out
  {
    ListHit(b, isFirst, k, r);
  }

  lemma FrontTailWords(q: LookupQuery)
    requires LaterClause(q)
    ensures Words(Front(q) + Tail(q)) == Words(DirectList(q))
  {
    TailShape(q);
    FrontWords(q);
    WordsAppend(Front(q), Tail(q));
    WordsAppend(Head(q) + WhereText(Texts(q.before) + Texts(q.after)), Tail(q));
  }

  /**
   The lookup of a printed list of record ids is found by the search and rewritten, up to blanks,
   to direct record access of the ids listed: for every spelling of the id and every list of
   places, every other conjunct and everything behind the conditions.
   */
  lemma ListBecomesDirect(q: LookupQuery, vars: seq<Var>, name: string, places: seq<nat>)
    requires q.table != "" && LaterClause(q) && PrintedList(q, name, places) && ListTextOnce(q) && NoEarlierMatch(q)
    requires vars != [] && AllRecordIds(places, vars)
    ensures Words(ListText(Print(q), q.table, vars)) == Words(DirectList(q))
  {
    SearchFinds(q, name, places);
    PredShape(name, places);
    FromReplaced(q);
    ListDropped(q);
    PrintedListSteps(Print(q), q.table, vars, places, q.style.pred, Head(q) + Body(q), Front(q) + Tail(q));
    var out := Front(q) + Tail(q);
    TrimWords(out);
    TrimWords(TrimLeft(out));
    FrontTailWords(q);
  }

  /**
   The rewriting of a printed id list as a whole: the text becomes direct access, and the two
   statements select the same rows, as bags, exactly when every record of the ids bound to the
   listed places that passes the other conjuncts belongs to the table and is listed once.
   */
  lemma ListRewriteExact(q: LookupQuery, vars: seq<Var>, name: string, places: seq<nat>, db: Database)
    requires q.table != "" && LaterClause(q) && PrintedList(q, name, places) && ListTextOnce(q) && NoEarlierMatch(q)
    requires vars != [] && AllRecordIds(places, vars) && WellFormed(db)
    ensures Words(ListText(Print(q), q.table, vars)) == Words(DirectList(q))
    ensures var cs, ids := q.before + q.after, Ids(places, vars);
            multiset(DirectListRows(cs, db, ids)) == multiset(ListRows(q.table, cs, db, ids)) <==>
            forall r | Hit(cs, db, ids, r) :: r.id.table == q.table && Copies(ids, r.id) == 1
  {
    ListBecomesDirect(q, vars, name, places);
    ListKeepsRows(q.table, q.before + q.after, db, Ids(places, vars));
  }

  function Ids(places: seq<nat>, vars: seq<Var>): seq<RecordId>
    requires AllRecordIds(places, vars)
  {
    seq(|places|, i requires 0 <= i < |places| => vars[places[i] - 1].id)
  }

  /** The rows of `FROM table WHERE id IN ids AND conjuncts`, in the SQL sense of IN. */
  function ListRows(table: string, cs: seq<Cond>, db: Database, ids: seq<RecordId>): seq<Row> {
    Filter(Rows(db, table), (r: Row) => r.id in ids && HoldsAll(cs, r))
  }

  /** The rows of `FROM $p1, $p2 WHERE conjuncts`. */
  function DirectListRows(cs: seq<Cond>, db: Database, ids: seq<RecordId>): seq<Row> {
    Filter(FetchAll(db, ids), (r: Row) => HoldsAll(cs, r))
  }

  /** A listed record that exists and passes the conjuncts. */
  ghost predicate Hit(cs: seq<Cond>, db: Database, ids: seq<RecordId>, r: Row) {
    r.id in ids && r in Rows(db, r.id.table) && HoldsAll(cs, r)
  }

  lemma ListCounts(table: string, cs: seq<Cond>, db: Database, ids: seq<RecordId>, r: Row)
    requires WellFormed(db)
    ensures multiset(ListRows(table, cs, db, ids))[r] == if Hit(cs, db, ids, r) && r.id.table == table then 1 else 0
    ensures multiset(DirectListRows(cs, db, ids))[r] == if Hit(cs, db, ids, r) then Copies(ids, r.id) else 0
  {
    FilterCount(Rows(db, table), (x: Row) => x.id in ids && HoldsAll(cs, x), r);
    UniqueRows(Rows(db, table), r);
    FilterCount(FetchAll(db, ids), (x: Row) => HoldsAll(cs, x), r);
    FetchAllCount(db, ids, r);
  }

  /**
   Both statements select the same rows, as bags, exactly when every hit belongs to the
   statement's table and is listed once.
   */
  lemma ListKeepsRows(table: string, cs: seq<Cond>, db: Database, ids: seq<RecordId>)
    requires WellFormed(db)
    ensures multiset(DirectListRows(cs, db, ids)) == multiset(ListRows(table, cs, db, ids)) <==>
            forall r | Hit(cs, db, ids, r) :: r.id.table == table && Copies(ids, r.id) == 1
  {
    var d, l := multiset(DirectListRows(cs, db, ids)), multiset(ListRows(table, cs, db, ids));
    forall r: Row
      ensures d[r] == l[r] <==> (Hit(cs, db, ids, r) ==> r.id.table == table && Copies(ids, r.id) == 1)
    {
      ListCounts(table, cs, db, ids, r);
      assert r.id in ids ==> Copies(ids, r.id) >= 1;
    }
    SameBags(d, l);
  }

  lemma SameBags(d: multiset<Row>, l: multiset<Row>)
    ensures d == l <==> forall r: Row :: d[r] == l[r]
  {
  }

  /** With repeated ids of the statement's table they still agree as sets. */
  lemma ListKeepsRowSet(table: string, cs: seq<Cond>, db: Database, ids: seq<RecordId>, r: Row)
    requires WellFormed(db) && forall i | 0 <= i < |ids| :: ids[i].table == table
    ensures r in DirectListRows(cs, db, ids) <==> r in ListRows(table, cs, db, ids)
  {
    ListCounts(table, cs, db, ids, r);
    assert r.id in ids ==> Copies(ids, r.id) >= 1;
    assert r in DirectListRows(cs, db, ids) <==> multiset(DirectListRows(cs, db, ids))[r] > 0;
    assert r in ListRows(table, cs, db, ids) <==> multiset(ListRows(table, cs, db, ids))[r] > 0;
  }

  // -------------------------------------------------------- lists of other columns

  /** What dropping a conjunct behind `l` leaves, with `r` behind it. */
  function Cut(l: string, r: string): string {
    if EndsWith(l, WHERE) then Dropped(l[..|l| - |WHERE|], true, r)
    else if EndsWith(l, AND) then Dropped(l[..|l| - |AND|], false, r)
    else l
  }

  /** The three replacements drop the text of a match exactly when it is a whole conjunct: when the
      text before it ends in WHERE or AND. */
  lemma MatchDroppedExact(l: string, k: string, r: string)
    requires k != [] && OnlyAt(l + (k + r), k, |l|) && BlankBefore(k) && Detached(k, r)
    ensures Apply(l + (k + r), ListReplacements(k)) ==
            if EndsWith(l, WHERE) || EndsWith(l, AND) then Cut(l, r) else l + (k + r)
    ensures EndsWith(l, WHERE) || EndsWith(l, AND) ==> |Cut(l, r)| < |l + (k + r)|
  {
    if EndsWith(l, WHERE) {
      CutExact(l, k, r, true);
    } else if EndsWith(l, AND) {
      CutExact(l, k, r, false);
    } else {
      ApplyUnfit(l, k, r, ListReplacements(k));
    }
  }

  lemma CutExact(l: string, k: string, r: string, isFirst: bool)
    requires k != [] && OnlyAt(l + (k + r), k, |l|) && BlankBefore(k) && Detached(k, r)
    requires EndsWith(l, if isFirst then WHERE else AND)
    ensures Apply(l + (k + r), ListReplacements(k)) == Cut(l, r) && |Cut(l, r)| < |l + (k + r)|
  {
    var kw := if isFirst then WHERE else AND;
    var b := l[..|l| - |kw|];
    LeadOf(l, kw, isFirst);
    EndsLast(l, WHERE, 1);
    EndsLast(l, AND, 1);
    assert WHERE[4] == 'E' && AND[3] == 'D';
    DroppedShorter(l, kw, isFirst, r);
    ListHitIn(l + (k + r), b, isFirst, k, r, Dropped(b, isFirst, r));
  }

  lemma DroppedShorter(l: string, kw: string, isFirst: bool, r: string)
    requires EndsWith(l, kw) && kw == if isFirst then WHERE else AND
    ensures |Dropped(l[..|l| - |kw|], isFirst, r)| <= |l| + |r|
  {
  }

  lemma LeadOf(l: string, kw: string, isFirst: bool)
    requires EndsWith(l, kw) && kw == if isFirst then WHERE else AND
    ensures Lead(l[..|l| - |kw|], isFirst, "") == l
  {
    assert l == l[..|l| - |kw|] + kw;
  }

  /** `SELECT columns from WHERE column IN (places) rest`. */
  function ListComparison(columns: string, from: string, column: string, places: seq<nat>, rest: string): string {
    FindByIdComparison.Compared(columns, from, column) + ListTail(places, rest)
  }

  /** No other list in the statement. */
  ghost predicate OneList(columns: string, from: string, column: string, places: seq<nat>, rest: string) {
    OneListBehind(FindByIdComparison.Compared(columns, from, column), ListTail(places, rest))
  }

  /** The search looks at the end of the column only. */
  predicate PassesSearch(column: string) {
    EndsWith(column, "id") || EndsWith(column, "id`")
  }

  /** Behind a blank, a text is a name from a place on only if the place is behind the blank. */
  lemma NamesBehindBlank(a: string, column: string, j: nat)
    requires j <= |a + (" " + column)|
    ensures var x := a + (" " + column);
            IsListName(x[j..]) <==> j > |a| && IsListName(column[j - |a| - 1..])
  {
    var x := a + (" " + column);
    if j > |a| {
      assert x[j..] == column[j - |a| - 1..];
    } else {
      assert x[j..][|a| - j] == x[|a|] == ' ';
      if IsListName(x[j..]) {
        NameChars(x[j..]);
      }
    }
  }

  lemma ComparedSplit(columns: string, from: string, column: string) returns (a: string)
    ensures FindByIdComparison.Compared(columns, from, column) == a + (" " + column)
  {
    a := "SELECT " + columns + " " + (from + " WHERE");
    assert " WHERE " + column == " WHERE" + (" " + column);
  }

  lemma ComparedWhere(columns: string, from: string, column: string) returns (a: string)
    ensures FindByIdComparison.Compared(columns, from, column) == a + (WHERE + column)
  {
    a := "SELECT " + columns + " " + (from + " ");
    assert " WHERE " + column == " " + (WHERE + column);
  }

  /** What the search finds in a list comparison: nothing, or the name its column ends in. */
  lemma ComparisonMiss(columns: string, from: string, column: string, places: seq<nat>, rest: string)
    requires !PassesSearch(column)
    requires OneList(columns, from, column, places, rest)
    ensures Search(ListComparison(columns, from, column, places, rest)) == None
  {
    var a := ComparedSplit(columns, from, column);
    NameAtEnd(column);
    NoNameInCompared(a, column);
    SearchMiss(FindByIdComparison.Compared(columns, from, column), ListTail(places, rest));
  }

  lemma ComparisonHit(columns: string, from: string, column: string, places: seq<nat>, rest: string, i: nat)
    requires places != [] && NameStarts(column, i)
    requires OneList(columns, from, column, places, rest)
    ensures Search(ListComparison(columns, from, column, places, rest)) == Some(Match(ListPred(column[i..], places), ListBody(places)))
  {
    var a := ComparedSplit(columns, from, column);
    HitCompared(FindByIdComparison.Compared(columns, from, column), a, column, places, rest, i);
  }

  lemma HitCompared(x: string, a: string, column: string, places: seq<nat>, rest: string, i: nat)
    requires places != [] && NameStarts(column, i) && x == a + (" " + column) && OneListBehind(x, ListTail(places, rest))
    ensures Search(x + ListTail(places, rest)) == Some(Match(ListPred(column[i..], places), ListBody(places)))
  {
    var n := FirstInCompared(x, a, column, i);
    HitNamed(x, places, rest, n, column[i..]);
  }

  predicate NamedAt(x: string, n: nat, name: string) {
    NameStarts(x, n) && x[n..] == name
  }

  ghost predicate OneListBehind(x: string, tail: string) {
    OnlyAt(x + tail, LIST, |x|)
  }

  lemma HitNamed(x: string, places: seq<nat>, rest: string, n: nat, name: string)
    requires places != [] && NamedAt(x, n, name) && OneListBehind(x, ListTail(places, rest))
    ensures Search(x + ListTail(places, rest)) == Some(Match(ListPred(name, places), ListBody(places)))
  {
    SearchHit(x, places, rest, n);
  }

  lemma NoNameInCompared(a: string, column: string)
    requires forall j | 0 <= j <= |column| :: !IsListName(column[j..])
    ensures var x := a + (" " + column); forall j | 0 <= j <= |x| :: !IsListName(x[j..])
  {
    var x := a + (" " + column);
    forall j | 0 <= j <= |x| ensures !IsListName(x[j..]) {
      NamesBehindBlank(a, column, j);
    }
  }

  lemma FirstInCompared(x: string, a: string, column: string, i: nat) returns (n: nat)
    requires NameStarts(column, i) && x == a + (" " + column)
    ensures NamedAt(x, n, column[i..])
  {
    n := |a| + 1 + i;
    assert x[n..] == column[i..];
    forall j: nat | j < n ensures !NameFrom(x, j) {
      if j <= |x| {
        NamesBehindBlank(a, column, j);
        assert j > |a| ==> !NameFrom(column, j - |a| - 1);
      }
    }
  }

  lemma NameStartsExists(column: string) returns (i: nat)
    requires PassesSearch(column)
    ensures NameStarts(column, i)
  {
    NameAtEnd(column);
    var k :| 0 <= k <= |column| && IsListName(column[k..]);
    assert NameFrom(column, k);
    var p := (j: nat) => NameFrom(column, j);
    i := Least(p, k);
    forall j: nat | j < i ensures !NameFrom(column, j) {
      assert !p(j);
    }
  }

  lemma Least(p: nat -> bool, n: nat) returns (i: nat)
    requires p(n)
    ensures i <= n && p(i) && forall j: nat | j < i :: !p(j)
  {
    i := 0;
    while !p(i)
      invariant i <= n && forall j: nat | j < i :: !p(j)
      decreases n - i
    {
      i := i + 1;
    }
  }

  /** The text up to a column or a part of it, once FROM is redirected. */
  function Redirected(columns: string, places: seq<nat>, before: string): string {
    FindByIdComparison.Compared(columns, "FROM " + Join(Placeholders(places), ", "), before)
  }

  /** `SELECT columns FROM table WHERE column IN (places) rest`, the places bound to record ids:
      its FROM clause does not stand in the select list, and a clause follows or nothing. */
  ghost predicate ListStatement(columns: string, table: string, column: string, places: seq<nat>, vars: seq<Var>, rest: string) {
    && table != "" && vars != [] && places != [] && AllRecordIds(places, vars)
    && OneList(columns, "FROM " + Quote(table), column, places, rest)
    && OneList(columns, "FROM " + Join(Placeholders(places), ", "), column, places, rest)
    && (rest == "" || (|rest| > 1 && rest[0] == ' ' && ClauseLetter(rest[1])))
    && FromOnce(columns, "FROM " + Quote(table), column, places, rest)
  }

  ghost predicate FromOnce(columns: string, from: string, column: string, places: seq<nat>, rest: string) {
    forall i | 0 <= i < |"SELECT " + columns + " "| :: !At(ListComparison(columns, from, column, places, rest), from, i)
  }

  /** What becomes of the statement when the name starts at `i`. */
  function Outcome(columns: string, column: string, places: seq<nat>, rest: string, i: nat): string
    requires i <= |column|
  {
    var l := Redirected(columns, places, column[..i]);
    if EndsWith(l, WHERE) || EndsWith(l, AND) then Cut(l, rest) else Redirected(columns, places, column) + ListTail(places, rest)
  }

  /**
   For every statement with one list, over any column text: FROM is redirected to the listed
   records exactly when the column text ends in `id`, maybe with a backtick, and the predicate
   is then dropped exactly when the text before the name it ends in ends in WHERE or AND.
   Otherwise it stays, and the listed records are read under it.
   */
  lemma ListComparisonExact(columns: string, table: string, column: string, places: seq<nat>, vars: seq<Var>, rest: string)
    requires ListStatement(columns, table, column, places, vars, rest)
    ensures var sql := ListComparison(columns, "FROM " + Quote(table), column, places, rest);
            && (!PassesSearch(column) ==> ListText(sql, table, vars) == sql)
            && (PassesSearch(column) ==> exists i: nat :: NameStarts(column, i))
            && forall i: nat | NameStarts(column, i) :: ListText(sql, table, vars) == TrimSpace(Outcome(columns, column, places, rest, i))
  {
    var from := "FROM " + Quote(table);
    var sql := ListComparison(columns, from, column, places, rest);
    if PassesSearch(column) {
      var _ := NameStartsExists(column);
    } else {
      ComparisonMiss(columns, from, column, places, rest);
      ListUnchanged(sql, table, vars);
    }
    forall i: nat | NameStarts(column, i)
      ensures ListText(sql, table, vars) == TrimSpace(Outcome(columns, column, places, rest, i))
    {
      ListComparisonAt(columns, table, column, places, vars, rest, i);
    }
  }

  lemma ListComparisonAt(columns: string, table: string, column: string, places: seq<nat>, vars: seq<Var>, rest: string, i: nat)
    requires ListStatement(columns, table, column, places, vars, rest) && NameStarts(column, i)
    ensures ListText(ListComparison(columns, "FROM " + Quote(table), column, places, rest), table, vars) ==
            TrimSpace(Outcome(columns, column, places, rest, i))
  {
    var from, to := "FROM " + Quote(table), "FROM " + Join(Placeholders(places), ", ");
    var k := ListPred(column[i..], places);
    ComparisonHit(columns, from, column, places, rest, i);
    ListMoved(columns, from, to, column, places, rest);
    RedirectedDropped(columns, column, places, rest, i);
    PrintedListSteps(ListComparison(columns, from, column, places, rest), table, vars, places, k,
                     ListComparison(columns, to, column, places, rest), Outcome(columns, column, places, rest, i));
  }

  lemma PrintedListSteps(sql: string, table: string, vars: seq<Var>, places: seq<nat>, k: string, s1: string, out: string)
    requires table != "" && vars != [] && places != [] && AllRecordIds(places, vars) && k != ""
    requires Search(sql) == Some(Match(k, ListBody(places)))
    requires ReplaceFirst(sql, "FROM " + Quote(table), "FROM " + Join(Placeholders(places), ", ")) == s1
    requires Apply(s1, ListReplacements(k)) == out
    ensures ListText(sql, table, vars) == TrimSpace(out)
  {
    PrintedPlaces(places, vars);
    ListSteps(sql, table, vars, Match(k, ListBody(places)), s1, out);
  }

  lemma RedirectedDropped(columns: string, column: string, places: seq<nat>, rest: string, i: nat)
    requires NameStarts(column, i) && (rest == "" || (|rest| > 1 && rest[0] == ' ' && ClauseLetter(rest[1])))
    requires OneList(columns, "FROM " + Join(Placeholders(places), ", "), column, places, rest)
    ensures var to, k := "FROM " + Join(Placeholders(places), ", "), ListPred(column[i..], places);
            k != "" && Apply(ListComparison(columns, to, column, places, rest), ListReplacements(k)) == Outcome(columns, column, places, rest, i)
  {
    PredShape(column[i..], places);
    RedirectedParts(columns, places, column, rest, i);
    PredOnce(Redirected(columns, places, column[..i]), column[i..], places, rest);
    MatchDroppedExact(Redirected(columns, places, column[..i]), ListPred(column[i..], places), rest);
  }

  lemma ListMoved(columns: string, from: string, to: string, column: string, places: seq<nat>, rest: string)
    requires from != "" && FromOnce(columns, from, column, places, rest)
    ensures ReplaceFirst(ListComparison(columns, from, column, places, rest), from, to) == ListComparison(columns, to, column, places, rest)
  {
    var a, w, t := "SELECT " + columns + " ", " WHERE " + column, ListTail(places, rest);
    MovedTexts(a, from, w, t);
    MovedTexts(a, to, w, t);
    assert ListComparison(columns, from, column, places, rest) == a + (from + (w + t));
    ReplaceFirstAt(a, from, w + t, to);
  }

  lemma MovedTexts(a: string, from: string, w: string, t: string)
    ensures (a + (from + w)) + t == a + (from + (w + t))
  {
  }

  lemma RedirectedParts(columns: string, places: seq<nat>, column: string, rest: string, i: nat)
    requires i <= |column|
    ensures var to := "FROM " + Join(Placeholders(places), ", ");
            && ListComparison(columns, to, column, places, rest) ==
               Redirected(columns, places, column[..i]) + (ListPred(column[i..], places) + rest)
            && FindByIdComparison.Compared(columns, to, column) == Redirected(columns, places, column[..i]) + column[i..]
  {
    var a, to := "SELECT " + columns + " ", "FROM " + Join(Placeholders(places), ", ");
    assert column == column[..i] + column[i..];
    SplitTexts(a, to, " WHERE ", column[..i], column[i..]);
    PredAndRest(column[i..], places, rest);
    Assoc(Redirected(columns, places, column[..i]), column[i..], ListTail(places, rest));
  }

  lemma SplitTexts(a: string, b: string, c: string, d: string, e: string)
    ensures a + (b + (c + (d + e))) == (a + (b + (c + d))) + e
  {
  }

  /** With one list in the statement, its predicate stands once. */
  lemma PredOnce(l: string, name: string, places: seq<nat>, rest: string)
    requires OnlyAt(l + (ListPred(name, places) + rest), LIST, |l + name|)
    ensures OnlyAt(l + (ListPred(name, places) + rest), ListPred(name, places), |l|)
  {
    var s, k := l + (ListPred(name, places) + rest), ListPred(name, places);
    IdTextStands(l, k, rest);
    forall i | At(s, k, i) ensures i == |l| {
      AtCore(s, name, LIST, ListBody(places) + ")", i) by {
        Assoc(name, LIST, ListBody(places) + ")");
      }
    }
  }

  /** The same for a single column: a spelling of the id becomes direct access, and every other
      column that ends in `id` reads the listed records under its own predicate. */
  lemma ListColumnExact(columns: string, table: string, column: string, places: seq<nat>, vars: seq<Var>, rest: string)
    requires ListStatement(columns, table, column, places, vars, rest) && ' ' !in column
    ensures var sql, l := ListComparison(columns, "FROM " + Quote(table), column, places, rest), Redirected(columns, places, "");
            ListText(sql, table, vars) ==
            if !PassesSearch(column) then sql
            else if IsListName(column) then TrimSpace(Cut(l, rest))
            else TrimSpace(Redirected(columns, places, column) + ListTail(places, rest))
  {
    ListComparisonExact(columns, table, column, places, vars, rest);
    if PassesSearch(column) {
      var i := NameStartsExists(column);
      ColumnBefore(columns, places, column, i);
    }
  }

  lemma ColumnBefore(columns: string, places: seq<nat>, column: string, i: nat)
    requires ' ' !in column && NameStarts(column, i)
    ensures var l := Redirected(columns, places, column[..i]);
            && (EndsWith(l, WHERE) || EndsWith(l, AND) <==> IsListName(column))
            && (IsListName(column) ==> column[..i] == "")
  {
    var a := ComparedWhere(columns, "FROM " + Join(Placeholders(places), ", "), column[..i]);
    StartOfName(column, i);
    BeforeEnds(Redirected(columns, places, column[..i]), a, column[..i]);
  }

  lemma StartOfName(column: string, i: nat)
    requires NameStarts(column, i) && ' ' !in column
    ensures ' ' !in column[..i] && (column[..i] == "" <==> IsListName(column))
  {
    assert column[0..] == column;
    assert NameFrom(column, 0) <==> IsListName(column);
    assert column[..i] == "" <==> i == 0;
    assert forall x | 0 <= x < i :: column[..i][x] == column[x] && column[x] in column;
  }

  lemma BeforeEnds(l: string, a: string, before: string)
    requires ' ' !in before && l == a + (WHERE + before)
    ensures EndsWith(l, WHERE) || EndsWith(l, AND) <==> before == ""
  {
    EndsLast(l, WHERE, 0);
    EndsLast(l, AND, 0);
    if before == "" {
      EndOf(a, WHERE);
      assert WHERE + before == WHERE;
    } else {
      assert l[|l| - 1] == before[|before| - 1] && before[|before| - 1] in before;
    }
  }

  /** So a list over a foreign key `..._id` reads the listed records under its own predicate. */
  lemma ForeignListCaptured(columns: string, table: string, key: string, places: seq<nat>, vars: seq<Var>, rest: string, tick: string)
    requires tick in {"", "`"} && ' ' !in key
    requires ListStatement(columns, table, key + "_id" + tick, places, vars, rest)
    ensures var column := key + "_id" + tick;
            ListText(ListComparison(columns, "FROM " + Quote(table), column, places, rest), table, vars) ==
            TrimSpace(Redirected(columns, places, column) + ListTail(places, rest))
  {
    var column := key + "_id" + tick;
    ForeignName(key, tick);
    ListColumnExact(columns, table, column, places, vars, rest);
  }

  /** And so does a negated list, without its `NOT` being looked at. */
  lemma NegatedListCaptured(columns: string, table: string, name: string, places: seq<nat>, vars: seq<Var>, rest: string)
    requires IsListName(name) && ListStatement(columns, table, "NOT" + (" " + name), places, vars, rest)
    ensures var column := "NOT" + (" " + name);
            ListText(ListComparison(columns, "FROM " + Quote(table), column, places, rest), table, vars) ==
            TrimSpace(Redirected(columns, places, column) + ListTail(places, rest))
  {
    var column := "NOT" + (" " + name);
    assert name[0..] == name;
    assert NameFrom(name, 0);
    var n := FirstInCompared(column, "NOT", name, 0);
    NotBefore(column, name, n);
    ListComparisonAt(columns, table, column, places, vars, rest, n);
    var a := ComparedWhere(columns, "FROM " + Join(Placeholders(places), ", "), "NOT ");
    NotEnds(Redirected(columns, places, "NOT "), a);
  }

  lemma NotBefore(column: string, name: string, n: nat)
    requires column == "NOT" + (" " + name) && NamedAt(column, n, name)
    ensures column[..n] == "NOT "
  {
    assert |column[n..]| == |name|;
  }

  lemma NotEnds(l: string, a: string)
    requires l == a + (WHERE + "NOT ")
    ensures !EndsWith(l, WHERE) && !EndsWith(l, AND)
  {
    assert l[|l| - 2] == 'T';
    EndsLast(l, WHERE, 1);
    EndsLast(l, AND, 1);
    assert WHERE[4] == 'E' && AND[3] == 'D';
  }

  lemma ForeignName(key: string, tick: string)
    requires tick in {"", "`"} && ' ' !in key
    ensures var c := key + "_id" + tick; ' ' !in c && PassesSearch(c) && !IsListName(c)
  {
    var c := key + "_id" + tick;
    assert ' ' !in "_id" && ' ' !in tick;
    assert tick == "" ==> c[|c| - 2..] == "id";
    assert tick == "`" ==> c[|c| - 3..] == "id`";
    assert c[|key|] == '_' && |c| == |key| + 3 + |tick|;
    if IsListName(c) {
      ListNameEnd(c, |key|);
    }
  }

  /** In a name, `id` stands at the start, or behind a backtick or the dot of the qualifier. */
  lemma ListNameEnd(c: string, n: nat)
    requires IsListName(c) && n + 3 <= |c| <= n + 4 && c[n + 1] == 'i' && c[n + 2] == 'd' && (|c| == n + 4 ==> c[n + 3] == '`')
    ensures c[n] == '`' || c[n] == '.'
  {
    if !IsBareName(c) {
      var a, name, b := QualifierSound(c);
      BehindDot(QualifierText(a, name, b), AfterQualifier(c).value, n);
    }
  }

  lemma BehindDot(q: string, d: string, n: nat)
    requires q != "" && q[|q| - 1] == '.' && IsBareName(d)
    requires n + 3 <= |q + d| <= n + 4 && (q + d)[n + 1] == 'i' && (q + d)[n + 2] == 'd' && (|q + d| == n + 4 ==> (q + d)[n + 3] == '`')
    ensures (q + d)[n] == '`' || (q + d)[n] == '.'
  {
    var c := q + d;
    assert forall x | |q| <= x < |c| :: c[x] == d[x - |q|];
    assert c[|q| - 1] == '.';
    BareChars(d);
    assert c[|c| - 1] == d[|d| - 1] && c[|c| - 2] == d[|d| - 2];
  }
}
