/**
 Lookups by record id become direct record access, by sequences of text replacements on the
 built statement: `optimizeFindByID` for one id (callback_query.go:128-169) and
 `optimizeFindByIDList` for a list of ids (callback_query.go:28-69).
 */
module FindById {
  import opened Strings
  import opened ConjunctText
  import opened OrderClause
  import opened IdListSearch
  import opened Store
  import opened Wrappers

  const QUOTED_ID := "`id` = $p1"
  const BARE_ID := "id = $p1"

  function Quote(table: string): string {
    "`" + table + "`"
  }

  /** The ten replacements that drop the id conjunct, in the order of the code: three with the
      conjunct first and more behind it, three with it behind another, three with it alone. */
  function Replacements(w: string, a: string, tq: string, quoted: string, bare: string): seq<Replacement> {
    [ Replacement(w + tq, quoted, a, w), Replacement(w, quoted, a, w), Replacement(w, bare, a, w),
      Replacement(a + tq, quoted, "", ""), Replacement(a, quoted, "", ""), Replacement(a, bare, "", ""),
      Replacement(w + tq, quoted, "", ""), Replacement(w, quoted, "", ""), Replacement(w, bare, "", ""),
      Replacement("AND ", bare, a, "AND") ]
  }

  function IdReplacements(table: string): seq<Replacement> {
    Replacements(WHERE, AND, Quote(table) + ".", QUOTED_ID, BARE_ID)
  }

  function DropIds(sql: string, table: string): string {
    Apply(sql, IdReplacements(table))
  }

  lemma EndsLast(l: string, lead: string, d: int)
    ensures EndsWith(l, lead) && 0 <= d < |lead| ==> l[|l| - 1 - d] == lead[|lead| - 1 - d]
  {
    assert EndsWith(l, lead) && 0 <= d < |lead| ==> l[|l| - |lead|..][|lead| - 1 - d] == lead[|lead| - 1 - d];
  }

  lemma EndsBoth(l: string, x: string, y: string)
    ensures EndsWith(l + y, x + y) <==> EndsWith(l, x)
  {
    if |x| <= |l| {
      var a := (l + y)[|l| - |x|..];
      assert a == l[|l| - |x|..] + y;
      assert a[..|x|] == l[|l| - |x|..] && (x + y)[..|x|] == x;
    }
  }

  /** A keyword context, told apart by its last letters. */
  lemma KeywordEnds(b: string, isFirst: bool)
    ensures var l := b + (if isFirst then WHERE else AND);
            && (EndsWith(l, WHERE) <==> isFirst)
            && (EndsWith(l, AND) <==> !isFirst)
            && (EndsWith(l, "AND ") <==> !isFirst)
  {
    var ctx := if isFirst then WHERE else AND;
    var l := b + ctx;
    assert l[|l| - |ctx|..] == ctx;
    assert l[|l| - 2] == ctx[|ctx| - 2] == if isFirst then 'E' else 'D';
    assert !isFirst ==> l[|l| - 4..] == ctx[1..] == "AND ";
    EndsLast(l, WHERE, 1);
    EndsLast(l, AND, 1);
    EndsLast(l, "AND ", 1);
  }

  lemma PlainContextEnds(b: string, isFirst: bool, tq: string)
    requires tq != [] && tq[|tq| - 1] == '.'
    ensures var l := b + (if isFirst then WHERE else AND);
            !EndsWith(l, WHERE + tq) && !EndsWith(l, AND + tq)
  {
    var l := b + (if isFirst then WHERE else AND);
    assert l[|l| - 1] == ' ';
    EndsLast(l, WHERE + tq, 0);
    EndsLast(l, AND + tq, 0);
  }

  lemma QualifiedContextEnds(k: string, tq: string)
    requires tq != [] && tq[|tq| - 1] == '.'
    ensures (EndsWith(k + tq, WHERE + tq) <==> EndsWith(k, WHERE)) && (EndsWith(k + tq, AND + tq) <==> EndsWith(k, AND))
    ensures !EndsWith(k + tq, WHERE) && !EndsWith(k + tq, AND) && !EndsWith(k + tq, "AND ")
  {
    var l := k + tq;
    EndsBoth(k, WHERE, tq);
    EndsBoth(k, AND, tq);
    assert l[|l| - 1] == '.';
    EndsLast(l, WHERE, 0);
    EndsLast(l, AND, 0);
    EndsLast(l, "AND ", 0);
  }

  /** The text before an id conjunct ends in one of four ways, and the leads of the patterns tell them apart. */
  lemma ContextEnds(b: string, isFirst: bool, qual: string, tq: string)
    requires tq != [] && tq[|tq| - 1] == '.' && qual in {"", tq}
    ensures var l := b + (if isFirst then WHERE else AND) + qual;
            && (EndsWith(l, WHERE + tq) <==> isFirst && qual == tq)
            && (EndsWith(l, WHERE) <==> isFirst && qual == "")
            && (EndsWith(l, AND + tq) <==> !isFirst && qual == tq)
            && (EndsWith(l, AND) <==> !isFirst && qual == "")
            && (EndsWith(l, "AND ") <==> !isFirst && qual == "")
  {
    var k := b + (if isFirst then WHERE else AND);
    KeywordEnds(b, isFirst);
    if qual == "" {
      assert k + qual == k;
      PlainContextEnds(b, isFirst, tq);
    } else {
      QualifiedContextEnds(k, tq);
    }
  }

  /** The text before a conjunct: a keyword and maybe the table qualifier. */
  function Lead(b: string, isFirst: bool, qual: string): string {
    b + (if isFirst then WHERE else AND) + qual
  }

  /** The id conjunct of a statement: its text `qual + k` occurs once, between `Lead` and `r`. */
  ghost predicate Located(b: string, isFirst: bool, qual: string, k: string, r: string, table: string) {
    var l := Lead(b, isFirst, qual);
    && ((k == QUOTED_ID && qual in {"", Quote(table) + "."}) || (k == BARE_ID && qual == ""))
    && OnlyAt(l + (k + r), k, |l|)
    && !Contains(l + (k + r), if k == QUOTED_ID then BARE_ID else QUOTED_ID)
    && Detached(QUOTED_ID, r) && Detached(BARE_ID, r)
  }

  lemma LocatedDrops(b: string, isFirst: bool, qual: string, k: string, r: string, table: string)
    requires Located(b, isFirst, qual, k, r, table)
    ensures !Contains(Dropped(b, isFirst, r), QUOTED_ID) && !Contains(Dropped(b, isFirst, r), BARE_ID)
  {
    var l := Lead(b, isFirst, qual);
    assert Context(b, isFirst, l);
    var other := if k == QUOTED_ID then BARE_ID else QUOTED_ID;
    assert forall i | At(l + (k + r), other, i) :: i == |l|;
    DroppedIsClean(b, isFirst, l, k, r, QUOTED_ID);
    DroppedIsClean(b, isFirst, l, k, r, BARE_ID);
  }

  /** Which of the replacements drops the conjunct. */
  function HitIndex(isFirst: bool, qual: string, k: string, r: string): nat {
    (if isFirst then (if AND <= r then 0 else 6) else 3) + (if k == BARE_ID then 2 else if qual == "" then 1 else 0)
  }

  /** `HitFits` with the constant texts abstracted to what tells them apart. */
  lemma HitFitsAny(l: string, r: string, isFirst: bool, isQualified: bool, isBare: bool,
                   w: string, a: string, tq: string, quoted: string, bare: string)
    requires quoted != bare && !(isQualified && isBare)
    requires EndsWith(l, w + tq) <==> isFirst && isQualified
    requires EndsWith(l, w) <==> isFirst && !isQualified
    requires EndsWith(l, a + tq) <==> !isFirst && isQualified
    requires EndsWith(l, a) <==> !isFirst && !isQualified
    ensures var ps := Replacements(w, a, tq, quoted, bare);
            var j := (if isFirst then (if a <= r then 0 else 6) else 3) + (if isBare then 2 else if isQualified then 0 else 1);
            var k := if isBare then bare else quoted;
            && Fits(ps[j], l, k, r) && (forall i | 0 <= i < j :: !Fits(ps[i], l, k, r))
            && ps[j].lead == (if isFirst then w else a) + (if isQualified then tq else "")
            && ps[j].to == (if isFirst && a <= r then w else "")
            && ps[j].trail == (if isFirst && a <= r then a else "")
  {
    assert w + "" == w && a + "" == a;
  }

  lemma HitFits(b: string, isFirst: bool, qual: string, k: string, r: string, table: string)
    requires (k == QUOTED_ID && qual in {"", Quote(table) + "."}) || (k == BARE_ID && qual == "")
    ensures var ps, l, j := IdReplacements(table), Lead(b, isFirst, qual), HitIndex(isFirst, qual, k, r);
            && Fits(ps[j], l, k, r) && (forall i | 0 <= i < j :: !Fits(ps[i], l, k, r))
            && |ps[j].lead| == |l| - |b|
            && Dropped(b, isFirst, r) == b + (ps[j].to + r[|ps[j].trail|..])
  {
    var tq := Quote(table) + ".";
    ContextEnds(b, isFirst, qual, tq);
    assert |QUOTED_ID| != |BARE_ID|;
    HitFitsAny(Lead(b, isFirst, qual), r, isFirst, qual == tq, k == BARE_ID, WHERE, AND, tq, QUOTED_ID, BARE_ID);
    assert "" + r[0..] == r;
  }

  /** `ApplyFirstFit` for the ten replacements, with the constant texts abstracted. */
  lemma DropAny(l: string, k: string, r: string, j: nat, d: string,
                w: string, a: string, tq: string, quoted: string, bare: string)
    requires quoted != [] && bare != [] && k in {quoted, bare} && OnlyAt(l + (k + r), k, |l|)
    requires !Contains(l + (k + r), if k == quoted then bare else quoted)
    requires !Contains(d, quoted) && !Contains(d, bare)
    requires var ps := Replacements(w, a, tq, quoted, bare);
             && j < |ps| && Fits(ps[j], l, k, r) && (forall i | 0 <= i < j :: !Fits(ps[i], l, k, r))
             && d == l[..|l| - |ps[j].lead|] + (ps[j].to + r[|ps[j].trail|..])
    ensures Apply(l + (k + r), Replacements(w, a, tq, quoted, bare)) == d
  {
    ApplyFirstFit(l, k, r, Replacements(w, a, tq, quoted, bare), j, d);
  }

  /** The replacements drop a located id conjunct, whatever its spelling and place. */
  lemma DropIdExact(b: string, isFirst: bool, qual: string, k: string, r: string, table: string)
    requires Located(b, isFirst, qual, k, r, table)
    ensures DropIds(Lead(b, isFirst, qual) + (k + r), table) == Dropped(b, isFirst, r)
  {
    var l, ps, j := Lead(b, isFirst, qual), IdReplacements(table), HitIndex(isFirst, qual, k, r);
    LocatedDrops(b, isFirst, qual, k, r, table);
    HitFits(b, isFirst, qual, k, r, table);
    assert l[..|b|] == b;
    DropAny(l, k, r, j, Dropped(b, isFirst, r), WHERE, AND, Quote(table) + ".", QUOTED_ID, BARE_ID);
  }

  // ------------------------------------------------------------- whole statements

  datatype Var = RecordIdVar(id: RecordId) | OtherVar(v: int)

  const QUOTED_ORDER := "ORDER BY `id`"

  function QualifiedOrder(table: string): string {
    "ORDER BY " + Quote(table) + ".`id`"
  }

  function OrderReplacements(table: string): seq<Replacement> {
    [Replacement("", QualifiedOrder(table), "", ""), Replacement("", QUOTED_ORDER, "", "")]
  }

  function DropOrder(sql: string, table: string): string {
    Apply(sql, OrderReplacements(table))
  }

  predicate IdFirst(vars: seq<Var>) {
    vars != [] && vars[0].RecordIdVar?
  }

  /** What the optimiser makes of the text of a statement. */
  function SingleIdText(sql: string, table: string, vars: seq<Var>): string {
    if IdFirst(vars) && table != "" && Contains(sql, "FROM " + Quote(table)) && (Contains(sql, QUOTED_ID) || Contains(sql, BARE_ID)) then
      var s1 := ReplaceFirst(sql, "FROM " + Quote(table), "FROM $p1");
      var s2 := DropIds(s1, table);
      var s3 := DropOrder(s2, table);
      ReplaceAll(s3, "  ", " ")
    else sql
  }

  /** A conjunct of the WHERE clause that is not the id lookup: its text and what it means. */
  datatype Cond = Cond(text: string, holds: Row -> bool)

  /** How the id conjunct is spelled: one id, or a list of ids (its text and the list `$p1, $p2`). */
  datatype IdStyle = Qualified | Quoted | Bare | Listed(pred: string, targets: string)

  datatype Order = Unordered | ByQualifiedId | ByQuotedId

  /** `SELECT columns FROM table WHERE before AND (the id conjunct) AND after ORDER BY id rest`. */
  datatype LookupQuery = LookupQuery(
    columns: string, table: string, before: seq<Cond>, style: IdStyle, after: seq<Cond>, order: Order, rest: string)

  function Texts(cs: seq<Cond>): seq<string> {
    seq(|cs|, i requires 0 <= i < |cs| => cs[i].text)
  }

  function Qual(q: LookupQuery): string {
    if q.style == Qualified then Quote(q.table) + "." else ""
  }

  function IdText(q: LookupQuery): string {
    if q.style.Listed? then q.style.pred else if q.style == Bare then BARE_ID else QUOTED_ID
  }

  function Target(q: LookupQuery): string {
    if q.style.Listed? then q.style.targets else "$p1"
  }

  function WhereText(ts: seq<string>): string {
    if ts == [] then "" else " " + (WHERE + Join(ts, AND))
  }

  function OrderOf(order: Order, table: string): string {
    match order
    case Unordered => ""
    case ByQualifiedId => QualifiedOrder(table)
    case ByQuotedId => QUOTED_ORDER
  }

  function OrderText(q: LookupQuery): string {
    OrderOf(q.order, q.table)
  }

  function Tail(q: LookupQuery): string {
    if q.order == Unordered then q.rest else " " + (OrderText(q) + q.rest)
  }

  /** The statement GORM builds. */
  function Print(q: LookupQuery): string {
    "SELECT " + q.columns + " " + (("FROM " + Quote(q.table)) +
      (WhereText(Texts(q.before) + [Qual(q) + IdText(q)] + Texts(q.after)) + Tail(q)))
  }

  function Head(q: LookupQuery): string {
    "SELECT " + q.columns + " " + ("FROM " + Target(q))
  }

  /** What is left where the order by id was: a blank, and everything behind it. */
  function Remnant(q: LookupQuery): string {
    if q.order == Unordered then q.rest else " " + q.rest
  }

  /** Direct record access with the remaining conjuncts and no id ordering. */
  function Direct(q: LookupQuery): string {
    Head(q) + (WhereText(Texts(q.before) + Texts(q.after)) + Remnant(q))
  }

  /** What may begin a clause behind the conditions: not the letters of BY and IN. */
  predicate ClauseLetter(c: char) {
    'A' <= c <= 'Z' && c !in "BI"
  }

  /** Behind the conditions comes nothing, an order by id and any text, or a blank and the
      keyword of another clause: GROUP, ORDER by something else, LIMIT, START, FETCH, ... */
  predicate LaterClause(q: LookupQuery) {
    q.order == Unordered ==>
      q.rest == [] || (|q.rest| > 1 && q.rest[0] == ' ' && ClauseLetter(q.rest[1]) && !(AND <= q.rest))
  }

  /** What joined conjuncts look like around one of them. */
  lemma {:induction false} JoinAround(xs: seq<string>, p: string, ys: seq<string>)
    ensures Join(xs + [p] + ys, AND) ==
            (if xs == [] then "" else Join(xs, AND) + AND) + (p + if ys == [] then "" else AND + Join(ys, AND))
  {
    if xs == [] {
      assert xs + [p] + ys == [p] + ys;
      assert ([p] + ys)[1..] == ys;
    } else {
      assert (xs + [p] + ys)[1..] == xs[1..] + [p] + ys;
      JoinAround(xs[1..], p, ys);
    }
  }

  lemma {:induction false} JoinAppend(xs: seq<string>, ys: seq<string>)
    requires xs != [] && ys != []
    ensures Join(xs + ys, AND) == Join(xs, AND) + (AND + Join(ys, AND))
  {
    assert (xs + ys)[1..] == xs[1..] + ys;
    if |xs| > 1 {
      JoinAppend(xs[1..], ys);
    }
  }

  /** The WHERE clause up to the id conjunct, and the text behind the conjunct. */
  function Before(q: LookupQuery): string {
    if q.before == [] then " " else " " + (WHERE + Join(Texts(q.before), AND))
  }

  function After(q: LookupQuery): string {
    (if q.after == [] then "" else AND + Join(Texts(q.after), AND)) + Tail(q)
  }

  function Body(q: LookupQuery): string {
    Lead(Before(q), q.before == [], Qual(q)) + (IdText(q) + After(q))
  }

  lemma BodyText(q: LookupQuery)
    ensures WhereText(Texts(q.before) + [Qual(q) + IdText(q)] + Texts(q.after)) + Tail(q) == Body(q)
  {
    var xs, p, ys := Texts(q.before), Qual(q) + IdText(q), Texts(q.after);
    JoinAround(xs, p, ys);
    var pre := if xs == [] then "" else Join(xs, AND) + AND;
    var post := if ys == [] then "" else AND + Join(ys, AND);
    BodyAssoc(" ", WHERE, pre, Qual(q), IdText(q), post, Tail(q));
    if xs == [] {
      assert " " + (WHERE + pre) == " " + WHERE;
    } else {
      BodyAssoc2(" ", WHERE, Join(xs, AND), AND);
    }
  }

  lemma BodyAssoc(a: string, w: string, pre: string, qual: string, k: string, post: string, tail: string)
    ensures (a + (w + (pre + ((qual + k) + post)))) + tail == ((a + (w + pre)) + qual) + (k + (post + tail))
  {
    Assoc(a, w, pre);
  }

  lemma BodyAssoc2(a: string, w: string, x: string, y: string)
    ensures a + (w + (x + y)) == (a + (w + x)) + y
  {
  }

  // --------------------------------------------------------- the side conditions

  function Other(q: LookupQuery): string {
    if q.style == Bare then QUOTED_ID else BARE_ID
  }

  /** The text of the id comparison stands once in the statement, in its own conjunct: no
      `user_id = $p1`, no `id = $p10`, no second copy. */
  ghost predicate IdTextOnce(q: LookupQuery) {
    && !q.style.Listed?
    && OnlyAt(Print(q), IdText(q), |Print(q)| - |IdText(q) + After(q)|)
    && !Contains(Print(q), Other(q))
    && !Contains(Head(q), QUOTED_ID) && !Contains(Head(q), BARE_ID)
  }

  /** The select list does not contain the FROM clause, and an order by id only stands in the
      order clause; an order by anything else may stand behind it or in its place. */
  ghost predicate ClausesOnce(q: LookupQuery) {
    && (forall i | 0 <= i < |"SELECT " + q.columns + " "| :: !At(Print(q), "FROM " + Quote(q.table), i))
    && !Contains(Direct(q), QualifiedOrder(q.table)) && !Contains(Direct(q), QUOTED_ORDER)
  }

  predicate TableName(t: string) {
    t != "" && t != "id" && ' ' !in t && '`' !in t
  }

  lemma KeysAvoid(k: string, c: char)
    requires k in {QUOTED_ID, BARE_ID} && ClauseLetter(c)
    ensures BlanksAvoid(k, c)
  {
  }

  lemma TailShape(q: LookupQuery)
    requires LaterClause(q)
    ensures Tail(q) == [] || (|Tail(q)| > 1 && Tail(q)[0] == ' ' && ClauseLetter(Tail(q)[1]))
    ensures !(AND <= Tail(q))
    ensures After(q) == [] || (|After(q)| > 1 && After(q)[0] == ' ' && ClauseLetter(After(q)[1]))
    ensures q.after != [] ==> After(q) == AND + (Join(Texts(q.after), AND) + Tail(q))
  {
    if q.order != Unordered {
      assert OrderText(q)[0] == 'O';
    }
    Assoc(AND, Join(Texts(q.after), AND), Tail(q));
    assert q.order != Unordered ==> Tail(q)[1] != AND[1];
  }

  lemma BodyShape(q: LookupQuery)
    ensures |Body(q)| > 1 && Body(q)[0] == ' ' && Body(q)[1] == 'W'
  {
    assert Before(q)[0] == ' ';
    var l := Lead(Before(q), q.before == [], Qual(q));
    if q.before == [] {
      assert l == " " + (WHERE + Qual(q));
    } else {
      assert l == " " + (WHERE + (Join(Texts(q.before), AND) + AND + Qual(q)));
    }
  }

  /** When the text before a body is replaced by one without `k`, the occurrences of `k` move along. */
  lemma BehindHead(h: string, body: string, text: string, k: string, i: int)
    requires Detached(k, body) && !Contains(h, k) && EndsWith(text, body) && At(h + body, k, i)
    ensures i >= |h| && At(text, k, i - |h| + |text| - |body|)
  {
    var front := text[..|text| - |body|];
    assert text == front + body;
    NoStraddle(h, body, k, i);
    AtRight(front, body, k, i - |h|);
  }

  /** `text` ends in `body`, and `k` stands in it once, `d` characters before its end. */
  ghost predicate EndsOnce(text: string, body: string, k: string, d: int) {
    EndsWith(text, body) && Detached(k, body) && OnlyAt(text, k, |text| - d)
  }

  /** The same, and `other` stands nowhere in it. */
  ghost predicate Ends(text: string, body: string, k: string, other: string, d: int) {
    EndsOnce(text, body, k, d) && Detached(other, body) && !Contains(text, other)
  }

  lemma OnceBehind(h: string, body: string, text: string, k: string, d: int)
    requires EndsOnce(text, body, k, d) && !Contains(h, k)
    ensures forall i | At(h + body, k, i) :: i == |h + body| - d
  {
    forall i | At(h + body, k, i) ensures i == |h + body| - d {
      BehindHead(h, body, text, k, i);
    }
  }

  lemma NoneBehind(h: string, body: string, text: string, k: string)
    requires Detached(k, body) && !Contains(h, k) && EndsWith(text, body) && !Contains(text, k)
    ensures !Contains(h + body, k)
  {
    forall i ensures !At(h + body, k, i) {
      if At(h + body, k, i) {
        BehindHead(h, body, text, k, i);
      }
    }
  }

  lemma PrintEnds(q: LookupQuery)
    ensures EndsWith(Print(q), Body(q))
  {
    BodyText(q);
    var a, f := "SELECT " + q.columns + " ", "FROM " + Quote(q.table);
    Assoc(a, f, Body(q));
    EndOf(a + f, Body(q));
  }

  lemma BodyDetached(q: LookupQuery, k: string)
    requires BlanksAvoid(k, 'W')
    ensures Detached(k, Body(q))
  {
    BodyShape(q);
  }

  lemma LocatedText(q: LookupQuery)
    ensures var l' := Lead(Head(q) + Before(q), q.before == [], Qual(q));
            && l' == Head(q) + Lead(Before(q), q.before == [], Qual(q))
            && l' + (IdText(q) + After(q)) == Head(q) + Body(q)
            && At(Head(q) + Body(q), IdText(q), |l'|)
  {
    var k, r := IdText(q), After(q);
    var l := Lead(Before(q), q.before == [], Qual(q));
    LeadBehind(Head(q), Before(q), q.before == [], Qual(q));
    Assoc(Head(q), l, k + r);
    IdTextStands(Head(q) + l, k, r);
  }

  lemma LeadBehind(h: string, b: string, isFirst: bool, qual: string)
    ensures Lead(h + b, isFirst, qual) == h + Lead(b, isFirst, qual)
  {
  }

  lemma LocatedInQuery(q: LookupQuery)
    requires LaterClause(q) && IdTextOnce(q)
    ensures Located(Head(q) + Before(q), q.before == [], Qual(q), IdText(q), After(q), q.table)
    ensures Lead(Head(q) + Before(q), q.before == [], Qual(q)) + (IdText(q) + After(q)) == Head(q) + Body(q)
  {
    DetachedAfter(q);
    EndsInBody(q);
    LocatedFrom(Head(q), Before(q), q.before == [], Qual(q), IdText(q), After(q), q.table, Print(q), Other(q));
  }

  lemma EndsInBody(q: LookupQuery)
    requires IdTextOnce(q)
    ensures Ends(Print(q), Body(q), IdText(q), Other(q), |IdText(q) + After(q)|)
  {
    PrintEnds(q);
    BodyKeys(q);
  }

  lemma BodyKeys(q: LookupQuery)
    ensures Detached(IdText(q), Body(q)) || q.style.Listed?
    ensures Detached(Other(q), Body(q))
  {
    KeysAvoid(QUOTED_ID, 'W');
    KeysAvoid(BARE_ID, 'W');
    BodyDetached(q, QUOTED_ID);
    BodyDetached(q, BARE_ID);
  }

  lemma LocatedFrom(h: string, b: string, isFirst: bool, qual: string, k: string, r: string, table: string,
                    text: string, other: string)
    requires Ends(text, Lead(b, isFirst, qual) + (k + r), k, other, |k + r|)
    requires !Contains(h, k) && !Contains(h, other)
    requires (k == QUOTED_ID && qual in {"", Quote(table) + "."}) || (k == BARE_ID && qual == "")
    requires other == if k == QUOTED_ID then BARE_ID else QUOTED_ID
    requires Detached(QUOTED_ID, r) && Detached(BARE_ID, r)
    ensures Located(h + b, isFirst, qual, k, r, table)
    ensures Lead(h + b, isFirst, qual) + (k + r) == h + (Lead(b, isFirst, qual) + (k + r))
  {
    var l := Lead(b, isFirst, qual);
    LeadBehind(h, b, isFirst, qual);
    Assoc(h, l, k + r);
    IdTextStands(h + l, k, r);
    OnceBehind(h, l + (k + r), text, k, |k + r|);
    NoneBehind(h, l + (k + r), text, other);
  }

  lemma DetachedAfter(q: LookupQuery)
    requires LaterClause(q)
    ensures Detached(QUOTED_ID, After(q)) && Detached(BARE_ID, After(q))
  {
    TailShape(q);
    if After(q) != [] {
      KeysAvoid(QUOTED_ID, After(q)[1]);
      KeysAvoid(BARE_ID, After(q)[1]);
    }
  }

  /** The WHERE clause that is left; it is one blank when no conjunct is left behind FROM. */
  function Left(q: LookupQuery): string {
    if q.before + q.after == [] then " " else WhereText(Texts(q.before) + Texts(q.after))
  }

  lemma DroppedText(q: LookupQuery)
    requires LaterClause(q)
    ensures Dropped(Head(q) + Before(q), q.before == [], After(q)) == (Head(q) + Left(q)) + Tail(q)
  {
    var xs, ys, h := Texts(q.before), Texts(q.after), Head(q);
    TailShape(q);
    if q.after == [] {
      assert After(q) == Tail(q) && xs + ys == xs;
      assert Left(q) == Before(q);
    } else if q.before == [] {
      assert xs + ys == ys;
      assert After(q)[|AND|..] == Join(ys, AND) + Tail(q);
      DroppedAssoc(h, " ", WHERE, Join(ys, AND), Tail(q));
    } else {
      JoinAppend(xs, ys);
      DroppedAssoc2(h, " ", WHERE, Join(xs, AND), AND + Join(ys, AND), Tail(q));
      assert After(q) == (AND + Join(ys, AND)) + Tail(q);
    }
  }

  lemma DroppedAssoc(h: string, a: string, w: string, x: string, t: string)
    ensures (h + a) + (w + (x + t)) == (h + (a + (w + x))) + t
  {
  }

  lemma DroppedAssoc2(h: string, a: string, w: string, x: string, y: string, t: string)
    ensures (h + (a + (w + x))) + (y + t) == (h + (a + (w + (x + y)))) + t
  {
  }

  // ----------------------------------------------------------- the order clause

  /** The part of the statement before the order clause. */
  function Front(q: LookupQuery): string {
    Head(q) + Left(q)
  }

  /** The statement without its order clause: one more blank is left where the clause was. */
  function Unsorted(q: LookupQuery): string {
    Front(q) + Remnant(q)
  }

  lemma OrderKeys(table: string)
    requires TableName(table)
    ensures IsOrderKey(QualifiedOrder(table)) && IsOrderKey(QUOTED_ORDER)
  {
    var t := QualifiedOrder(table);
    assert t[..10] == ORDER && t[9..] == Quote(table) + ".`id`";
    assert QUOTED_ORDER[..10] == ORDER && QUOTED_ORDER[9..] == "`id`";
  }

  lemma UnsortedKeyFree(q: LookupQuery, k: string)
    requires LaterClause(q) && IsOrderKey(k) && !Contains(Direct(q), k)
    ensures !Contains(Unsorted(q), k)
  {
    var w, h, x := WhereText(Texts(q.before) + Texts(q.after)), Head(q), Remnant(q);
    if q.before + q.after == [] {
      assert w + x == x;
      Assoc(h, " ", x);
      NoKeyWithBlank(h, x, k);
    } else {
      Assoc(h, w, x);
    }
  }

  lemma NoKeyWithBlank(h: string, x: string, k: string)
    requires IsOrderKey(k) && (x == [] || x[0] == ' ') && !Contains(h + x, k)
    ensures !Contains(h + (" " + x), k)
  {
    forall i ensures !At(h + (" " + x), k, i) {
      if At(h + (" " + x), k, i) {
        ExtraBlank(h, x, k, i);
        PartKeyFree(h, x, k, i);
        PartKeyFree(h, x, k, i - |h| - 1);
      }
    }
  }

  /** A text without `k` has parts without `k`. */
  lemma PartKeyFree(a: string, b: string, k: string, i: int)
    requires !Contains(a + b, k)
    ensures !At(a, k, i) && !At(b, k, i)
  {
    if At(a, k, i) {
      AtLeft(a, b, k, i);
    }
    if At(b, k, i) {
      AtRight(a, b, k, i);
    }
  }

  /** An order by id stands in the statement only where its clause is. */
  lemma KeyPlaceIn(f: string, o: string, r: string, k: string, i: int)
    requires IsOrderKey(o) && IsOrderKey(k) && At(f + (" " + (o + r)), k, i) && !Contains(f + (" " + r), k)
    ensures i == |f| + 1
  {
    OrderedPlace(f, o, r, k, i);
    Assoc(f, " ", r);
    PartKeyFree(f, " " + r, k, i);
    PartKeyFree(f + " ", r, k, i - |f| - 1 - |o|);
  }

  lemma OrderDropped(q: LookupQuery)
    requires LaterClause(q) && ClausesOnce(q) && TableName(q.table)
    ensures DropOrder(Front(q) + Tail(q), q.table) == Unsorted(q)
  {
    OrderKeys(q.table);
    UnsortedKeyFree(q, QualifiedOrder(q.table));
    UnsortedKeyFree(q, QUOTED_ORDER);
    if q.order == Unordered {
      NothingOrdered(Front(q) + Tail(q), q.table);
    } else {
      OrderedDropped(q);
    }
  }

  lemma NothingOrdered(s: string, table: string)
    requires !Contains(s, QualifiedOrder(table)) && !Contains(s, QUOTED_ORDER)
    ensures DropOrder(s, table) == s
  {
    ApplyNothing(s, OrderReplacements(table));
  }

  lemma OrderedDropped(q: LookupQuery)
    requires LaterClause(q) && TableName(q.table) && q.order != Unordered
    requires !Contains(Unsorted(q), QualifiedOrder(q.table)) && !Contains(Unsorted(q), QUOTED_ORDER)
    ensures DropOrder(Front(q) + Tail(q), q.table) == Unsorted(q)
  {
    OrderGone(Front(q), q.order, q.rest, q.table);
  }

  /** Behind a text, an order by id is cut out and its blank stays, whatever follows. */
  lemma OrderGone(f: string, order: Order, rest: string, table: string)
    requires order != Unordered && TableName(table)
    requires !Contains(f + (" " + rest), QualifiedOrder(table)) && !Contains(f + (" " + rest), QUOTED_ORDER)
    ensures DropOrder(f + (" " + (OrderOf(order, table) + rest)), table) == f + (" " + rest)
  {
    var o := OrderOf(order, table);
    Assoc(f, " ", o + rest);
    Assoc(f, " ", rest);
    OrderOnce(f, order, rest, table);
    OrderCut(f + " ", o, rest, table, order == ByQualifiedId);
  }

  /** An order by id that stands once is cut out. */
  lemma OrderCut(l: string, k: string, r: string, table: string, isQualified: bool)
    requires k == if isQualified then QualifiedOrder(table) else QUOTED_ORDER
    requires OnlyAt(l + (k + r), k, |l|) && !Contains(l + (k + r), if isQualified then QUOTED_ORDER else QualifiedOrder(table))
    requires !Contains(l + r, QualifiedOrder(table)) && !Contains(l + r, QUOTED_ORDER)
    ensures DropOrder(l + (k + r), table) == l + r
  {
    var ps := OrderReplacements(table);
    assert l[|l|..] == "" && l[..|l|] == l && r[0..] == r && "" + r == r;
    assert |QualifiedOrder(table)| > |QUOTED_ORDER|;
    ApplyFirstFit(l, k, r, ps, if isQualified then 0 else 1, l + r);
  }

  lemma OrderOnce(f: string, order: Order, rest: string, table: string)
    requires order != Unordered && TableName(table)
    requires !Contains(f + (" " + rest), QualifiedOrder(table)) && !Contains(f + (" " + rest), QUOTED_ORDER)
    ensures var s := (f + " ") + (OrderOf(order, table) + rest);
            && OnlyAt(s, OrderOf(order, table), |f| + 1)
            && !Contains(s, if order == ByQualifiedId then QUOTED_ORDER else QualifiedOrder(table))
  {
    var o := OrderOf(order, table);
    var s := (f + " ") + (o + rest);
    OrderKeys(table);
    Assoc(f, " ", o + rest);
    forall i | At(s, QualifiedOrder(table), i) || At(s, QUOTED_ORDER, i) ensures i == |f| + 1 {
      KeyPlaceIn(f, o, rest, if At(s, QUOTED_ORDER, i) then QUOTED_ORDER else QualifiedOrder(table), i);
    }
    OrdersDiffer(f + " ", order, rest, table);
    OneKeyAt(f + " ", o, rest, if order == ByQualifiedId then QUOTED_ORDER else QualifiedOrder(table));
  }

  lemma OneKeyAt(l: string, k: string, r: string, o: string)
    requires forall i | At(l + (k + r), k, i) || At(l + (k + r), o, i) :: i == |l|
    requires !At(l + (k + r), o, |l|)
    ensures OnlyAt(l + (k + r), k, |l|) && !Contains(l + (k + r), o)
  {
    IdTextStands(l, k, r);
  }

  lemma OrdersDiffer(l: string, order: Order, r: string, table: string)
    requires TableName(table) && order != Unordered
    ensures !At(l + (OrderOf(order, table) + r), if order == ByQualifiedId then QUOTED_ORDER else QualifiedOrder(table), |l|)
  {
    var k, o := OrderOf(order, table), if order == ByQualifiedId then QUOTED_ORDER else QualifiedOrder(table);
    AtRight(l, k + r, o, 0);
    QualifiedOrderChars(table);
    assert QUOTED_ORDER[10] == 'i' && QUOTED_ORDER[11] == 'd' && QUOTED_ORDER[12] == '`';
    Apart(o, k, r);
  }

  lemma Apart(x: string, y: string, r: string)
    requires |x| > 12 && |y| > 12 && (x[10] != y[10] || x[11] != y[11] || x[12] != y[12])
    ensures !(x <= y + r)
  {
    assert (y + r)[10] == y[10] && (y + r)[11] == y[11] && (y + r)[12] == y[12];
  }

  lemma QualifiedOrderChars(t: string)
    requires TableName(t)
    ensures var o := QualifiedOrder(t);
            |o| > 13 && !(o[10] == 'i' && o[11] == 'd' && o[12] == '`')
  {
    var o, u := QualifiedOrder(t), t + "`.`id`";
    assert o[10..] == u;
    assert o[10] == u[0] && o[11] == u[1] && o[12] == u[2];
    assert u[|t|] == '`' && forall j | 0 <= j < |t| :: u[j] == t[j] != '`';
    assert |t| == 2 && t[0] == 'i' && t[1] == 'd' ==> t == "id";
  }

  // ---------------------------------------------------------------- main result

  lemma GuardHolds(q: LookupQuery)
    requires IdTextOnce(q)
    ensures Contains(Print(q), "FROM " + Quote(q.table))
    ensures Contains(Print(q), QUOTED_ID) || Contains(Print(q), BARE_ID)
  {
    BodyText(q);
    var a, f := "SELECT " + q.columns + " ", "FROM " + Quote(q.table);
    assert Print(q) == a + (f + Body(q));
    IdTextStands(a, f, Body(q));
  }

  /** The FROM clause of a printed statement is replaced where it stands. */
  lemma FromReplaced(q: LookupQuery)
    requires forall i | 0 <= i < |"SELECT " + q.columns + " "| :: !At(Print(q), "FROM " + Quote(q.table), i)
    ensures ReplaceFirst(Print(q), "FROM " + Quote(q.table), "FROM " + Target(q)) == Head(q) + Body(q)
  {
    var a := "SELECT " + q.columns + " ";
    BodyText(q);
    var from, b := "FROM " + Quote(q.table), Body(q);
    assert Print(q) == a + (from + b);
    ReplaceFirstAt(a, from, b, "FROM " + Target(q));
    Assoc(a, "FROM " + Target(q), b);
  }

  /** The clause that is left has the words of the WHERE clause without the id conjunct. */
  lemma FrontWords(q: LookupQuery)
    ensures Words(Front(q)) == Words(Head(q) + WhereText(Texts(q.before) + Texts(q.after)))
    ensures Words(Front(q) + " ") == Words(Front(q))
  {
    assert Words(" ") == [];
    WordsAppend(Front(q), " ");
    if q.before + q.after == [] {
      WordsAppend(Head(q), " ");
      assert Head(q) + WhereText(Texts(q.before) + Texts(q.after)) == Head(q);
    }
  }

  lemma UnsortedWords(q: LookupQuery)
    requires LaterClause(q)
    ensures Words(Unsorted(q)) == Words(Direct(q))
  {
    var w, h, x := WhereText(Texts(q.before) + Texts(q.after)), Head(q), Remnant(q);
    Assoc(h, w, x);
    WordsAppend(h + w, x);
    FrontWords(q);
    WordsAppend(Front(q), x);
  }

  /**
   The lookup of one record id is rewritten, up to blanks, to direct record access with the
   same remaining conjuncts: for every spelling and place of the id conjunct, every text of
   the other conjuncts, every order by id first with whatever follows it, and every order by
   anything else and other clause.
   */
  lemma LookupBecomesDirect(q: LookupQuery, vars: seq<Var>)
    requires IdFirst(vars) && TableName(q.table) && LaterClause(q) && IdTextOnce(q) && ClausesOnce(q)
    ensures Words(SingleIdText(Print(q), q.table, vars)) == Words(Direct(q))
  {
    GuardHolds(q);
    FromReplaced(q);
    assert "FROM $p1" == "FROM " + Target(q);
    ConjunctDropped(q);
    OrderDropped(q);
    StageByStage(Print(q), q.table, vars, Head(q) + Body(q), Front(q) + Tail(q), Unsorted(q));
    SqueezeKeepsWords(Unsorted(q));
    UnsortedWords(q);
  }

  /**
   What the order by id leaves behind. `more` is what follows its first column in the order
   clause: a direction, further columns or both. The statement comes out as direct access with
   the later clauses only, exactly when there is no such text; any `DESC`, `ASC` or `,` dangles.
   */
  lemma OrderRemnantExact(q: LookupQuery, vars: seq<Var>, more: string, later: string)
    requires IdFirst(vars) && TableName(q.table) && IdTextOnce(q) && ClausesOnce(q)
    requires q.order != Unordered && q.rest == more + later && (later == [] || later[0] == ' ')
    ensures var out, h := SingleIdText(Print(q), q.table, vars), Head(q) + WhereText(Texts(q.before) + Texts(q.after));
            && Words(out) == Words(h) + Words(more) + Words(later)
            && (Words(out) == Words(h + later) <==> Words(more) == [])
  {
    LookupBecomesDirect(q, vars);
    var w := WhereText(Texts(q.before) + Texts(q.after));
    var h := Head(q) + w;
    Assoc(Head(q), w, " " + q.rest);
    WordsAppend(h, " " + q.rest);
    LeadingBlank(q.rest);
    WordsAppend(more, later);
    WordsAppend(h, later);
    Assoc(Words(h), Words(more), Words(later));
    SameLengths(Words(h), Words(more), Words(later));
  }

  lemma SameLengths(a: seq<string>, b: seq<string>, c: seq<string>)
    ensures a + b + c == a + c <==> b == []
  {
    assert |a + b + c| == |a + c| <==> b == [];
    assert b == [] ==> a + b == a;
  }

  lemma ConjunctDropped(q: LookupQuery)
    requires LaterClause(q) && IdTextOnce(q) && TableName(q.table)
    ensures DropIds(Head(q) + Body(q), q.table) == Front(q) + Tail(q)
  {
    LocatedInQuery(q);
    DroppedText(q);
    DropIdFrom(Head(q) + Body(q), Head(q) + Before(q), q.before == [], Qual(q), IdText(q), After(q), q.table, Front(q) + Tail(q));
  }

  lemma DropIdFrom(s: string, b: string, isFirst: bool, qual: string, k: string, r: string, table: string, out: string)
    requires Located(b, isFirst, qual, k, r, table)
    requires Lead(b, isFirst, qual) + (k + r) == s && Dropped(b, isFirst, r) == out
    ensures DropIds(s, table) == out
  {
    DropIdExact(b, isFirst, qual, k, r, table);
  }

  lemma StageByStage(sql: string, table: string, vars: seq<Var>, s1: string, s2: string, s3: string)
    requires IdFirst(vars) && table != "" && Contains(sql, "FROM " + Quote(table)) && (Contains(sql, QUOTED_ID) || Contains(sql, BARE_ID))
    requires ReplaceFirst(sql, "FROM " + Quote(table), "FROM $p1") == s1
    requires DropIds(s1, table) == s2 && DropOrder(s2, table) == s3
    ensures SingleIdText(sql, table, vars) == ReplaceAll(s3, "  ", " ")
  {
  }

  /** What stands before the id text and behind it. */
  function Ahead(q: LookupQuery): string {
    "SELECT " + q.columns + " " + ("FROM " + Quote(q.table)) + Lead(Before(q), q.before == [], Qual(q))
  }

  function Behind(q: LookupQuery): string {
    (if q.after == [] then "" else AND + Join(Texts(q.after), AND)) + (if q.order == Unordered then "" else " " + OrderText(q))
  }

  lemma PrintParts(q: LookupQuery)
    ensures Print(q) == Ahead(q) + (IdText(q) + (Behind(q) + q.rest))
    ensures After(q) == Behind(q) + q.rest
  {
    BodyText(q);
    var a, f, l := "SELECT " + q.columns + " ", "FROM " + Quote(q.table), Lead(Before(q), q.before == [], Qual(q));
    var j := if q.after == [] then "" else AND + Join(Texts(q.after), AND);
    if q.order == Unordered {
      assert Behind(q) == j;
    } else {
      Assoc(" ", OrderText(q), q.rest);
      Assoc(j, " " + OrderText(q), q.rest);
    }
    Assoc(a, f, l + (IdText(q) + After(q)));
    Assoc(a + f, l, IdText(q) + After(q));
  }

  /** The key texts end in the only `$` of them, followed by `p1`. */
  lemma KeyDollar(k: string)
    requires k in {QUOTED_ID, BARE_ID}
    ensures |k| > 3 && k[|k| - 3] == '$' && k[|k| - 2] == 'p' && k[|k| - 1] == '1'
    ensures forall i | 0 <= i < |k| && k[i] == '$' :: i == |k| - 3
  {
  }

  lemma NoPlaceIn(r: string, e: int)
    requires !Contains(r, "$p1")
    ensures !(0 <= e && e + 3 <= |r| && r[e] == '$' && r[e + 1] == 'p' && r[e + 2] == '1')
  {
    if 0 <= e && e + 3 <= |r| {
      assert !At(r, "$p1", e);
      assert r[e..e + 3] == [r[e], r[e + 1], r[e + 2]];
    }
  }

  /** In a text of four parts, the first and third without `$`, where a `$p1` can stand. */
  lemma DollarPlace(a: string, m: string, b: string, r: string, d: int)
    requires '$' !in a && '$' !in b && !Contains(r, "$p1")
    ensures var s := a + (m + (b + r));
            0 <= d && d + 3 <= |s| && s[d] == '$' && s[d + 1] == 'p' && s[d + 2] == '1' ==>
              |a| <= d < |a| + |m| && m[d - |a|] == '$'
  {
    var s, e := a + (m + (b + r)), d - |a| - |m| - |b|;
    assert 0 <= d < |a| ==> s[d] == a[d] && a[d] in a;
    assert |a| + |m| <= d < |a| + |m| + |b| ==> s[d] == b[d - |a| - |m|] && b[d - |a| - |m|] in b;
    NoPlaceIn(r, e);
  }

  /** With no `$` around it, an occurrence of a key text ends where the id text ends. */
  lemma KeyByDollar(q: LookupQuery, k: string, i: int)
    requires !q.style.Listed? && k in {QUOTED_ID, BARE_ID} && At(Print(q), k, i)
    requires '$' !in Ahead(q) && '$' !in Behind(q) && !Contains(q.rest, "$p1")
    ensures i + |k| == |Ahead(q)| + |IdText(q)|
  {
    PrintParts(q);
    KeyDollar(k);
    KeyDollar(IdText(q));
    AtChars(Print(q), k, i);
    DollarPlace(Ahead(q), IdText(q), Behind(q), q.rest, i + |k| - 3);
  }

  lemma KeysEndAlike(s: string, e: int)
    requires At(s, QUOTED_ID, e - |QUOTED_ID|)
    ensures !At(s, BARE_ID, e - |BARE_ID|)
  {
    AtChars(s, QUOTED_ID, e - |QUOTED_ID|);
    AtChars(s, BARE_ID, e - |BARE_ID|);
    assert s[e - 8] == QUOTED_ID[2] == 'd';
    assert BARE_ID[0] == 'i';
  }

  lemma IdTextStands(a: string, k: string, b: string)
    ensures At(a + (k + b), k, |a|)
  {
    AtRight(a, k + b, k, 0);
    AtLeft(k, b, k, 0);
  }

  /** A simple way to meet the condition: no `$` in the rest of the statement up to the later
      clauses, and no `$p1...` in those. */
  lemma NoOtherParameter(q: LookupQuery)
    requires !q.style.Listed?
    requires '$' !in Ahead(q) && '$' !in Behind(q) && !Contains(q.rest, "$p1")
    requires !Contains(Head(q), QUOTED_ID) && !Contains(Head(q), BARE_ID)
    ensures IdTextOnce(q)
  {
    KeyHere(q);
    OtherNowhere(q);
  }

  lemma KeyHere(q: LookupQuery)
    requires !q.style.Listed?
    requires '$' !in Ahead(q) && '$' !in Behind(q) && !Contains(q.rest, "$p1")
    ensures OnlyAt(Print(q), IdText(q), |Print(q)| - |IdText(q) + After(q)|)
  {
    var n := |Ahead(q)|;
    PrintParts(q);
    IdTextStands(Ahead(q), IdText(q), Behind(q) + q.rest);
    assert n == |Print(q)| - |IdText(q) + After(q)|;
    forall i | At(Print(q), IdText(q), i) ensures i == n {
      KeyByDollar(q, IdText(q), i);
    }
  }

  lemma OtherNowhere(q: LookupQuery)
    requires !q.style.Listed?
    requires '$' !in Ahead(q) && '$' !in Behind(q) && !Contains(q.rest, "$p1")
    ensures !Contains(Print(q), Other(q))
  {
    forall i ensures !At(Print(q), Other(q), i) {
      OtherNotAt(q, i);
    }
  }

  lemma OtherNotAt(q: LookupQuery, i: int)
    requires !q.style.Listed?
    requires '$' !in Ahead(q) && '$' !in Behind(q) && !Contains(q.rest, "$p1")
    ensures !At(Print(q), Other(q), i)
  {
    var n := IdTextPlace(q);
    if At(Print(q), Other(q), i) {
      KeyByDollar(q, Other(q), i);
      KeysEndApart(Print(q), IdText(q), n, Other(q), i);
    }
  }

  /** The two key texts do not end at the same place. */
  lemma KeysEndApart(s: string, k: string, n: int, o: string, i: int)
    requires k in {QUOTED_ID, BARE_ID} && o in {QUOTED_ID, BARE_ID} && k != o
    requires At(s, k, n) && At(s, o, i)
    ensures i + |o| != n + |k|
  {
    if i + |o| == n + |k| {
      KeysEndAlike(s, n + |k|);
    }
  }

  lemma IdTextPlace(q: LookupQuery) returns (n: nat)
    ensures n == |Ahead(q)| && At(Print(q), IdText(q), n)
  {
    PrintParts(q);
    IdTextStands(Ahead(q), IdText(q), Behind(q) + q.rest);
    n := |Ahead(q)|;
  }

  /** A descending order by id loses its clause but not its `DESC`. */
  lemma DescendingDangles(q: LookupQuery, vars: seq<Var>, later: string)
    requires IdFirst(vars) && TableName(q.table) && IdTextOnce(q) && ClausesOnce(q)
    requires q.order != Unordered && q.rest == " DESC" + later && (later == [] || later[0] == ' ')
    ensures "DESC" in Words(SingleIdText(Print(q), q.table, vars))
  {
    OrderRemnantExact(q, vars, " DESC", later);
    DescWord();
  }

  lemma DescWord()
    ensures Words(" DESC") == ["DESC"]
  {
    var w := "DESC";
    LeadingBlank(w);
    LeadingWord(w, "");
    assert w + "" == w;
  }

  // -------------------------------------------------------------- the rows selected

  predicate HoldsAll(cs: seq<Cond>, r: Row) {
    forall i | 0 <= i < |cs| :: cs[i].holds(r)
  }

  /** The rows of `FROM table WHERE before AND id = $p1 AND after`. */
  function LookupRows(q: LookupQuery, db: Database, id: RecordId): seq<Row> {
    Filter(Rows(db, q.table), (r: Row) => HoldsAll(q.before, r) && r.id == id && HoldsAll(q.after, r))
  }

  /** The rows of `FROM $p1 WHERE before AND after`. */
  function DirectRows(q: LookupQuery, db: Database, id: RecordId): seq<Row> {
    Filter(Fetch(db, id), (r: Row) => HoldsAll(q.before + q.after, r))
  }

  lemma HoldsAppend(xs: seq<Cond>, ys: seq<Cond>, r: Row)
    ensures HoldsAll(xs + ys, r) <==> HoldsAll(xs, r) && HoldsAll(ys, r)
  {
    if HoldsAll(xs + ys, r) {
      forall i | 0 <= i < |xs| ensures xs[i].holds(r) { assert (xs + ys)[i] == xs[i]; }
      forall i | 0 <= i < |ys| ensures ys[i].holds(r) { assert (xs + ys)[|xs| + i] == ys[i]; }
    }
  }

  /** On the id's own table, both statements select the same rows, at most one; so every later
      clause (order by id, LIMIT, START, FETCH) sees the same input. */
  lemma LookupKeepsRows(q: LookupQuery, db: Database, id: RecordId)
    requires WellFormed(db) && id.table == q.table
    ensures DirectRows(q, db, id) == LookupRows(q, db, id) && |LookupRows(q, db, id)| <= 1
  {
    var rows := Rows(db, q.table);
    var p, h := (r: Row) => r.id == id, (r: Row) => HoldsAll(q.before + q.after, r);
    FilterTwice(rows, p, h);
    forall r | r in rows ensures (p(r) && h(r)) == (HoldsAll(q.before, r) && r.id == id && HoldsAll(q.after, r)) {
      HoldsAppend(q.before, q.after, r);
    }
    FilterSame(rows, (r: Row) => p(r) && h(r), (r: Row) => HoldsAll(q.before, r) && r.id == id && HoldsAll(q.after, r));
    AtMostOne(rows, (r: Row) => HoldsAll(q.before, r) && r.id == id && HoldsAll(q.after, r), id);
  }

  /**
   The code does not compare the table of the record id with the table of the statement. With
   an id of another table the two statements agree exactly when that record fails the other
   conjuncts or does not exist.
   */
  lemma ForeignIdExact(q: LookupQuery, db: Database, id: RecordId)
    requires WellFormed(db) && id.table != q.table
    ensures LookupRows(q, db, id) == []
    ensures DirectRows(q, db, id) == LookupRows(q, db, id) <==>
            forall r | r in Rows(db, id.table) && r.id == id :: !HoldsAll(q.before + q.after, r)
  {
    var p := (r: Row) => HoldsAll(q.before, r) && r.id == id && HoldsAll(q.after, r);
    if LookupRows(q, db, id) != [] {
      var r := LookupRows(q, db, id)[0];
      FilterMember(Rows(db, q.table), p, r);
    }
    var h, e := (r: Row) => HoldsAll(q.before + q.after, r), (r: Row) => r.id == id;
    forall r ensures r in DirectRows(q, db, id) <==> r in Rows(db, id.table) && r.id == id && h(r) {
      FilterMember(Fetch(db, id), h, r);
      FilterMember(Rows(db, id.table), e, r);
    }
    if DirectRows(q, db, id) != [] {
      assert DirectRows(q, db, id)[0] in DirectRows(q, db, id);
    }
  }

  // ------------------------------------------------------------------- id lists

  function ListReplacements(pred: string): seq<Replacement> {
    [Replacement(WHERE, pred, AND, WHERE), Replacement(AND, pred, "", ""), Replacement(WHERE, pred, "", "")]
  }

  /** Every placeholder of the list is bound to a record id. */
  predicate PlacesAreIds(phs: seq<string>, vars: seq<Var>)
    requires forall i | 0 <= i < |phs| :: IsPlace(phs[i])
  {
    forall i | 0 <= i < |phs| :: 1 <= PlaceNumber(phs[i]) <= |vars| && vars[PlaceNumber(phs[i]) - 1].RecordIdVar?
  }

  function ListText(sql: string, table: string, vars: seq<Var>): string {
    if table == "" || vars == [] then sql
    else
      match Search(sql)
      case None => sql
      case Some(m) =>
        var phs := FindPlaces(m.inner);
        if phs == [] || !PlacesAreIds(phs, vars) then sql
        else TrimSpace(Apply(ReplaceFirst(sql, "FROM " + Quote(table), "FROM " + Join(phs, ", ")), ListReplacements(m.pred)))
  }

  /** The loop over the placeholders of the list. */
  method CheckPlaces(phs: seq<string>, vars: seq<Var>) returns (bound: bool)
    requires forall i | 0 <= i < |phs| :: IsPlace(phs[i])
    ensures bound <==> PlacesAreIds(phs, vars)
  {
    for i := 0 to |phs|
      invariant forall k | 0 <= k < i :: 1 <= PlaceNumber(phs[k]) <= |vars| && vars[PlaceNumber(phs[k]) - 1].RecordIdVar?
    {
      var idx := PlaceNumber(phs[i]);
      if idx < 1 || idx > |vars| || !vars[idx - 1].RecordIdVar? {
        return false;
      }
    }
    bound := true;
  }

  lemma ListUnchanged(sql: string, table: string, vars: seq<Var>)
    requires table == "" || vars == [] || Search(sql) == None ||
             FindPlaces(Search(sql).value.inner) == [] || !PlacesAreIds(FindPlaces(Search(sql).value.inner), vars)
    ensures ListText(sql, table, vars) == sql
  {
  }

  /** What a statement has that is changed. */
  lemma ListGuards(sql: string, table: string, vars: seq<Var>)
    requires ListText(sql, table, vars) != sql
    ensures table != "" && Search(sql).Some?
    ensures var phs := FindPlaces(Search(sql).value.inner);
            phs != [] && forall i | 0 <= i < |phs| :: 1 <= PlaceNumber(phs[i]) <= |vars| && vars[PlaceNumber(phs[i]) - 1].RecordIdVar?
  {
    ListChanged(sql, table, vars);
    var phs := FindPlaces(Search(sql).value.inner);
    AllBound(phs, vars);
  }

  lemma ListChanged(sql: string, table: string, vars: seq<Var>)
    requires ListText(sql, table, vars) != sql
    ensures table != "" && Search(sql).Some?
    ensures var phs := FindPlaces(Search(sql).value.inner); phs != [] && PlacesAreIds(phs, vars)
  {
  }

  lemma AllBound(phs: seq<string>, vars: seq<Var>)
    requires (forall i | 0 <= i < |phs| :: IsPlace(phs[i])) && PlacesAreIds(phs, vars)
    ensures forall i | 0 <= i < |phs| :: 1 <= PlaceNumber(phs[i]) <= |vars| && vars[PlaceNumber(phs[i]) - 1].RecordIdVar?
  {
  }

  lemma ListSteps(sql: string, table: string, vars: seq<Var>, m: Match, s1: string, s2: string)
    requires table != "" && vars != [] && Search(sql) == Some(m) && m.pred != ""
    requires FindPlaces(m.inner) != [] && PlacesAreIds(FindPlaces(m.inner), vars)
    requires ReplaceFirst(sql, "FROM " + Quote(table), "FROM " + Join(FindPlaces(m.inner), ", ")) == s1
    requires Apply(s1, ListReplacements(m.pred)) == s2
    ensures ListText(sql, table, vars) == TrimSpace(s2)
  {
  }

  lemma QuotedFrom(table: string)
    ensures "FROM " + Quote(table) == "FROM `" + table + "`"
  {
  }

  /** The built statement, as GORM hands it to the query callback. */
  class Statement {
    var sql: string
    const table: string
    const vars: seq<Var>

    constructor (s: string, t: string, vs: seq<Var>)
      ensures sql == s && table == t && vars == vs
    {
      sql, table, vars := s, t, vs;
    }

    method OptimizeFindByID()
      modifies this
      ensures sql == SingleIdText(old(sql), table, vars)
      ensures sql != old(sql) ==>
                && vars != [] && vars[0].RecordIdVar? && table != ""
                && Contains(old(sql), "FROM `" + table + "`")
                && (Contains(old(sql), "`id` = $p1") || Contains(old(sql), "id = $p1"))
    {
      QuotedFrom(table);
      if |vars| >= 1 {
        var isRecordId := vars[0].RecordIdVar?;
        if isRecordId && table != "" {
          var quoted := Quote(table);
          if Contains(sql, "FROM " + quoted) && (Contains(sql, QUOTED_ID) || Contains(sql, BARE_ID)) {
            var s := ReplaceFirst(sql, "FROM " + quoted, "FROM $p1");
            s := ApplySteps(s, IdReplacements(table));
            s := ApplySteps(s, OrderReplacements(table));
            s := ReplaceAll(s, "  ", " ");
            sql := s;
          }
        }
      }
    }

    method OptimizeFindByIDList()
      modifies this
      ensures sql == ListText(old(sql), table, vars)
    {
      var m := Search(sql);
      if table == "" || vars == [] || m.None? {
        ListUnchanged(sql, table, vars);
        return;
      }
      var phs := FindPlaces(m.value.inner);
      if phs == [] {
        ListUnchanged(sql, table, vars);
        return;
      }
      var bound := CheckPlaces(phs, vars);
      if !bound {
        ListUnchanged(sql, table, vars);
        return;
      }
      var s1 := ReplaceFirst(sql, "FROM " + Quote(table), "FROM " + Join(phs, ", "));
      var s := ApplySteps(s1, ListReplacements(m.value.pred));
      ListSteps(sql, table, vars, m.value, s1, s);
      sql := TrimSpace(s);
    }
  }
}
