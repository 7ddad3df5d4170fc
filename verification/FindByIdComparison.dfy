/**
 Which comparisons `optimizeFindByID` takes for a lookup by id (callback_query.go:136-166): any
 statement `SELECT columns FROM table WHERE cond = $p1...`, whatever the condition up to the
 sign and whatever stands behind the parameter.
 */
module FindByIdComparison {
  import opened Strings
  import opened Decimal
  import opened ConjunctText
  import opened OrderClause
  import opened IdListSearch
  import opened FindById

  const EQUALS_P1 := " = $p1"

  /** The text of a statement up to the sign of the comparison. */
  function Compared(columns: string, from: string, cond: string): string {
    "SELECT " + columns + " " + (from + (" WHERE " + cond))
  }

  /** `SELECT columns from WHERE cond = $p1r`. */
  function Comparison(columns: string, from: string, cond: string, r: string): string {
    Compared(columns, from, cond) + (EQUALS_P1 + r)
  }

  /** The guard looks at the end of the condition only. */
  predicate PassesGuard(cond: string) {
    EndsWith(cond, "id") || EndsWith(cond, "`id`")
  }

  /** The three spellings of the id column. */
  function IdNames(table: string): set<string> {
    {"id", "`id`", Quote(table) + "." + "`id`"}
  }

  /** The id conjuncts the replacements know, up to the sign. */
  function IdConjuncts(table: string): seq<string> {
    var q := Quote(table) + "." + "`id`";
    [WHERE + "id", WHERE + "`id`", WHERE + q, AND + "id", AND + "`id`", AND + q]
  }

  /** The length of the first of these texts that ends `x`, or 0. */
  function CutLength(x: string, ps: seq<string>): (n: nat)
    ensures n <= |x|
  {
    if ps == [] then 0 else if EndsWith(x, ps[0]) then |ps[0]| else CutLength(x, ps[1..])
  }

  /** An `AND` not led by a blank, which only the last replacement takes. */
  predicate JoinsAnd(x: string, r: string) {
    EndsWith(x, "AND id") && AND <= r
  }

  /**
   What the ten replacements are for and what they do besides, on the statement `x = $p1r`: a text
   that ends in an id conjunct loses it and ` = $p1`; behind an `AND` without a blank the two
   conjuncts are run together; every other text stays.
   */
  function Outcome(x: string, table: string, r: string): string {
    var n := CutLength(x, IdConjuncts(table));
    if n > 0 then Dropped(x[..|x| - n], WHERE <= x[|x| - n..], r)
    else if JoinsAnd(x, r) then x[..|x| - 3] + r[|AND|..]
    else x + (EQUALS_P1 + r)
  }

  predicate Stays(x: string, table: string, r: string) {
    CutLength(x, IdConjuncts(table)) == 0 && !JoinsAnd(x, r)
  }

  // ------------------------------------------------------------- the key texts

  /** Wherever a key text stands in `x = $p1r`, it ends with this `$p1`. */
  ghost predicate KeysOnce(x: string, r: string) {
    forall k, i | k in {QUOTED_ID, BARE_ID} && At(x + (EQUALS_P1 + r), k, i) :: i + |k| == |x| + |EQUALS_P1|
  }

  ghost predicate NoKey(s: string) {
    !Contains(s, QUOTED_ID) && !Contains(s, BARE_ID)
  }

  lemma KeyTail(k: string)
    requires k in {QUOTED_ID, BARE_ID}
    ensures |k| >= 8 && k[|k| - 5..] == "= $p1"
    ensures k == (if k == BARE_ID then "id" else "`id`") + EQUALS_P1
  {
  }

  lemma KeyOf(name: string)
    requires name in {"id", "`id`"}
    ensures name + EQUALS_P1 == if name == "id" then BARE_ID else QUOTED_ID
  {
  }

  /** A simple way to meet the condition: no `= $p1...` before or behind. */
  lemma SignOnce(x: string, r: string)
    requires !Contains(x, "= $p1") && !Contains(r, "= $p1")
    ensures KeysOnce(x, r)
  {
    forall k, i | k in {QUOTED_ID, BARE_ID} && At(x + (EQUALS_P1 + r), k, i) ensures i + |k| == |x| + |EQUALS_P1| {
      KeyTail(k);
      SignIn(x + (EQUALS_P1 + r), k, i);
      SignPlace(x, r, i + |k| - 5);
    }
  }

  lemma SignIn(s: string, k: string, i: int)
    requires |k| >= 5 && k[|k| - 5..] == "= $p1" && At(s, k, i)
    ensures At(s, "= $p1", i + |k| - 5)
  {
    assert s[i + |k| - 5..i + |k|] == s[i..i + |k|][|k| - 5..];
  }

  lemma SignPlace(x: string, r: string, i: int)
    requires !Contains(x, "= $p1") && !Contains(r, "= $p1") && At(x + (EQUALS_P1 + r), "= $p1", i)
    ensures i == |x| + 1
  {
    var s, p := x + (EQUALS_P1 + r), "= $p1";
    AtChars(s, p, i);
    assert p[0] == '=' && p[1] == ' ' && p[2] == '$' && p[3] == 'p' && p[4] == '1';
    assert forall y | |x| <= y < |x| + 6 :: s[y] == EQUALS_P1[y - |x|];
    assert s[|x|] == ' ' && s[|x| + 1] == '=' && s[|x| + 2] == ' ' && s[|x| + 3] == '$' && s[|x| + 4] == 'p' && s[|x| + 5] == '1';
    if i + 5 <= |x| {
      AtLeft(x, EQUALS_P1 + r, p, i);
    } else if i >= |x| + 6 {
      assert s == (x + EQUALS_P1) + r;
      AtRight(x + EQUALS_P1, r, p, i - |x| - 6);
    }
  }

  /** The guard, on a text with the key texts in one place. */
  lemma KeyContained(x: string, r: string, name: string)
    requires name in {"id", "`id`"} && KeysOnce(x, r)
    ensures Contains(x + (EQUALS_P1 + r), name + EQUALS_P1) <==> EndsWith(x, name)
  {
    var s, k := x + (EQUALS_P1 + r), name + EQUALS_P1;
    KeyOf(name);
    if i :| 0 <= i <= |s| && At(s, k, i) {
      KeyMeetsSign(x, r, name, i);
    }
    if EndsWith(x, name) {
      KeyStands(x, r, name);
    }
  }

  lemma KeyMeetsSign(x: string, r: string, name: string, i: int)
    requires At(x + (EQUALS_P1 + r), name + EQUALS_P1, i) && i == |x| - |name|
    ensures EndsWith(x, name)
  {
    var s, k := x + (EQUALS_P1 + r), name + EQUALS_P1;
    assert x[i..] == s[i..i + |k|][..|name|] == name;
  }

  lemma KeyStands(x: string, r: string, name: string)
    requires EndsWith(x, name)
    ensures x + (EQUALS_P1 + r) == x[..|x| - |name|] + ((name + EQUALS_P1) + r)
    ensures At(x + (EQUALS_P1 + r), name + EQUALS_P1, |x| - |name|)
  {
    var l := x[..|x| - |name|];
    assert x == l + name;
    assert x + (EQUALS_P1 + r) == l + ((name + EQUALS_P1) + r);
    IdTextStands(l, name + EQUALS_P1, r);
  }

  lemma OneName(x: string)
    ensures !(EndsWith(x, "id") && EndsWith(x, "`id`"))
  {
    EndsLast(x, "id", 0);
    EndsLast(x, "`id`", 0);
  }

  /** Of the two key texts such a statement holds one, once. */
  lemma KeyAlone(x: string, r: string, name: string)
    requires name in {"id", "`id`"} && EndsWith(x, name) && KeysOnce(x, r)
    ensures OnlyAt(x + (EQUALS_P1 + r), name + EQUALS_P1, |x| - |name|)
    ensures !Contains(x + (EQUALS_P1 + r), if name == "`id`" then BARE_ID else QUOTED_ID)
  {
    KeyOf("id");
    KeyOf("`id`");
    KeyStands(x, r, name);
    OneName(x);
    KeyContained(x, r, "id");
    KeyContained(x, r, "`id`");
  }

  // -------------------------------------------------------- the ten replacements

  lemma {:induction false} CutLengthExact(x: string, ps: seq<string>)
    requires forall p | p in ps :: p != ""
    ensures var n := CutLength(x, ps);
            if n > 0 then x[|x| - n..] in ps else forall p | p in ps :: !EndsWith(x, p)
  {
    assert ps != [] ==> ps[0] in ps;
    if ps != [] && !EndsWith(x, ps[0]) {
      assert forall p :: p in ps <==> p == ps[0] || p in ps[1..];
      CutLengthExact(x, ps[1..]);
    }
  }

  /** An id conjunct at the end of a text: its keyword and its name. */
  lemma ConjunctName(x: string, table: string) returns (o: string, lead: string)
    requires CutLength(x, IdConjuncts(table)) > 0
    ensures o in IdNames(table) && lead in {WHERE, AND} && EndsWith(x, lead + o)
    ensures CutLength(x, IdConjuncts(table)) == |lead + o| && (lead == WHERE <==> WHERE <= x[|x| - |lead + o|..])
  {
    var ps := IdConjuncts(table);
    CutLengthExact(x, ps);
    var p := x[|x| - CutLength(x, ps)..];
    var i :| 0 <= i < 6 && ps[i] == p;
    o, lead := ConjunctAt(table, i);
    LeadIs(lead, o);
  }

  lemma ConjunctAt(table: string, i: nat) returns (o: string, lead: string)
    requires i < 6
    ensures o in IdNames(table) && lead in {WHERE, AND} && IdConjuncts(table)[i] == lead + o
  {
    lead := if i < 3 then WHERE else AND;
    o := if i % 3 == 0 then "id" else if i % 3 == 1 then "`id`" else Quote(table) + "." + "`id`";
  }

  lemma LeadIs(lead: string, o: string)
    requires lead in {WHERE, AND}
    ensures lead == WHERE <==> WHERE <= lead + o
  {
    assert (lead + o)[0] == lead[0];
    assert lead == WHERE ==> (lead + o)[..|WHERE|] == WHERE;
  }

  lemma ConjunctKnown(x: string, lead: string, o: string, table: string)
    requires lead in {WHERE, AND} && o in IdNames(table) && EndsWith(x, lead + o)
    ensures CutLength(x, IdConjuncts(table)) > 0
  {
    var ps := IdConjuncts(table);
    var i := (if lead == WHERE then 0 else 3) + (if o == "id" then 0 else if o == "`id`" then 1 else 2);
    assert ps[i] == lead + o;
    CutLengthExact(x, ps);
  }

  /** How the names of the id column end. */
  lemma NameEnds(o: string, table: string)
    requires o in IdNames(table)
    ensures o == "id" || (o == (if o == "`id`" then "" else Quote(table) + ".") + "`id`")
    ensures o[|o| - 1] == if o == "id" then 'd' else '`'
  {
  }

  lemma TailChar(x: string, name: string, p: string, o: string)
    requires name != "" && o != "" && EndsWith(x, name) && EndsWith(x, p) && EndsWith(p, o)
    ensures o[|o| - 1] == name[|name| - 1]
  {
    EndsLast(x, name, 0);
    EndsLast(x, p, 0);
    EndsLast(p, o, 0);
  }

  /** An id conjunct at the end of a text, split at its name. */
  lemma ConjunctSplit(x: string, name: string, table: string) returns (b: string, isFirst: bool, qual: string)
    requires name in {"id", "`id`"} && EndsWith(x, name) && CutLength(x, IdConjuncts(table)) > 0
    ensures x[..|x| - |name|] == Lead(b, isFirst, qual) && (qual == "" || (name == "`id`" && qual == Quote(table) + "."))
    ensures var n := CutLength(x, IdConjuncts(table)); b == x[..|x| - n] && (isFirst <==> WHERE <= x[|x| - n..])
  {
    var o, lead := ConjunctName(x, table);
    TailChar(x, name, lead + o, o);
    b, isFirst := x[..|x| - |lead + o|], lead == WHERE;
    qual := Qualified(o, name, table);
    SplitAtName(x, b, lead, qual, name);
  }

  lemma Qualified(o: string, name: string, table: string) returns (qual: string)
    requires name in {"id", "`id`"} && o in IdNames(table) && o[|o| - 1] == name[|name| - 1]
    ensures o == qual + name && (qual == "" || (name == "`id`" && qual == Quote(table) + "."))
  {
    NameEnds(o, table);
    qual := if o == "id" || o == "`id`" then "" else Quote(table) + ".";
    assert "" + name == name;
  }

  lemma SplitAtName(x: string, b: string, lead: string, qual: string, name: string)
    requires EndsWith(x, lead + (qual + name)) && b == x[..|x| - |lead + (qual + name)|]
    ensures x[..|x| - |name|] == b + lead + qual
  {
    assert x == b + (lead + (qual + name));
    assert x == (b + lead + qual) + name;
  }

  /** The replacements drop an id conjunct and keep what stands around it, when no key text
      arises where the text closes up. */
  lemma DropConjunct(x: string, name: string, r: string, table: string)
    requires name in {"id", "`id`"} && EndsWith(x, name) && KeysOnce(x, r) && CutLength(x, IdConjuncts(table)) > 0
    requires NoKey(Outcome(x, table, r))
    ensures DropIds(x + (EQUALS_P1 + r), table) == Outcome(x, table, r)
  {
    var k := name + EQUALS_P1;
    var b, isFirst, qual := ConjunctSplit(x, name, table);
    KeyAlone(x, r, name);
    KeyStands(x, r, name);
    KeyOf(name);
    DropAt(b, isFirst, qual, k, r, table);
  }

  lemma DropAt(b: string, isFirst: bool, qual: string, k: string, r: string, table: string)
    requires (k == QUOTED_ID && qual in {"", Quote(table) + "."}) || (k == BARE_ID && qual == "")
    requires var l := Lead(b, isFirst, qual);
             OnlyAt(l + (k + r), k, |l|) && !Contains(l + (k + r), if k == QUOTED_ID then BARE_ID else QUOTED_ID)
    requires NoKey(Dropped(b, isFirst, r))
    ensures DropIds(Lead(b, isFirst, qual) + (k + r), table) == Dropped(b, isFirst, r)
  {
    var l, j := Lead(b, isFirst, qual), HitIndex(isFirst, qual, k, r);
    HitFits(b, isFirst, qual, k, r, table);
    assert l[..|b|] == b;
    DropAny(l, k, r, j, Dropped(b, isFirst, r), WHERE, AND, Quote(table) + ".", QUOTED_ID, BARE_ID);
  }

  /** Where a replacement fits, the text ends in an id conjunct or joins two of them. */
  lemma FitNeedsConjunct(l: string, name: string, r: string, table: string, j: nat)
    requires name in {"id", "`id`"} && j < 10 && Fits(IdReplacements(table)[j], l, name + EQUALS_P1, r)
    ensures if j < 9 then CutLength(l + name, IdConjuncts(table)) > 0
            else JoinsAnd(l + name, r) && name == "id" && EndsWith(l, "AND ")
  {
    var p, tq := IdReplacements(table)[j], Quote(table) + ".";
    KeyOf(name);
    EndsBoth(l, p.lead, name);
    Assoc(WHERE, tq, "`id`");
    Assoc(AND, tq, "`id`");
    if j < 9 {
      var lead := if 3 <= j < 6 then AND else WHERE;
      var o := if j % 3 == 0 then tq + "`id`" else if j % 3 == 1 then "`id`" else "id";
      ReplacementAt(table, j);
      assert |QUOTED_ID| != |BARE_ID|;
      assert p.lead + name == lead + o;
      ConjunctKnown(l + name, lead, o, table);
    } else {
      assert "AND " + "id" == "AND id" && |QUOTED_ID| != |BARE_ID|;
    }
  }

  lemma ReplacementAt(table: string, j: nat)
    requires j < 9
    ensures var p, lead := IdReplacements(table)[j], if 3 <= j < 6 then AND else WHERE;
            p.lead == (if j % 3 == 0 then lead + (Quote(table) + ".") else lead) && p.key == (if j % 3 == 2 then BARE_ID else QUOTED_ID)
  {
  }

  lemma ReplacementKeys(table: string)
    ensures |IdReplacements(table)| == 10
    ensures forall i | 0 <= i < 10 :: IdReplacements(table)[i].key in {QUOTED_ID, BARE_ID}
    ensures IdReplacements(table)[9] == Replacement("AND ", BARE_ID, AND, "AND")
  {
  }

  lemma KeepComparison(x: string, name: string, r: string, table: string)
    requires name in {"id", "`id`"} && EndsWith(x, name) && KeysOnce(x, r) && Stays(x, table, r)
    ensures DropIds(x + (EQUALS_P1 + r), table) == x + (EQUALS_P1 + r)
  {
    var l, k, ps := x[..|x| - |name|], name + EQUALS_P1, IdReplacements(table);
    assert x == l + name;
    KeyAlone(x, r, name);
    KeyStands(x, r, name);
    KeyOf(name);
    ReplacementKeys(table);
    forall j | 0 <= j < 10 ensures !Fits(ps[j], l, k, r) {
      if Fits(ps[j], l, k, r) {
        FitNeedsConjunct(l, name, r, table, j);
      }
    }
    ApplyUnfit(l, k, r, ps);
  }

  lemma JoinComparison(x: string, name: string, r: string, table: string)
    requires name in {"id", "`id`"} && EndsWith(x, name) && KeysOnce(x, r)
    requires CutLength(x, IdConjuncts(table)) == 0 && JoinsAnd(x, r) && NoKey(Outcome(x, table, r))
    ensures DropIds(x + (EQUALS_P1 + r), table) == Outcome(x, table, r)
  {
    var l := x[..|x| - 2];
    OneName(x);
    EndsLast(x, "AND id", 0);
    EndsLast(x, name, 0);
    assert name == "id" && x == l + "id";
    KeyOf("id");
    KeyAlone(x, r, "id");
    KeyStands(x, r, "id");
    JoinTexts(x, l, r);
    JoinAt(l, r, table);
  }

  lemma JoinAt(l: string, r: string, table: string)
    requires EndsWith(l, "AND ") && AND <= r && CutLength(l + "id", IdConjuncts(table)) == 0
    requires OnlyAt(l + (BARE_ID + r), BARE_ID, |l|) && !Contains(l + (BARE_ID + r), QUOTED_ID)
    requires NoKey(l[..|l| - 4] + ("AND" + r[|AND|..]))
    ensures DropIds(l + (BARE_ID + r), table) == l[..|l| - 4] + ("AND" + r[|AND|..])
  {
    var ps := IdReplacements(table);
    ReplacementKeys(table);
    KeyOf("id");
    forall j | 0 <= j < 9 ensures !Fits(ps[j], l, BARE_ID, r) {
      if Fits(ps[j], l, BARE_ID, r) {
        FitNeedsConjunct(l, "id", r, table, j);
      }
    }
    DropAny(l, BARE_ID, r, 9, l[..|l| - 4] + ("AND" + r[|AND|..]), WHERE, AND, Quote(table) + ".", QUOTED_ID, BARE_ID);
  }

  lemma JoinTexts(x: string, l: string, r: string)
    requires EndsWith(x, "AND id") && l == x[..|x| - 2] && AND <= r
    ensures EndsWith(l, "AND ") && x[..|x| - 3] + r[|AND|..] == l[..|l| - 4] + ("AND" + r[|AND|..])
  {
    assert x == x[..|x| - 6] + "AND id";
    assert l == x[..|x| - 6] + "AND ";
  }

  /** The ten replacements, on every statement with the key texts in one place. */
  lemma DropExact(x: string, name: string, r: string, table: string)
    requires name in {"id", "`id`"} && EndsWith(x, name) && KeysOnce(x, r)
    requires !Stays(x, table, r) ==> NoKey(Outcome(x, table, r))
    ensures DropIds(x + (EQUALS_P1 + r), table) == Outcome(x, table, r)
  {
    if CutLength(x, IdConjuncts(table)) > 0 {
      DropConjunct(x, name, r, table);
    } else if JoinsAnd(x, r) {
      JoinComparison(x, name, r, table);
    } else {
      KeepComparison(x, name, r, table);
    }
  }

  // ------------------------------------------------------------ the order by id

  /** The text of an order by id and everything behind it; what is left of it. */
  function Ending(order: Order, table: string, rest: string): string {
    if order == Unordered then "" else " " + (OrderOf(order, table) + rest)
  }

  function Closing(order: Order, rest: string): string {
    if order == Unordered then "" else " " + rest
  }

  /** A conjunction is not cut short by the order clause. */
  predicate WholeAnd(mid: string, order: Order) {
    order == Unordered || mid != " AND"
  }

  lemma AndInMid(mid: string, order: Order, e: string)
    requires WholeAnd(mid, order) && (order == Unordered ==> e == "") && (order != Unordered ==> |e| > 1 && e[0] == ' ' && e[1] != 'A')
    ensures AND <= mid + e <==> AND <= mid
  {
    var s := mid + e;
    assert AND[0] == ' ' && AND[1] == 'A' && AND[2] == 'N' && AND[3] == 'D' && AND[4] == ' ';
    if AND <= s && |mid| < 5 && order != Unordered {
      AndCut(mid, e);
    }
    assert |mid| >= 5 ==> s[..5] == mid[..5];
    if e == "" {
      assert s == mid;
    }
  }

  lemma AndCut(mid: string, e: string)
    requires |mid| < 5 && |e| > 1 && e[0] == ' ' && e[1] != 'A' && AND <= mid + e
    ensures mid == " AND"
  {
    var s := mid + e;
    assert forall i | 0 <= i < 5 :: s[i] == AND[i];
    assert AND[0] == ' ' && AND[1] == 'A' && AND[2] == 'N' && AND[3] == 'D' && AND[4] == ' ';
    assert s[|mid|] == e[0] && s[|mid| + 1] == e[1];
    assert forall i | 0 <= i < |mid| :: mid[i] == s[i];
    assert AND[..4] == " AND";
  }

  /** What stands before the ending of the outcome does not depend on it. */
  lemma OutcomeSplit(x: string, table: string, mid: string, e: string) returns (f: string)
    requires AND <= mid + e <==> AND <= mid
    ensures f == Outcome(x, table, mid) && Outcome(x, table, mid + e) == f + e
  {
    f := Outcome(x, table, mid);
    var n := CutLength(x, IdConjuncts(table));
    var b := x[..|x| - n];
    if AND <= mid {
      assert (mid + e)[|AND|..] == mid[|AND|..] + e;
      SplitEnd(b, WHERE, mid[|AND|..], e);
      Assoc(x[..|x| - if |x| < 3 then 0 else 3], mid[|AND|..], e);
    }
    Assoc(b, mid, e);
    SplitEnd(x, EQUALS_P1, mid, e);
  }

  lemma SplitEnd(a: string, b: string, c: string, e: string)
    ensures a + (b + (c + e)) == (a + (b + c)) + e
  {
  }

  ghost predicate NoOrderKey(s: string, table: string) {
    !Contains(s, QualifiedOrder(table)) && !Contains(s, QUOTED_ORDER)
  }

  /** The order by id disappears from the outcome, but for its blank. */
  lemma OrderDroppedFrom(x: string, table: string, mid: string, order: Order, rest: string)
    requires order != Unordered ==> TableName(table)
    requires WholeAnd(mid, order) && NoOrderKey(Outcome(x, table, mid) + Closing(order, rest), table)
    ensures DropOrder(Outcome(x, table, mid + Ending(order, table, rest)), table) == Outcome(x, table, mid) + Closing(order, rest)
  {
    var e := Ending(order, table, rest);
    if order != Unordered {
      EndingStart(order, table, rest);
    }
    AndInMid(mid, order, e);
    var f := OutcomeSplit(x, table, mid, e);
    if order == Unordered {
      assert f + "" == f;
      NothingOrdered(f, table);
    } else {
      OrderGone(f, order, rest, table);
    }
  }

  lemma EndingStart(order: Order, table: string, rest: string)
    requires order != Unordered
    ensures var e := Ending(order, table, rest); |e| > 1 && e[0] == ' ' && e[1] == 'O'
  {
    assert OrderOf(order, table)[0] == 'O';
  }

  // ---------------------------------------------------------------- main results

  /** A name without blanks ends a text exactly when it ends what stands behind the last blank. */
  lemma EndsBehindBlank(a: string, cond: string, name: string)
    requires ' ' !in name
    ensures EndsWith(a + (" " + cond), name) <==> EndsWith(cond, name)
  {
    var s := a + (" " + cond);
    if |name| <= |cond| {
      assert s[|s| - |name|..] == cond[|cond| - |name|..];
    } else if |name| <= |s| {
      var t := s[|s| - |name|..];
      assert t[|name| - |cond| - 1] == s[|a|] == ' ';
      assert ' ' in t;
    }
  }

  lemma ComparedEnds(columns: string, from: string, cond: string, name: string)
    requires name in {"id", "`id`"}
    ensures EndsWith(Compared(columns, from, cond), name) <==> EndsWith(cond, name)
  {
    var a := "SELECT " + columns + " " + (from + " WHERE");
    assert " WHERE " + cond == " WHERE" + (" " + cond);
    assert Compared(columns, from, cond) == a + (" " + cond);
    assert ' ' !in "id" && ' ' !in "`id`";
    EndsBehindBlank(a, cond, name);
  }

  ghost predicate FromOnce(columns: string, from: string, cond: string, r: string) {
    forall i | 0 <= i < |"SELECT " + columns + " "| :: !At(Comparison(columns, from, cond, r), from, i)
  }

  lemma FromMoved(columns: string, from: string, to: string, cond: string, r: string)
    requires from != "" && FromOnce(columns, from, cond, r)
    ensures Contains(Comparison(columns, from, cond, r), from)
    ensures ReplaceFirst(Comparison(columns, from, cond, r), from, to) == Comparison(columns, to, cond, r)
  {
    var a, w, t := "SELECT " + columns + " ", " WHERE " + cond, EQUALS_P1 + r;
    MovedTexts(a, from, w, t);
    MovedTexts(a, to, w, t);
    assert Comparison(columns, from, cond, r) == a + (from + (w + t));
    IdTextStands(a, from, w + t);
    ReplaceFirstAt(a, from, w + t, to);
  }

  lemma MovedTexts(a: string, from: string, w: string, t: string)
    ensures (a + (from + w)) + t == a + (from + (w + t))
  {
  }

  /** Which comparisons the guard lets through. */
  lemma GuardExact(columns: string, from: string, cond: string, r: string)
    requires KeysOnce(Compared(columns, from, cond), r)
    ensures var sql := Comparison(columns, from, cond, r);
            Contains(sql, QUOTED_ID) || Contains(sql, BARE_ID) <==> PassesGuard(cond)
  {
    var x := Compared(columns, from, cond);
    KeyOf("id");
    KeyOf("`id`");
    KeyContained(x, r, "id");
    KeyContained(x, r, "`id`");
    ComparedEnds(columns, from, cond, "id");
    ComparedEnds(columns, from, cond, "`id`");
  }

  /** The text that is left, once the order by id is gone. */
  function Left(columns: string, table: string, cond: string, mid: string, order: Order, rest: string): string {
    Outcome(Compared(columns, "FROM $p1", cond), table, mid) + Closing(order, rest)
  }

  /**
   `SELECT columns FROM table WHERE cond = $p1mid ORDER BY id rest`, in which the two key texts
   stand at this comparison only, before and after FROM is redirected, and no key text and no
   order by id arises where a text is cut out.
   */
  ghost predicate PlainStatement(columns: string, table: string, cond: string, mid: string, order: Order, rest: string) {
    var from, x, r := "FROM " + Quote(table), Compared(columns, "FROM $p1", cond), mid + Ending(order, table, rest);
    && table != "" && (order != Unordered ==> TableName(table)) && WholeAnd(mid, order)
    && FromOnce(columns, from, cond, r)
    && KeysOnce(Compared(columns, from, cond), r) && KeysOnce(x, r)
    && (!Stays(x, table, r) ==> NoKey(Outcome(x, table, r)))
    && NoOrderKey(Left(columns, table, cond, mid, order, rest), table)
  }

  /**
   For every statement with one such comparison, whatever the condition up to the sign and
   whatever stands behind the parameter: it changes exactly when the first variable is a record
   id and the condition ends in `id` or in "`id`". FROM is then redirected, what becomes of the
   comparison is `Outcome`, an order by id goes but for its blank, and doubled blanks are halved.
   */
  lemma ComparisonExact(columns: string, table: string, vars: seq<Var>, cond: string, mid: string, order: Order, rest: string)
    requires PlainStatement(columns, table, cond, mid, order, rest)
    ensures var sql := Comparison(columns, "FROM " + Quote(table), cond, mid + Ending(order, table, rest));
            SingleIdText(sql, table, vars) ==
            if IdFirst(vars) && PassesGuard(cond) then ReplaceAll(Left(columns, table, cond, mid, order, rest), "  ", " ") else sql
  {
    var from, x, r := "FROM " + Quote(table), Compared(columns, "FROM $p1", cond), mid + Ending(order, table, rest);
    GuardExact(columns, from, cond, r);
    if IdFirst(vars) && PassesGuard(cond) {
      var name := if EndsWith(cond, "id") then "id" else "`id`";
      ComparedEnds(columns, "FROM $p1", cond, name);
      FromMoved(columns, from, "FROM $p1", cond, r);
      DropExact(x, name, r, table);
      OrderDroppedFrom(x, table, mid, order, rest);
      StageByStage(Comparison(columns, from, cond, r), table, vars, x + (EQUALS_P1 + r), Outcome(x, table, r), Left(columns, table, cond, mid, order, rest));
    }
  }

  // ------------------------------------------------- when the comparison goes whole

  lemma SolidKept(x: string, r: string, c: string)
    ensures Solid((x + (EQUALS_P1 + r)) + c) == Solid(x) + (Solid(EQUALS_P1) + Solid(r)) + Solid(c)
  {
    SolidAppend(x + (EQUALS_P1 + r), c);
    SolidAppend(x, EQUALS_P1 + r);
    SolidAppend(EQUALS_P1, r);
  }

  lemma BlankSolid(w: string, s: string)
    requires NoSpace(w)
    ensures Solid(" " + (w + s)) == w + Solid(s) && Solid(w + s) == w + Solid(s)
  {
    SolidWord(w);
    SolidAppend(w, s);
    assert (" " + (w + s))[1..] == w + s;
  }

  lemma SolidSign()
    ensures |Solid(EQUALS_P1)| == 4
  {
    var p := "$p1";
    assert EQUALS_P1 == " " + ("=" + (" " + (p + "")));
    BlankSolid(p, "");
    BlankSolid("=", " " + (p + ""));
  }

  lemma SolidWhere()
    ensures |Solid(WHERE)| == 5
  {
    var w, b := "WHERE", " ";
    assert WHERE == w + b && b[1..] == "";
    BlankSolid(w, b);
  }

  lemma SolidAnd()
    ensures |Solid(AND)| == 3
  {
    var w, b := "AND", " ";
    assert AND == b + (w + b) && b[1..] == "";
    BlankSolid(w, b);
  }

  lemma SolidConstants()
    ensures |Solid(EQUALS_P1)| == 4 && |Solid(WHERE)| == 5 && |Solid(AND)| == 3
  {
    SolidSign();
    SolidWhere();
    SolidAnd();
  }

  /** A text that is cut has fewer characters besides its white space. */
  lemma OutcomeShorter(x: string, table: string, r: string)
    requires !Stays(x, table, r)
    ensures |Solid(Outcome(x, table, r))| < |Solid(x)| + 4 + |Solid(r)|
  {
    var n := CutLength(x, IdConjuncts(table));
    SolidConstants();
    if AND <= r {
      assert r == AND + r[|AND|..];
      SolidAppend(AND, r[|AND|..]);
    }
    if n > 0 {
      var b := x[..|x| - n];
      assert x == b + x[|x| - n..];
      SolidAppend(b, x[|x| - n..]);
      SolidAppend(b, r);
      if AND <= r {
        SolidAppend(b, WHERE + r[|AND|..]);
        SolidAppend(WHERE, r[|AND|..]);
      }
    } else {
      assert x == x[..|x| - 3] + x[|x| - 3..];
      SolidAppend(x[..|x| - 3], x[|x| - 3..]);
      SolidAppend(x[..|x| - 3], r[|AND|..]);
    }
  }

  /** The comparison stays exactly when it is no id conjunct and joins none. */
  lemma StaysExact(x: string, table: string, r: string, c: string)
    ensures Words(Outcome(x, table, r) + c) == Words((x + (EQUALS_P1 + r)) + c) <==> Stays(x, table, r)
  {
    if !Stays(x, table, r) {
      OutcomeShorter(x, table, r);
      SolidConstants();
      SolidKept(x, r, c);
      SolidAppend(Outcome(x, table, r), c);
      WordsSolid(Outcome(x, table, r) + c);
      WordsSolid((x + (EQUALS_P1 + r)) + c);
    }
  }

  /** The text behind the whole parameter. */
  function BehindNumber(r: string): string {
    r[|DigitRun(r)|..]
  }

  /**
   An id conjunct is cut whole, with its whole parameter, exactly when no further digit follows
   `$p1`: of `$p10` the `0` is left glued to the text before the conjunct.
   */
  lemma WholeCutExact(x: string, table: string, r: string, c: string)
    requires CutLength(x, IdConjuncts(table)) > 0
    ensures Words(Outcome(x, table, r) + c) == Words(Outcome(x, table, BehindNumber(r)) + c) <==> DigitRun(r) == ""
  {
    var d, u := DigitRun(r), BehindNumber(r);
    if d == "" {
      assert u == r;
    } else {
      var n := CutLength(x, IdConjuncts(table));
      var b := x[..|x| - n];
      NoAndInDigits(r);
      assert Outcome(x, table, r) == b + r;
      TornWords(b, r, c, Outcome(x, table, u), WHERE <= x[|x| - n..] && AND <= u);
    }
  }

  lemma NoAndInDigits(r: string)
    requires DigitRun(r) != ""
    ensures !(AND <= r) && r != "" && IsDigit(r[0]) && r == DigitRun(r) + BehindNumber(r)
  {
    assert DigitRun(r)[0] == r[0];
  }

  lemma TornWords(b: string, r: string, c: string, whole: string, isJoined: bool)
    requires DigitRun(r) != ""
    requires var u := BehindNumber(r); whole == if isJoined && |u| >= 5 then b + (WHERE + u[|AND|..]) else b + u
    ensures Words((b + r) + c) != Words(whole + c)
  {
    var d, u := DigitRun(r), BehindNumber(r);
    NoAndInDigits(r);
    DigitsSolid(d);
    SolidAppend(b + r, c);
    SolidAppend(b, r);
    SolidAppend(d, u);
    SolidAppend(whole, c);
    SolidAppend(b, u);
    WordsSolid((b + r) + c);
    WordsSolid(whole + c);
    if isJoined && |u| >= 5 {
      SolidAppend(b, WHERE + u[|AND|..]);
      WhereSolid(u[|AND|..]);
      Differ(Solid(b), Solid(r) + Solid(c), Solid(WHERE + u[|AND|..]) + Solid(c));
      Assoc(Solid(b), Solid(r), Solid(c));
      Assoc(Solid(b), Solid(WHERE + u[|AND|..]), Solid(c));
    }
  }

  lemma {:induction false} DigitsSolid(d: string)
    requires forall i | 0 <= i < |d| :: IsDigit(d[i])
    ensures Solid(d) == d
  {
    SolidWord(d);
  }

  lemma WhereSolid(s: string)
    ensures Solid(WHERE + s) != "" && Solid(WHERE + s)[0] == 'W'
  {
    assert (WHERE + s)[0] == 'W';
  }

  lemma Differ(b: string, s: string, t: string)
    requires s != "" && t != "" && s[0] != t[0]
    ensures b + s != b + t
  {
    assert (b + s)[|b|] == s[0] && (b + t)[|b|] == t[0];
  }

  /**
   A record id as first variable and an id conjunct on a later parameter, as in
   `author IN ($p1, ..., $p9) AND id = $p10`: FROM is redirected to the first variable, the
   conjunct goes, and the digits behind `$p1` stay.
   */
  lemma LaterParameterTorn(columns: string, table: string, vars: seq<Var>, cond: string, mid: string, order: Order, rest: string)
    requires IdFirst(vars) && PlainStatement(columns, table, cond, mid, order, rest) && PassesGuard(cond)
    requires var x := Compared(columns, "FROM $p1", cond); CutLength(x, IdConjuncts(table)) > 0 && DigitRun(mid) != ""
    ensures var x, c := Compared(columns, "FROM $p1", cond), Closing(order, rest);
            var out := SingleIdText(Comparison(columns, "FROM " + Quote(table), cond, mid + Ending(order, table, rest)), table, vars);
            && Words(out) == Words((x[..|x| - CutLength(x, IdConjuncts(table))] + mid) + c)
            && Words(out) != Words(Outcome(x, table, BehindNumber(mid)) + c)
  {
    var x := Compared(columns, "FROM $p1", cond);
    ComparisonExact(columns, table, vars, cond, mid, order, rest);
    SqueezeKeepsWords(Left(columns, table, cond, mid, order, rest));
    NoAndInDigits(mid);
    WholeCutExact(x, table, mid, Closing(order, rest));
  }

  /** A simple way to meet the condition on the cut: behind the parameter comes nothing or a clause. */
  lemma CutLeavesNoKey(x: string, name: string, table: string, r: string)
    requires name in {"id", "`id`"} && EndsWith(x, name) && KeysOnce(x, r) && CutLength(x, IdConjuncts(table)) > 0
    requires r == "" || (|r| > 1 && r[0] == ' ' && ClauseLetter(r[1]))
    ensures NoKey(Outcome(x, table, r))
  {
    var b, isFirst, qual := ConjunctSplit(x, name, table);
    KeyAlone(x, r, name);
    KeyStands(x, r, name);
    KeyOf(name);
    LocatedCut(b, isFirst, qual, name + EQUALS_P1, r, table);
  }

  lemma LocatedCut(b: string, isFirst: bool, qual: string, k: string, r: string, table: string)
    requires (k == QUOTED_ID && qual in {"", Quote(table) + "."}) || (k == BARE_ID && qual == "")
    requires var l := Lead(b, isFirst, qual);
             OnlyAt(l + (k + r), k, |l|) && !Contains(l + (k + r), if k == QUOTED_ID then BARE_ID else QUOTED_ID)
    requires r == "" || (|r| > 1 && r[0] == ' ' && ClauseLetter(r[1]))
    ensures NoKey(Dropped(b, isFirst, r))
  {
    if r != "" {
      KeysAvoid(QUOTED_ID, r[1]);
      KeysAvoid(BARE_ID, r[1]);
    }
    LocatedDrops(b, isFirst, qual, k, r, table);
  }

  // ------------------------------------------------------------- single columns

  /** Behind WHERE, a column without blanks is an id conjunct exactly when it is one of the three names. */
  lemma ColumnSpelled(a: string, column: string, table: string, r: string)
    requires ' ' !in column && ' ' !in table
    ensures var x, n := a + (" " + (WHERE + column)), CutLength(a + (" " + (WHERE + column)), IdConjuncts(table));
            && (n > 0 <==> column in IdNames(table))
            && (n > 0 ==> n == |WHERE + column| && x[|x| - n..] == WHERE + column)
            && !JoinsAnd(x, r)
  {
    var x := a + (" " + (WHERE + column));
    assert x == (a + " ") + (WHERE + column);
    assert x[|x| - |WHERE + column|..] == WHERE + column;
    ColumnEnd(a, column);
    if CutLength(x, IdConjuncts(table)) > 0 {
      var o, lead := ConjunctName(x, table);
      NameHasNoBlank(o, table);
      LastBlank(x, lead, o, |column|);
    }
    if column in IdNames(table) {
      ConjunctKnown(x, WHERE, column, table);
    }
    AndBeforeName(x, |column|);
  }

  lemma AndBeforeName(x: string, c: nat)
    requires c + 2 <= |x| && x[|x| - c - 1] == ' ' && x[|x| - c - 2] == 'E'
    requires forall y | |x| - c <= y < |x| :: x[y] != ' '
    ensures !EndsWith(x, "AND id")
  {
    var p := "AND id";
    EndsLast(x, p, 0);
    EndsLast(x, p, 1);
    EndsLast(x, p, 2);
    EndsLast(x, p, 3);
    assert p[5] == 'd' && p[4] == 'i' && p[3] == ' ' && p[2] == 'D';
  }

  lemma ColumnEnd(a: string, column: string)
    requires ' ' !in column
    ensures var x := a + (" " + (WHERE + column));
            && x[|x| - |column| - 1] == ' ' && x[|x| - |column| - 2] == 'E'
            && x[|x| - |column|..] == column
            && forall y | |x| - |column| <= y < |x| :: x[y] != ' '
  {
    var x := a + (" " + (WHERE + column));
    assert WHERE[5] == ' ' && WHERE[4] == 'E';
    assert forall y | |x| - |column| <= y < |x| :: x[y] == column[y - |x| + |column|] && x[y] in column;
  }

  lemma NameHasNoBlank(o: string, table: string)
    requires ' ' !in table && o in IdNames(table)
    ensures ' ' !in o
  {
    assert ' ' !in Quote(table) + "." + "`id`" && ' ' !in "id" && ' ' !in "`id`";
  }

  lemma LastBlank(x: string, lead: string, o: string, c: nat)
    requires lead in {WHERE, AND} && EndsWith(x, lead + o) && ' ' !in o
    requires c + 2 <= |x| && x[|x| - c - 1] == ' ' && x[|x| - c - 2] == 'E'
    requires forall y | |x| - c <= y < |x| :: x[y] != ' '
    ensures |o| == c && lead == WHERE && x[|x| - c..] == o
  {
    var p := lead + o;
    assert p[|lead| - 1] == ' ' && p[|lead| - 2] == if lead == WHERE then 'E' else 'D';
    assert forall y | |x| - |p| <= y < |x| :: x[y] == x[|x| - |p|..][y - |x| + |p|] == p[y - |x| + |p|];
    assert forall y | |lead| <= y < |p| :: p[y] == o[y - |lead|] && p[y] in o;
    assert x[|x| - |o| - 1] == ' ';
    assert p[|lead|..] == o && x[|x| - |o|..] == x[|x| - |p|..][|lead|..];
  }

  /**
   For a single column, whatever stands behind its parameter: a column not ending in `id` or
   "`id`" is left alone; a spelling of the id becomes direct access; every other one reads the
   compared record and keeps its condition.
   */
  lemma ColumnExact(columns: string, table: string, vars: seq<Var>, column: string, mid: string, order: Order, rest: string)
    requires PlainStatement(columns, table, column, mid, order, rest) && ' ' !in column && ' ' !in table
    ensures var sql, c := Comparison(columns, "FROM " + Quote(table), column, mid + Ending(order, table, rest)), Closing(order, rest);
            var out, a := SingleIdText(sql, table, vars), "SELECT " + columns + " FROM $p1";
            if !IdFirst(vars) || !PassesGuard(column) then out == sql
            else if column in IdNames(table) then Words(out) == Words(Dropped(a + " ", true, mid) + c)
            else Words(out) == Words(Comparison(columns, "FROM $p1", column, mid) + c)
  {
    ComparisonExact(columns, table, vars, column, mid, order, rest);
    SqueezeKeepsWords(Left(columns, table, column, mid, order, rest));
    ColumnOutcome(columns, table, column, mid);
  }

  lemma ColumnOutcome(columns: string, table: string, column: string, r: string)
    requires ' ' !in column && ' ' !in table
    ensures Outcome(Compared(columns, "FROM $p1", column), table, r) ==
            if column in IdNames(table) then Dropped("SELECT " + columns + " FROM $p1" + " ", true, r)
            else Comparison(columns, "FROM $p1", column, r)
  {
    var a, x := "SELECT " + columns + " " + "FROM $p1", Compared(columns, "FROM $p1", column);
    ComparedParts("SELECT " + columns + " ", "FROM $p1", column);
    assert a == "SELECT " + columns + " FROM $p1";
    ColumnSpelled(a, column, table, r);
    if column in IdNames(table) {
      assert x[..|x| - |WHERE + column|] == a + " ";
      assert WHERE <= WHERE + column;
    }
  }

  lemma ComparedParts(a: string, from: string, column: string)
    ensures a + (from + (" WHERE " + column)) == (a + from) + (" " + (WHERE + column))
  {
    assert " WHERE " + column == " " + (WHERE + column);
  }

  /** So a foreign key `..._id` compared with a record id reads that record under its own condition. */
  lemma ForeignKeyCaptured(columns: string, table: string, vars: seq<Var>, key: string, mid: string, order: Order, rest: string)
    requires IdFirst(vars) && PlainStatement(columns, table, key + "_id", mid, order, rest) && ' ' !in key && ' ' !in table
    ensures Words(SingleIdText(Comparison(columns, "FROM " + Quote(table), key + "_id", mid + Ending(order, table, rest)), table, vars))
            == Words(Comparison(columns, "FROM $p1", key + "_id", mid) + Closing(order, rest))
  {
    ForeignKeyName(key, table);
    ColumnExact(columns, table, vars, key + "_id", mid, order, rest);
  }

  lemma ForeignKeyName(key: string, table: string)
    requires ' ' !in key
    ensures var c := key + "_id"; ' ' !in c && PassesGuard(c) && c !in IdNames(table)
  {
    var c := key + "_id";
    assert c[|c| - 2..] == "id" && c[|c| - 3] == '_' && c[|c| - 1] == 'd';
    assert ' ' !in "_id";
    assert "`id`"[3] == '`' && (Quote(table) + "." + "`id`")[|Quote(table)| + 4] == '`';
  }
}
