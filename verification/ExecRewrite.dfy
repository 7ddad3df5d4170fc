/**
 The rewriting of raw writes (driver.go:91-134): id assignments are taken out of an UPDATE's SET
 clause, and DELETE FROM becomes DELETE. The code works on the text: it looks for ` set ` and
 ` where ` in lower case and splits the text between them at commas.
 */
module ExecRewrite {
  import opened Wrappers
  import opened Strings

  function UpperChar(c: char): char {
    if 'a' <= c <= 'z' then 'A' + (c - 'a') else c
  }

  function Upper(s: string): string {
    seq(|s|, i requires 0 <= i < |s| => UpperChar(s[i]))
  }

  /** `strings.Index`: the first occurrence, or -1. */
  function Index(s: string, p: string): (i: int)
    ensures i == -1 || (At(s, p, i) && forall j | 0 <= j < i :: !At(s, p, j))
    ensures i == -1 ==> forall j :: !At(s, p, j)
  {
    if p <= s then 0
    else if s == [] then -1
    else
      var i := Index(s[1..], p);
      assert s == [s[0]] + s[1..];
      assert forall j | j >= 1 :: At(s, p, j) <==> At(s[1..], p, j - 1) by {
        forall j | j >= 1 ensures At(s, p, j) <==> At(s[1..], p, j - 1) {
          AtRight([s[0]], s[1..], p, j - 1);
        }
      }
      assert !At(s, p, 0);
      if i == -1 then -1 else i + 1
  }

  /** `strings.LastIndex`. */
  function LastIndex(s: string, p: string): (i: int)
    ensures i == -1 || (At(s, p, i) && forall j | j > i :: !At(s, p, j))
    ensures i == -1 ==> forall j :: !At(s, p, j)
  {
    if |p| <= |s| && s[|s| - |p|..] == p then |s| - |p|
    else if s == [] then -1
    else
      assert s == s[..|s| - 1] + [s[|s| - 1]];
      assert forall j | j + |p| < |s| :: At(s, p, j) <==> At(s[..|s| - 1], p, j) by {
        forall j | j + |p| < |s| ensures At(s, p, j) <==> At(s[..|s| - 1], p, j) {
          AtLeft(s[..|s| - 1], [s[|s| - 1]], p, j);
        }
      }
      assert !At(s, p, |s| - |p|);
      LastIndex(s[..|s| - 1], p)
  }

  /** `strings.Split(s, ",")`. */
  function SplitCommas(s: string): (r: seq<string>)
    ensures r != [] && forall i | 0 <= i < |r| :: ',' !in r[i]
  {
    if s == [] then [""]
    else
      var rest := SplitCommas(s[1..]);
      if s[0] == ',' then [""] + rest else [[s[0]] + rest[0]] + rest[1..]
  }

  const SET := " set "
  const WHERE := " where "

  predicate IsIdAssignment(part: string) {
    var t := TrimSpace(part);
    "`id` =" <= t || "id =" <= t || "\"id\" =" <= t
  }

  function Kept(parts: seq<string>): seq<string> {
    if parts == [] then []
    else if IsIdAssignment(parts[0]) then Kept(parts[1..])
    else [parts[0]] + Kept(parts[1..])
  }

  /** The UPDATE half; None marks a slice out of range. */
  function RewriteUpdate(q: string): Option<string> {
    if |q| > 6 && "UPDATE" <= Upper(q) then
      var setIdx, whereIdx := Index(Lower(q), SET), LastIndex(Lower(q), WHERE);
      if setIdx != -1 && (whereIdx == -1 || setIdx < whereIdx) then
        var end := if whereIdx == -1 then |q| else whereIdx;
        if setIdx + 5 > end then None
        else Some(q[..setIdx + 5] + Join(Kept(SplitCommas(q[setIdx + 5..end])), ", ") + " " + q[end..])
      else Some(q)
    else Some(q)
  }

  /** The DELETE half. */
  function RewriteDelete(q: string): string {
    if |q| > 12 && "DELETE FROM " <= Upper(TrimSpace(q)) then
      var idx := Index(Upper(q), "DELETE FROM ");
      if idx != -1 then q[..idx] + "DELETE " + TrimSpace(q[idx + 12..]) else q
    else q
  }

  /** `rewriteExecSQL`. */
  function Rewrite(q: string): Option<string> {
    match RewriteUpdate(q)
    case None => None
    case Some(u) => Some(RewriteDelete(u))
  }

  method FilterParts(parts: seq<string>) returns (clean: seq<string>)
    ensures clean == Kept(parts)
  {
    clean := [];
    assert parts[0..] == parts && [] + Kept(parts) == Kept(parts);
    for i := 0 to |parts|
      invariant clean + Kept(parts[i..]) == Kept(parts)
    {
      assert parts[i..][1..] == parts[i + 1..];
      if !IsIdAssignment(parts[i]) {
        Assoc(clean, [parts[i]], Kept(parts[i + 1..]));
        clean := clean + [parts[i]];
      }
    }
    assert clean + [] == clean;
  }

  method RewriteExecSQL(input: string) returns (query: string, panics: bool)
    ensures panics <==> Rewrite(input).None?
    ensures !panics ==> Rewrite(input) == Some(query)
  {
    query, panics := input, false;
    if |query| > 6 && "UPDATE" <= Upper(query) {
      var lowerSql := Lower(query);
      var setIdx, whereIdx := Index(lowerSql, SET), LastIndex(lowerSql, WHERE);
      if setIdx != -1 && (whereIdx == -1 || setIdx < whereIdx) {
        var end := if whereIdx == -1 then |query| else whereIdx;
        if setIdx + 5 > end {
          panics := true;
          return;
        }
        var beforeSet, setPart, afterSet := query[..setIdx + 5], query[setIdx + 5..end], query[end..];
        var cleanParts := FilterParts(SplitCommas(setPart));
        query := beforeSet + Join(cleanParts, ", ") + " " + afterSet;
      }
    }
    query := RewriteDelete(query);
  }

  // ------------------------------------------------------------- printed updates

  /** `UPDATE target SET parts WHERE cond`: the parts are what stands between the commas, blanks included. */
  datatype Update = Update(target: string, parts: seq<string>, cond: Option<string>)

  function Front(u: Update): string {
    "UPDATE " + u.target + " SET "
  }

  function Tail(u: Update): string {
    if u.cond.Some? then " WHERE " + u.cond.value else ""
  }

  function Print(u: Update): string {
    Front(u) + Join(u.parts, ",") + Tail(u)
  }

  /** The assignments of an update: its parts without the white space around them. */
  function Assignments(parts: seq<string>): seq<string> {
    if parts == [] then []
    else if TrimSpace(parts[0]) == "" then Assignments(parts[1..])
    else [TrimSpace(parts[0])] + Assignments(parts[1..])
  }

  /** What an assignment list is without its id assignments. */
  function WithoutId(assigns: seq<string>): seq<string> {
    if assigns == [] then []
    else if IsIdAssignment(assigns[0]) then WithoutId(assigns[1..])
    else [assigns[0]] + WithoutId(assigns[1..])
  }

  /** The kept parts as the rewritten text separates them: a blank before each but the first and one at the end. */
  function Respaced(kept: seq<string>): seq<string> {
    if kept == [] then [" "]
    else if |kept| == 1 then [kept[0] + " "]
    else [kept[0]] + RespacedRest(kept[1..])
  }

  function RespacedRest(kept: seq<string>): seq<string>
    requires kept != []
  {
    if |kept| == 1 then [" " + kept[0] + " "] else [" " + kept[0]] + RespacedRest(kept[1..])
  }

  /** The update the rewriting makes. */
  function Next(u: Update): Update {
    u.(parts := Respaced(Kept(u.parts)))
  }

  /** No part contains a comma, and the code finds SET and WHERE where the statement has them. */
  ghost predicate Located(u: Update) {
    && u.parts != [] && (forall i | 0 <= i < |u.parts| :: ',' !in u.parts[i])
    && Index(Lower(Print(u)), SET) == |Front(u)| - 5
    && LastIndex(Lower(Print(u)), WHERE) == if u.cond.None? then -1 else |Print(u)| - |Tail(u)|
  }

  lemma {:induction false} SplitJoin(parts: seq<string>)
    requires parts != [] && forall i | 0 <= i < |parts| :: ',' !in parts[i]
    ensures SplitCommas(Join(parts, ",")) == parts
    decreases |parts|, |parts[0]|
  {
    var s := Join(parts, ",");
    if parts[0] == "" {
      if |parts| > 1 {
        assert s == "," + Join(parts[1..], ",") && s[1..] == Join(parts[1..], ",");
        SplitJoin(parts[1..]);
      }
    } else {
      var c, rest := parts[0][0], [parts[0][1..]] + parts[1..];
      assert c in parts[0];
      assert forall i | 0 <= i < |rest| :: ',' !in rest[i];
      SplitJoin(rest);
      assert parts[0] == [c] + parts[0][1..];
      assert rest[1..] == parts[1..];
      JoinCons(c, parts[0][1..], parts[1..]);
      assert s[0] == c && s[1..] == Join(rest, ",");
      assert [[c] + rest[0]] + rest[1..] == parts;
    }
  }

  lemma JoinCons(c: char, p: string, ps: seq<string>)
    ensures Join([[c] + p] + ps, ",") == [c] + Join([p] + ps, ",")
  {
    assert ([[c] + p] + ps)[1..] == ps && ([p] + ps)[1..] == ps;
  }

  lemma {:induction false} JoinRespacedRest(kept: seq<string>)
    requires kept != []
    ensures Join(RespacedRest(kept), ",") == " " + Join(kept, ", ") + " "
  {
    if |kept| > 1 {
      JoinRespacedRest(kept[1..]);
      assert RespacedRest(kept)[1..] == RespacedRest(kept[1..]);
      JoinPieces(kept[0], Join(kept[1..], ", "));
    }
  }

  lemma JoinPieces(a: string, b: string)
    ensures (" " + a) + "," + (" " + b + " ") == " " + (a + ", " + b) + " "
  {
  }

  lemma JoinFirst(a: string, b: string)
    ensures a + "," + (" " + b + " ") == (a + ", " + b) + " "
  {
  }

  lemma JoinRespaced(kept: seq<string>)
    ensures Join(Respaced(kept), ",") == Join(kept, ", ") + " "
  {
    if |kept| > 1 {
      JoinRespacedRest(kept[1..]);
      assert Respaced(kept)[1..] == RespacedRest(kept[1..]);
      JoinFirst(kept[0], Join(kept[1..], ", "));
    }
  }

  lemma UpdateKeyword(u: Update)
    ensures |Print(u)| > 6 && "UPDATE" <= Upper(Print(u))
  {
    var rest := u.target + " SET " + Join(u.parts, ",") + Tail(u);
    assert Print(u) == "UPDATE " + rest;
    UpdatePrefix(Print(u), rest);
  }

  /** For every located update, the rewritten text is the print of the same target and condition
      with the kept parts, in order. */
  lemma UpdateExact(u: Update)
    requires Located(u)
    ensures Rewrite(Print(u)) == Some(Print(Next(u)))
  {
    var q, f, body, t := Print(u), Front(u), Join(u.parts, ","), Tail(u);
    UpdateKeyword(u);
    Assoc(f, body, t);
    assert q[..|f|] == f;
    var end := if u.cond.None? then |q| else |q| - |t|;
    assert q[|f|..end] == body && q[end..] == t;
    SplitJoin(u.parts);
    JoinRespaced(Kept(u.parts));
    Assoc(f, Join(Kept(u.parts), ", "), " ");
    DeleteSparesUpdate(Print(Next(u)), Next(u));
  }

  /** The DELETE half leaves an update alone. */
  lemma DeleteSparesUpdate(q: string, u: Update)
    requires q == Print(u)
    ensures RewriteDelete(q) == q
  {
    var rest := u.target + " SET " + Join(u.parts, ",") + Tail(u);
    assert q == "UPDATE " + rest;
    TrimRightKeeps(q, 0);
    assert q[0] == 'U' && TrimLeft(q) == q && TrimSpace(q)[0] == q[..1][0];
    assert Upper(TrimSpace(q))[0] == 'U' && "DELETE FROM "[0] == 'D';
  }

  // -------------------------------------------------- what the parts come down to

  lemma {:induction false} TrimLeftIdempotent(s: string)
    ensures TrimLeft(TrimLeft(s)) == TrimLeft(s) && TrimLeft(" " + s) == TrimLeft(s)
  {
    assert (" " + s)[1..] == s;
    if s != [] && IsSpace(s[0]) {
      TrimLeftIdempotent(s[1..]);
    }
  }

  lemma {:induction false} TrimBoth(s: string)
    ensures TrimSpace(s + " ") == TrimSpace(s)
  {
    assert (s + " ")[..|s|] == s;
    if s == [] {
      assert " "[1..] == [];
    } else if IsSpace(s[0]) {
      assert (s + " ")[1..] == s[1..] + " ";
      TrimBoth(s[1..]);
    }
  }

  lemma TrimBlanked(s: string)
    ensures TrimSpace(" " + s) == TrimSpace(s) && TrimSpace(s + " ") == TrimSpace(s) && TrimSpace(" " + s + " ") == TrimSpace(s)
  {
    TrimLeftIdempotent(s);
    TrimBoth(s);
    TrimBoth(" " + s);
  }

  lemma {:induction false} TrimRightTrimmed(s: string)
    ensures TrimRight(s) == "" || !IsSpace(TrimRight(s)[|TrimRight(s)| - 1])
    ensures s != [] && !IsSpace(s[0]) ==> TrimRight(s) != "" && TrimRight(s)[0] == s[0]
  {
    if s != [] && IsSpace(s[|s| - 1]) {
      TrimRightTrimmed(s[..|s| - 1]);
    }
  }

  lemma {:induction false} TrimLeftTrimmed(s: string)
    ensures TrimLeft(s) == "" || !IsSpace(TrimLeft(s)[0])
  {
    if s != [] && IsSpace(s[0]) {
      TrimLeftTrimmed(s[1..]);
    }
  }

  lemma TrimSpaceIdempotent(s: string)
    ensures TrimSpace(TrimSpace(s)) == TrimSpace(s)
  {
    TrimLeftTrimmed(s);
    TrimRightTrimmed(TrimLeft(s));
  }

  /** The kept parts hold the assignments other than those of the id, in order. */
  lemma {:induction false} KeptAssignments(parts: seq<string>)
    ensures Assignments(Kept(parts)) == WithoutId(Assignments(parts))
  {
    if parts != [] {
      KeptAssignments(parts[1..]);
      TrimSpaceIdempotent(parts[0]);
      if TrimSpace(parts[0]) == "" {
        AssignmentsCons(parts[0], Kept(parts[1..]));
      } else {
        AssignmentsCons(parts[0], Kept(parts[1..]));
        var a := TrimSpace(parts[0]);
        assert ([a] + Assignments(parts[1..]))[1..] == Assignments(parts[1..]);
      }
    }
  }

  lemma AssignmentsCons(p: string, ps: seq<string>)
    ensures Assignments([p] + ps) == if TrimSpace(p) == "" then Assignments(ps) else [TrimSpace(p)] + Assignments(ps)
  {
    assert ([p] + ps)[1..] == ps;
  }

  lemma {:induction false} RestAssignments(kept: seq<string>)
    requires kept != []
    ensures Assignments(RespacedRest(kept)) == Assignments(kept)
  {
    TrimBlanked(kept[0]);
    if |kept| == 1 {
      AssignmentsCons(" " + kept[0] + " ", []);
      AssignmentsCons(kept[0], []);
      assert [kept[0]] + [] == kept;
      assert [" " + kept[0] + " "] + [] == RespacedRest(kept);
    } else {
      RestAssignments(kept[1..]);
      AssignmentsCons(" " + kept[0], RespacedRest(kept[1..]));
      AssignmentsCons(kept[0], kept[1..]);
      assert [kept[0]] + kept[1..] == kept;
    }
  }

  lemma RespacedAssignments(kept: seq<string>)
    ensures Assignments(Respaced(kept)) == Assignments(kept)
  {
    if kept == [] {
      TrimBlanked("");
      AssignmentsCons(" ", []);
      assert [" "] + [] == [" "] && "" + " " == " ";
    } else if |kept| == 1 {
      TrimBlanked(kept[0]);
      AssignmentsCons(kept[0] + " ", []);
      AssignmentsCons(kept[0], []);
      assert [kept[0]] + [] == kept && [kept[0] + " "] + [] == Respaced(kept);
    } else {
      RestAssignments(kept[1..]);
      AssignmentsCons(kept[0], RespacedRest(kept[1..]));
      AssignmentsCons(kept[0], kept[1..]);
      assert [kept[0]] + kept[1..] == kept;
    }
  }

  /**
   For every located update, the rewriting yields the same target and condition with exactly
   the id assignments removed and the others in order.
   */
  lemma IdAssignmentsRemoved(u: Update)
    requires Located(u)
    ensures Rewrite(Print(u)) == Some(Print(Next(u)))
    ensures Next(u).target == u.target && Next(u).cond == u.cond
    ensures Assignments(Next(u).parts) == WithoutId(Assignments(u.parts))
  {
    UpdateExact(u);
    RespacedAssignments(Kept(u.parts));
    KeptAssignments(u.parts);
  }

  // ------------------------------------------------- a further WHERE in the condition

  lemma {:induction false} JoinSplit(s: string)
    ensures Join(SplitCommas(s), ",") == s
  {
    if s != [] {
      var rest := SplitCommas(s[1..]);
      JoinSplit(s[1..]);
      if s[0] == ',' {
        assert ([""] + rest)[1..] == rest;
      } else {
        JoinCons(s[0], rest[0], rest[1..]);
        assert [rest[0]] + rest[1..] == rest;
      }
    }
  }

  lemma {:induction false} JoinTwo(xs: seq<string>, ys: seq<string>)
    requires ys != []
    ensures Join(xs + ys, ",") == (if xs == [] then "" else Join(xs, ",") + ",") + Join(ys, ",")
  {
    if xs == [] {
      assert xs + ys == ys;
    } else {
      assert (xs + ys)[1..] == xs[1..] + ys;
      JoinTwo(xs[1..], ys);
    }
  }

  /** The update as the code reads it when its condition is `c1 WHERE c2`: all up to the last WHERE
      belongs to the SET text. */
  function AsRead(u: Update, c1: string, c2: string): Update
    requires u.parts != []
  {
    var n := |u.parts| - 1;
    Update(u.target, u.parts[..n] + SplitCommas(u.parts[n] + (" WHERE " + c1)), Some(c2))
  }

  lemma AsReadPrints(u: Update, c1: string, c2: string)
    requires u.parts != [] && u.cond == Some(c1 + (" WHERE " + c2))
    ensures Print(AsRead(u, c1, c2)) == Print(u)
  {
    var n := |u.parts| - 1;
    var xs, last := u.parts[..n], u.parts[n];
    var mid := last + (" WHERE " + c1);
    JoinSplit(mid);
    JoinTwo(xs, SplitCommas(mid));
    JoinTwo(xs, [last]);
    assert u.parts == xs + [last];
    ReadTexts(Front(u), if xs == [] then "" else Join(xs, ",") + ",", last, " WHERE ", c1, c2);
  }

  lemma ReadTexts(f: string, j: string, last: string, w: string, c1: string, c2: string)
    ensures (f + (j + (last + (w + c1)))) + (w + c2) == (f + (j + last)) + (w + (c1 + (w + c2)))
  {
  }

  lemma {:induction false} KeptAppend(a: seq<string>, b: seq<string>)
    ensures Kept(a + b) == Kept(a) + Kept(b)
  {
    if a == [] {
      assert a + b == b;
    } else {
      assert (a + b)[1..] == a[1..] + b;
      KeptAppend(a[1..], b);
    }
  }

  lemma {:induction false} SplitBehind(p: string, s: string)
    requires ',' !in p
    ensures SplitCommas(p + s) == [p + SplitCommas(s)[0]] + SplitCommas(s)[1..]
  {
    if p == "" {
      assert p + s == s && "" + SplitCommas(s)[0] == SplitCommas(s)[0];
    } else {
      assert (p + s)[1..] == p[1..] + s && (p + s)[0] == p[0];
      SplitBehind(p[1..], s);
      assert [p[0]] + (p[1..] + SplitCommas(s)[0]) == p + SplitCommas(s)[0];
    }
  }

  lemma {:induction false} LeftBehind(p: string, x: string)
    ensures TrimLeft(p) != "" ==> TrimLeft(p + x) == TrimLeft(p) + x
    ensures TrimLeft(p) == "" ==> TrimLeft(p + x) == TrimLeft(x)
  {
    if p == "" {
      assert p + x == x;
    } else {
      assert (p + x)[1..] == p[1..] + x;
      if IsSpace(p[0]) {
        LeftBehind(p[1..], x);
      }
    }
  }

  /** Trimming on the right takes nothing from a start that ends in a sign. */
  lemma TrimStart(p: string, k: string)
    requires k != "" && k[|k| - 1] == '='
    ensures k <= TrimSpace(p) <==> k <= TrimLeft(p)
  {
    var a := TrimLeft(p);
    TrimShortens(a);
    if k <= a {
      assert k[|k| - 1] == a[|k| - 1];
      TrimRightKeeps(a, |k| - 1);
      assert TrimRight(a)[..|k|] == a[..|k|];
    }
  }

  /** A start of `a + " WHERE..."` that ends in a sign and has no `W` is one of `a`. */
  lemma StartBefore(a: string, w: string, k: string)
    requires k != "" && k[|k| - 1] == '=' && 'W' !in k
    ensures k <= a + (" W" + w) <==> k <= a
  {
    var s := a + (" W" + w);
    if k <= a {
      assert s[..|k|] == a[..|k|];
    }
    if k <= s {
      assert s[|a|] == ' ' && s[|a| + 1] == 'W' && forall i | 0 <= i < |k| :: k[i] == s[i];
      assert forall i | 0 <= i < |k| :: k[i] in k;
      assert s[..|a|] == a;
      assert |k| <= |a| ==> a[..|k|] == s[..|k|];
    }
  }

  lemma StartBeforeWhere(p: string, w: string, k: string)
    requires k != "" && k[|k| - 1] == '=' && 'W' !in k && !IsSpace(k[0])
    ensures k <= TrimSpace(p + (" W" + w)) <==> k <= TrimSpace(p)
  {
    var x := " W" + w;
    TrimStart(p, k);
    TrimStart(p + x, k);
    LeftBehind(p, x);
    if TrimLeft(p) != "" {
      StartBefore(TrimLeft(p), w, k);
    } else {
      assert x[1..] == "W" + w && TrimLeft(x) == "W" + w;
      assert k[0] in k;
    }
  }

  /** A part stays an id assignment, or none, when WHERE is put behind it. */
  lemma IdBeforeWhere(p: string, w: string)
    ensures IsIdAssignment(p + (" W" + w)) <==> IsIdAssignment(p)
  {
    assert 'W' !in "`id` =" && 'W' !in "id =" && 'W' !in "\"id\" =";
    StartBeforeWhere(p, w, "`id` =");
    StartBeforeWhere(p, w, "id =");
    StartBeforeWhere(p, w, "\"id\" =");
  }

  /** The first part of the SET text the code reads behind the proper ones. */
  lemma FirstRead(last: string, c1: string) returns (w: string)
    requires ',' !in last
    ensures SplitCommas(last + (" WHERE " + c1))[0] == last + (" W" + w)
    ensures SplitCommas(last + (" WHERE " + c1))[1..] == SplitCommas(" WHERE " + c1)[1..]
  {
    var s := " WHERE ";
    SplitBehind(last, s + c1);
    assert ',' !in s;
    SplitBehind(s, c1);
    w := "HERE " + SplitCommas(c1)[0];
    assert s + SplitCommas(c1)[0] == " W" + w;
  }

  /**
   A further WHERE in the condition, as of a subquery: the code takes the last one, so it reads
   the text before as assignments. Of this text, the part up to the first comma goes, with the
   last assignment, exactly when that is one of the id: an outer condition is lost with it.
   */
  lemma FurtherWhereExact(u: Update, c1: string, c2: string)
    requires u.parts != [] && (forall i | 0 <= i < |u.parts| :: ',' !in u.parts[i])
    requires u.cond == Some(c1 + (" WHERE " + c2)) && Located(AsRead(u, c1, c2))
    ensures var v, n := AsRead(u, c1, c2), |u.parts| - 1;
            var read := SplitCommas(u.parts[n] + (" WHERE " + c1));
            && Rewrite(Print(u)) == Some(Print(Next(v)))
            && Kept(v.parts) == Kept(u.parts[..n]) + ((if IsIdAssignment(u.parts[n]) then [] else [read[0]]) + Kept(read[1..]))
  {
    var v, n := AsRead(u, c1, c2), |u.parts| - 1;
    var read := SplitCommas(u.parts[n] + (" WHERE " + c1));
    AsReadPrints(u, c1, c2);
    UpdateExact(v);
    KeptAppend(u.parts[..n], read);
    var w := FirstRead(u.parts[n], c1);
    IdBeforeWhere(u.parts[n], w);
    if IsIdAssignment(u.parts[n]) {
      assert [] + Kept(read[1..]) == Kept(read[1..]);
    }
  }

  // ------------------------------------------------------------- applying it twice

  /** The statement's own keywords are the only ones: the target brings no ` set `, no part has
      the word WHERE, and the condition contains no further WHERE. */
  ghost predicate PlainUpdate(u: Update) {
    && u.parts != [] && (forall i | 0 <= i < |u.parts| :: ',' !in u.parts[i])
    && Index(Lower(Front(u)), SET) == |Front(u)| - 5
    && !Contains(Lower("UPDATE " + u.target + " SET"), WHERE)
    && (forall i | 0 <= i < |u.parts| :: !Contains(" " + Lower(u.parts[i]) + " ", WHERE))
    && (u.cond.Some? ==> LastIndex(Lower(Tail(u)), WHERE) == 0)
  }

  lemma LowerAppend(a: string, b: string)
    ensures Lower(a + b) == Lower(a) + Lower(b)
  {
  }

  /** A first occurrence stays the first when text is appended. */
  lemma IndexAppend(a: string, b: string, p: string)
    requires Index(a, p) >= 0
    ensures Index(a + b, p) == Index(a, p)
  {
    var i := Index(a, p);
    AtLeft(a, b, p, i);
    forall j | 0 <= j < i ensures !At(a + b, p, j) {
      AtLeft(a, b, p, j);
    }
  }

  /** A last occurrence stays the last when text is put in front. */
  lemma LastIndexPrepend(a: string, b: string, p: string)
    requires LastIndex(b, p) >= 0
    ensures LastIndex(a + b, p) == |a| + LastIndex(b, p)
  {
    var i := LastIndex(b, p);
    AtRight(a, b, p, i);
    forall j | j > |a| + i ensures !At(a + b, p, j) {
      AtRight(a, b, p, j - |a|);
    }
  }

  /** ` where ` does not straddle a comma. */
  lemma WhereAtComma(a: string, b: string, i: int)
    requires !Contains(a, WHERE) && !Contains(b, WHERE)
    ensures !At(a + "," + b, WHERE, i)
  {
    var s := a + "," + b;
    if i + |WHERE| <= |a| {
      Assoc(a, ",", b);
      AtLeft(a, "," + b, WHERE, i);
    } else if i > |a| {
      AtRight(a + ",", b, WHERE, i - |a| - 1);
    } else {
      AtChars(s, WHERE, i);
      assert s[|a|] == ',' && forall e | 0 <= e < |WHERE| :: WHERE[e] != ',';
    }
  }

  lemma {:induction false} NoWhereInParts(parts: seq<string>)
    requires parts != [] && forall i | 0 <= i < |parts| :: !Contains(" " + Lower(parts[i]) + " ", WHERE)
    ensures !Contains(" " + Lower(Join(parts, ",")) + " ", WHERE)
  {
    if |parts| > 1 {
      NoWhereInParts(parts[1..]);
      var a, b := " " + Lower(parts[0]), Lower(Join(parts[1..], ",")) + " ";
      LowerAppend(parts[0] + ",", Join(parts[1..], ","));
      LowerAppend(parts[0], ",");
      assert " " + Lower(Join(parts, ",")) + " " == a + "," + b;
      Shorter(a, " ");
      PartShorter(" ", b);
      assert " " + b == " " + Lower(Join(parts[1..], ",")) + " ";
      forall i ensures !At(a + "," + b, WHERE, i) {
        WhereAtComma(a, b, i);
      }
    }
  }

  lemma Shorter(a: string, b: string)
    ensures !Contains(a + b, WHERE) ==> !Contains(a, WHERE)
  {
    forall i | 0 <= i <= |a| ensures At(a, WHERE, i) ==> At(a + b, WHERE, i) {
      if i + |WHERE| <= |a| { AtLeft(a, b, WHERE, i); }
    }
  }

  lemma PartShorter(a: string, b: string)
    ensures !Contains(a + b, WHERE) ==> !Contains(b, WHERE)
  {
    forall i | 0 <= i <= |b| ensures At(b, WHERE, i) ==> At(a + b, WHERE, |a| + i) {
      AtRight(a, b, WHERE, i);
    }
  }

  /** ` where ` does not straddle the end of SET. */
  lemma WhereAtSet(a: string, b: string)
    requires !Contains(a, WHERE) && !Contains(b, WHERE)
    requires a != [] && a[|a| - 1] == 't'
    ensures !Contains(a + b, WHERE)
  {
    var s := a + b;
    forall i | 0 <= i <= |s| ensures !At(s, WHERE, i) {
      if i + |WHERE| <= |a| {
        AtLeft(a, b, WHERE, i);
      } else if i >= |a| {
        AtRight(a, b, WHERE, i - |a|);
      } else {
        AtChars(s, WHERE, i);
        assert s[|a| - 1] == 't' && forall e | 0 <= e < |WHERE| :: WHERE[e] != 't';
      }
    }
  }

  lemma PlainHasNoWhere(u: Update)
    requires PlainUpdate(u) && u.cond.None?
    ensures LastIndex(Lower(Print(u)), WHERE) == -1
  {
    var body := Join(u.parts, ",");
    var h, s := "UPDATE " + u.target + " SET", " " + Lower(body);
    NoWhereInParts(u.parts);
    Shorter(s, " ");
    assert Print(u) == h + (" " + body);
    LowerAppend(h, " " + body);
    LowerAppend(" ", body);
    assert Lower(" ") == " ";
    assert Lower(h)[|h| - 1] == LowerChar(h[|h| - 1]) == 't';
    WhereAtSet(Lower(h), s);
    NoWhereLast(Lower(Print(u)));
  }

  lemma PlainIsLocated(u: Update)
    requires PlainUpdate(u)
    ensures Located(u)
  {
    var f, body, t := Front(u), Join(u.parts, ","), Tail(u);
    Assoc(f, body, t);
    LowerAppend(f, body + t);
    IndexAppend(Lower(f), Lower(body + t), SET);
    if u.cond.Some? {
      LowerAppend(f + body, t);
      LastIndexPrepend(Lower(f + body), Lower(t), WHERE);
    } else {
      PlainHasNoWhere(u);
    }
  }

  lemma NoWhereLast(s: string)
    requires !Contains(s, WHERE)
    ensures LastIndex(s, WHERE) == -1
  {
    var i := LastIndex(s, WHERE);
    assert i != -1 ==> At(s, WHERE, i) && 0 <= i <= |s|;
  }

  predicate PlainPart(p: string) {
    ',' !in p && !Contains(" " + Lower(p) + " ", WHERE)
  }

  lemma BlankFront(s: string)
    requires s != [] && s[0] == ' ' && !Contains(s, WHERE)
    ensures !Contains(" " + s, WHERE)
  {
    forall i | 0 <= i <= |s| + 1 ensures !At(" " + s, WHERE, i) {
      if i == 0 {
        AtChars(" " + s, WHERE, 0);
        assert (" " + s)[1] == ' ';
      } else {
        AtRight(" ", s, WHERE, i - 1);
      }
    }
  }

  lemma BlankBack(s: string)
    requires s != [] && s[|s| - 1] == ' ' && !Contains(s, WHERE)
    ensures !Contains(s + " ", WHERE)
  {
    var t := s + " ";
    forall i | 0 <= i <= |t| ensures !At(t, WHERE, i) {
      if i + |WHERE| <= |s| {
        AtLeft(s, " ", WHERE, i);
      } else {
        AtChars(t, WHERE, i);
        assert t[|t| - 1] == ' ' && t[|t| - 2] == ' ';
      }
    }
  }

  lemma PlainBlanked(p: string)
    requires PlainPart(p)
    ensures PlainPart(" " + p) && PlainPart(p + " ") && PlainPart(" " + p + " ")
  {
    var s := " " + Lower(p) + " ";
    assert Lower(" " + p) == " " + Lower(p) && Lower(p + " ") == Lower(p) + " " && Lower(" " + p + " ") == s;
    BlankFront(s);
    BlankBack(s);
    assert " " + (" " + Lower(p)) + " " == " " + s;
    assert " " + (Lower(p) + " ") + " " == s + " ";
    BlankBack(" " + s);
    assert " " + s + " " == (" " + s) + " ";
  }

  lemma {:induction false} KeptPlain(parts: seq<string>)
    requires forall i | 0 <= i < |parts| :: PlainPart(parts[i])
    ensures forall i | 0 <= i < |Kept(parts)| :: PlainPart(Kept(parts)[i])
  {
    if parts != [] {
      KeptPlain(parts[1..]);
    }
  }

  lemma {:induction false} RestPlain(kept: seq<string>)
    requires kept != [] && forall i | 0 <= i < |kept| :: PlainPart(kept[i])
    ensures forall i | 0 <= i < |RespacedRest(kept)| :: PlainPart(RespacedRest(kept)[i])
  {
    PlainBlanked(kept[0]);
    if |kept| > 1 {
      RestPlain(kept[1..]);
    }
  }

  lemma RespacedPlain(kept: seq<string>)
    requires forall i | 0 <= i < |kept| :: PlainPart(kept[i])
    ensures Respaced(kept) != [] && forall i | 0 <= i < |Respaced(kept)| :: PlainPart(Respaced(kept)[i])
  {
    if kept == [] {
      ShortPlain();
    } else if |kept| == 1 {
      PlainBlanked(kept[0]);
    } else {
      RestPlain(kept[1..]);
    }
  }

  lemma ShortPlain()
    ensures PlainPart(" ")
  {
    assert |" " + Lower(" ") + " "| == 3;
  }

  lemma NextIsPlain(u: Update)
    requires PlainUpdate(u)
    ensures PlainUpdate(Next(u))
  {
    forall i | 0 <= i < |u.parts| ensures PlainPart(u.parts[i]) {
    }
    KeptPlain(u.parts);
    RespacedPlain(Kept(u.parts));
    forall i | 0 <= i < |Next(u).parts|
      ensures ',' !in Next(u).parts[i] && !Contains(" " + Lower(Next(u).parts[i]) + " ", WHERE)
    {
      assert PlainPart(Next(u).parts[i]);
    }
  }

  lemma {:induction false} WithoutIdTwice(assigns: seq<string>)
    ensures WithoutId(WithoutId(assigns)) == WithoutId(assigns)
  {
    if assigns != [] {
      WithoutIdTwice(assigns[1..]);
      assert ([assigns[0]] + WithoutId(assigns[1..]))[1..] == WithoutId(assigns[1..]);
    }
  }

  /** For every plain update, rewriting the rewritten text changes blanks only: target,
      condition and assignments stay. */
  lemma TwiceIsOnce(u: Update)
    requires PlainUpdate(u)
    ensures Rewrite(Print(u)) == Some(Print(Next(u)))
    ensures Rewrite(Print(Next(u))) == Some(Print(Next(Next(u))))
    ensures Assignments(Next(Next(u)).parts) == Assignments(Next(u).parts)
  {
    NextIsPlain(u);
    PlainIsLocated(u);
    PlainIsLocated(Next(u));
    IdAssignmentsRemoved(u);
    IdAssignmentsRemoved(Next(u));
    WithoutIdTwice(Assignments(u.parts));
  }

  // ------------------------------------------------------------ the limits of it

  /** Trimming keeps the start of a text that starts with no white space, up to any other character that is none. */
  lemma {:induction false} TrimRightKeeps(s: string, n: nat)
    requires n < |s| && !IsSpace(s[n])
    ensures |TrimRight(s)| > n && TrimRight(s)[..n + 1] == s[..n + 1]
  {
    if IsSpace(s[|s| - 1]) {
      TrimRightKeeps(s[..|s| - 1], n);
    }
  }

  /**
   An assignment, with any white space before its sign and any text behind it, is taken out
   exactly when its column is id, plain or quoted, and one blank stands before the sign.
   */
  lemma IdAssignmentExact(name: string, ws: string, v: string)
    requires name != "" && NoSpace(name) && '=' !in name && forall i | 0 <= i < |ws| :: IsSpace(ws[i])
    ensures IsIdAssignment(name + ws + "=" + v) <==> name in {"id", "`id`", "\"id\""} && ws == " "
  {
    var s, n := name + ws + "=" + v, |name + ws|;
    var t := TrimSpace(s);
    assert s[0] == name[0] && s[n] == '=';
    TrimRightKeeps(s, n);
    assert t[..n + 1] == s[..n + 1] == name + ws + "=";
    SignBehind(t, name, ws, "id");
    SignBehind(t, name, ws, "`id`");
    SignBehind(t, name, ws, "\"id\"");
  }

  lemma SignBehind(t: string, name: string, ws: string, id: string)
    requires NoSpace(name) && '=' !in name && forall i | 0 <= i < |ws| :: IsSpace(ws[i])
    requires NoSpace(id) && '=' !in id && name + ws + "=" <= t
    ensures id + " =" <= t <==> name == id && ws == " "
  {
    var p, q := id + " =", name + ws + "=";
    AtChars(t, p, 0);
    AtChars(t, q, 0);
    assert (p <= t ==> At(t, p, 0)) && At(t, q, 0);
    assert forall j | 0 <= j < |id| :: p[j] == id[j] && id[j] in id;
    assert forall j | 0 <= j < |name| :: q[j] == name[j] && name[j] in name;
    assert forall j | |name| <= j < |name + ws| :: q[j] == ws[j - |name|];
    assert p[|id|] == ' ' && p[|id| + 1] == '=' && q[|name + ws|] == '=' && q[|name|] == if ws == "" then '=' else ws[0];
    if p <= t {
      SameSign(p, q, t, |id| + 1, |name + ws|);
      FirstSpaces(p, q, t, |id|, |name|);
      assert p[..|id|] == id && q[..|name|] == name;
    }
  }

  /** Two starts of one text have their first `=` at one place. */
  lemma SameSign(p: string, q: string, t: string, i: nat, j: nat)
    requires p <= t && q <= t && i < |p| && j < |q| && p[i] == '=' && q[j] == '='
    requires (forall x | 0 <= x < i :: p[x] != '=') && (forall x | 0 <= x < j :: q[x] != '=')
    ensures i == j
  {
    assert t[i] == p[i] && t[j] == q[j];
    assert (forall x | 0 <= x < |p| :: t[x] == p[x]) && forall x | 0 <= x < |q| :: t[x] == q[x];
  }

  /** And so they have their first white space or sign. */
  lemma FirstSpaces(p: string, q: string, t: string, i: nat, j: nat)
    requires p <= t && q <= t && i < |p| && j < |q|
    requires IsSpace(p[i]) && (forall x | 0 <= x < i :: !IsSpace(p[x]) && p[x] != '=')
    requires (IsSpace(q[j]) || q[j] == '=') && (forall x | 0 <= x < j :: !IsSpace(q[x]) && q[x] != '=')
    ensures i == j
  {
    assert t[i] == p[i] && t[j] == q[j];
    assert (forall x | 0 <= x < |p| :: t[x] == p[x]) && forall x | 0 <= x < |q| :: t[x] == q[x];
  }

  lemma KeywordsOverlap(h: string, w: string)
    requires w != [] && w[0] == ' ' && Index(Lower(h + " "), SET) == |h| - 4 >= 0 && LastIndex(Lower(w), WHERE) == 0
    ensures Index(Lower(h + w), SET) == |h| - 4 && LastIndex(Lower(h + w), WHERE) == |h|
  {
    SharedBlank(h, w[1..]);
    assert w == " " + w[1..];
    LowerAppend(h + " ", w[1..]);
    IndexAppend(Lower(h + " "), Lower(w[1..]), SET);
    LowerAppend(h, w);
    LastIndexPrepend(Lower(h), Lower(w), WHERE);
  }

  /** An empty SET clause, as in `UPDATE t SET WHERE c`, makes the two keywords share their blank:
      the slice between them is out of range. `h` is the text up to SET, `w` starts at that blank. */
  lemma EmptySetPanics(h: string, w: string)
    requires "UPDATE " <= h && Index(Lower(h + " "), SET) == |h| - 4 >= 0
    requires w != [] && w[0] == ' ' && LastIndex(Lower(w), WHERE) == 0
    ensures Rewrite(h + w) == None
  {
    KeywordsOverlap(h, w);
    assert h + w == "UPDATE " + (h[7..] + w);
    UpdatePrefix(h + w, h[7..] + w);
  }

  /** The slice between SET and WHERE is out of range exactly when the last ` where ` starts at
      the blank that ends the first ` set `, in a text that starts with UPDATE. */
  lemma OutOfRangeExact(q: string)
    ensures Rewrite(q) == None <==>
            && |q| > 6 && "UPDATE" <= Upper(q)
            && Index(Lower(q), SET) >= 0 && LastIndex(Lower(q), WHERE) == Index(Lower(q), SET) + 4
  {
    var l := Lower(q);
    var i, j := Index(l, SET), LastIndex(l, WHERE);
    if i >= 0 && j >= 0 {
      AtChars(l, SET, i);
      AtChars(l, WHERE, j);
      assert SET[0] == ' ' && SET[1] == 's' && SET[2] == 'e' && SET[3] == 't';
      assert WHERE[0] == ' ' && WHERE[1] == 'w' && WHERE[2] == 'h' && WHERE[3] == 'e';
    }
  }

  lemma SharedBlank(h: string, rest: string)
    ensures h + (" " + rest) == (h + " ") + rest
  {
  }

  lemma UpdatePrefix(q: string, rest: string)
    requires q == "UPDATE " + rest
    ensures |q| > 6 && "UPDATE" <= Upper(q)
  {
    assert forall i | 0 <= i < 7 :: q[i] == "UPDATE "[i];
    assert Upper(q)[..6] == "UPDATE";
  }

  const DELETE_FROM := "DELETE FROM "

  /** `DELETE FROM ` in any letters. */
  predicate DeletesFrom(kw: string) {
    Upper(kw) == DELETE_FROM
  }

  lemma KeywordChars(kw: string)
    requires DeletesFrom(kw)
    ensures |kw| == 12 && !IsSpace(kw[0]) && !IsSpace(kw[10]) && kw[11] == ' '
  {
    assert forall i | 0 <= i < 12 :: UpperChar(kw[i]) == DELETE_FROM[i];
    assert DELETE_FROM[0] == 'D' && DELETE_FROM[10] == 'M' && DELETE_FROM[11] == ' ';
  }

  lemma UpperAppend(a: string, b: string)
    ensures Upper(a + b) == Upper(a) + Upper(b)
  {
  }

  lemma DeletePrefix(kw: string, rest: string)
    requires DeletesFrom(kw)
    ensures DELETE_FROM <= Upper(kw + rest)
  {
    UpperAppend(kw, rest);
  }

  predicate AllSpace(ws: string) {
    forall i | 0 <= i < |ws| :: IsSpace(ws[i])
  }

  lemma {:induction false} TrimLeftBlank(ws: string, s: string)
    requires AllSpace(ws) && s != [] && !IsSpace(s[0])
    ensures TrimLeft(ws + s) == s
  {
    if ws == [] {
      assert ws + s == s;
    } else {
      assert (ws + s)[1..] == ws[1..] + s;
      TrimLeftBlank(ws[1..], s);
    }
  }

  lemma FirstDelete(ws: string, kw: string, rest: string)
    requires AllSpace(ws) && DeletesFrom(kw)
    ensures Index(Upper(ws + (kw + rest)), DELETE_FROM) == |ws|
  {
    var u := Upper(ws + (kw + rest));
    UpperAppend(ws, kw + rest);
    DeletePrefix(kw, rest);
    AtRight(Upper(ws), Upper(kw + rest), DELETE_FROM, 0);
    assert At(u, DELETE_FROM, |ws|);
    forall j | 0 <= j < |ws| ensures !At(u, DELETE_FROM, j) {
      AtChars(u, DELETE_FROM, j);
      assert u[j] == UpperChar(ws[j]) && IsSpace(ws[j]) && DELETE_FROM[0] == 'D';
    }
  }

  /** What trimming removes from the left. */
  lemma {:induction false} TrimLeftSuffix(s: string)
    ensures |TrimLeft(s)| <= |s| && s[|s| - |TrimLeft(s)|..] == TrimLeft(s)
    ensures forall i | 0 <= i < |s| - |TrimLeft(s)| :: IsSpace(s[i])
  {
    if s != [] && IsSpace(s[0]) {
      TrimLeftSuffix(s[1..]);
      assert forall i | 1 <= i < |s| :: s[i] == s[1..][i - 1];
    }
  }

  /** A text that trims to nothing is blank; in any other some character stays. */
  lemma BlankOrNot(s: string) returns (m: nat)
    ensures if TrimSpace(s) == "" then forall i | 0 <= i < |s| :: IsSpace(s[i]) else m < |s| && !IsSpace(s[m])
  {
    TrimLeftSuffix(s);
    TrimLeftTrimmed(s);
    TrimRightTrimmed(TrimLeft(s));
    m := |s| - |TrimLeft(s)|;
    assert TrimLeft(s) != [] ==> s[m] == TrimLeft(s)[0];
  }

  lemma {:induction false} TrimRightBlank(a: string, b: string)
    requires a != [] && !IsSpace(a[|a| - 1]) && forall i | 0 <= i < |b| :: IsSpace(b[i])
    ensures TrimRight(a + b) == a
  {
    var s := a + b;
    if b == [] {
      assert s == a;
    } else {
      assert s[|s| - 1] == b[|b| - 1] && s[..|s| - 1] == a + b[..|b| - 1];
      TrimRightBlank(a, b[..|b| - 1]);
    }
  }

  /** A DELETE FROM without a target stays as it is. */
  lemma BlankDeleteStays(ws: string, kw: string, rest: string)
    requires AllSpace(ws) && DeletesFrom(kw) && TrimSpace(rest) == ""
    ensures RewriteDelete(ws + (kw + rest)) == ws + (kw + rest)
  {
    var t, d := kw + rest, kw[..11];
    var _ := BlankOrNot(rest);
    KeywordChars(kw);
    TrimLeftBlank(ws, t);
    assert kw == d + " " && t == d + (" " + rest);
    TrimRightBlank(d, " " + rest);
    assert |TrimSpace(ws + t)| == 11;
  }

  lemma TargetDeleteRewritten(ws: string, kw: string, rest: string)
    requires AllSpace(ws) && DeletesFrom(kw) && TrimSpace(rest) != ""
    ensures RewriteDelete(ws + (kw + rest)) == ws + "DELETE " + TrimSpace(rest)
  {
    var q := ws + (kw + rest);
    TrimmedDeletePrefix(ws, kw, rest);
    FirstDelete(ws, kw, rest);
    KeywordChars(kw);
    assert q[|ws| + 12..] == rest && q[..|ws|] == ws;
  }

  lemma TrimmedDeletePrefix(ws: string, kw: string, rest: string)
    requires AllSpace(ws) && DeletesFrom(kw) && TrimSpace(rest) != ""
    ensures |ws + (kw + rest)| > 12 && DELETE_FROM <= Upper(TrimSpace(ws + (kw + rest)))
  {
    var q := kw + rest;
    var m := BlankOrNot(rest);
    KeywordChars(kw);
    TrimLeftBlank(ws, q);
    assert q[12 + m] == rest[m];
    TrimRightKeeps(q, 12 + m);
    var t := TrimRight(q);
    assert t[..12 + m + 1][..12] == t[..12] && q[..12 + m + 1][..12] == q[..12] == kw;
    assert t == kw + t[12..];
    DeletePrefix(kw, t[12..]);
  }

  /** `DELETE FROM x`, in any letters and behind any white space, becomes `DELETE x` with the white
      space around `x` trimmed, whatever `x` is, and stays as it is when nothing follows. */
  lemma DeleteFromExact(ws: string, kw: string, rest: string)
    requires AllSpace(ws) && DeletesFrom(kw)
    ensures Rewrite(ws + (kw + rest)) ==
            Some(if TrimSpace(rest) == "" then ws + (kw + rest) else ws + "DELETE " + TrimSpace(rest))
  {
    NoUpdate(ws, kw, rest);
    if TrimSpace(rest) == "" {
      BlankDeleteStays(ws, kw, rest);
    } else {
      TargetDeleteRewritten(ws, kw, rest);
    }
  }

  lemma NoUpdate(ws: string, kw: string, rest: string)
    requires AllSpace(ws) && DeletesFrom(kw)
    ensures RewriteUpdate(ws + (kw + rest)) == Some(ws + (kw + rest))
  {
    var q := ws + (kw + rest);
    KeywordChars(kw);
    assert UpperChar(kw[0]) == Upper(kw)[0] == 'D';
    assert q[0] == if ws == [] then kw[0] else ws[0];
    assert Upper(q)[0] == UpperChar(q[0]) != 'U';
    assert "UPDATE"[0] == 'U';
  }

  /** Every text that neither starts with UPDATE nor, behind white space, with DELETE FROM stays. */
  lemma OthersStay(q: string)
    requires !("UPDATE" <= Upper(q)) && !("DELETE FROM " <= Upper(TrimSpace(q)))
    ensures Rewrite(q) == Some(q)
  {
  }
}
