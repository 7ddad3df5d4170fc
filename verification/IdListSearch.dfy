/**
 The search for an id list in the text of a statement (callback_query.go:17-21 and 33-41): the
 regular expression of `id IN ($p1, $p2)` with an optional qualifier and optional backticks, and
 the one of the placeholders in it. Each repetition is greedy and followed by a character it cannot
 take itself, so at every place there is at most one way to match. Each part of the expression
 is a function to the text behind what it matches.
 */
module IdListSearch {
  import opened Wrappers
  import opened Strings
  import opened Decimal
  import opened ConjunctText

  const LIST := " IN ("

  /** `\s`. */
  predicate IsWhite(c: char) {
    c == ' ' || c == '\t' || c == '\n' || c == '\r' || c == '\U{0C}'
  }

  function SkipWhite(s: string): (r: string)
    ensures |r| <= |s|
  {
    if s != [] && IsWhite(s[0]) then SkipWhite(s[1..]) else s
  }

  /** The digits a text starts with. */
  function DigitRun(s: string): (d: string)
    ensures |d| <= |s| && d == s[..|d|] && forall i | 0 <= i < |d| :: IsDigit(d[i])
    ensures |d| < |s| ==> !IsDigit(s[|d|])
  {
    if s == [] || !IsDigit(s[0]) then [] else [s[0]] + DigitRun(s[1..])
  }

  /** `(?:,\s*)?`. */
  function AfterComma(s: string): (r: string)
    ensures |r| <= |s|
  {
    if s != [] && s[0] == ',' then SkipWhite(s[1..]) else s
  }

  /** `\$p\d+(?:,\s*)?`. */
  function AfterItem(t: string): (r: Option<string>)
    ensures r.Some? ==> |r.value| < |t|
  {
    if "$p" <= t && DigitRun(t[2..]) != "" then Some(AfterComma(t[2 + |DigitRun(t[2..])|..])) else None
  }

  /** One item or more, up to a closing parenthesis. */
  function AfterList(t: string): (r: Option<string>)
    ensures r.Some? ==> 0 < |r.value| <= |t|
    decreases |t|
  {
    match AfterItem(t)
    case None => None
    case Some(next) => if next != [] && next[0] == ')' then Some(next) else AfterList(next)
  }

  /** An optional backtick. */
  function AfterTick(t: string): (r: string)
    ensures |r| <= |t|
  {
    if t != [] && t[0] == '`' then t[1..] else t
  }

  /** "`?id`?" and the opening of a list. */
  function AfterBare(t: string): (r: Option<string>)
    ensures r.Some? ==> |r.value| < |t|
  {
    var a := AfterTick(t);
    if "id" <= a && LIST <= AfterTick(a[2..]) then Some(AfterTick(a[2..])[|LIST|..]) else None
  }

  /** "`?[A-Za-z0-9_]+`?\.". */
  function AfterQualifier(t: string): (r: Option<string>)
    ensures r.Some? ==> |r.value| < |t|
  {
    var a := AfterTick(t);
    var c := AfterTick(a[|IdentRun(a)|..]);
    if IdentRun(a) != [] && c != [] && c[0] == '.' then Some(c[1..]) else None
  }

  /** The text of the list on, and the text from its closing parenthesis on. */
  function MatchBare(t: string): (r: Option<(string, string)>)
    ensures r.Some? ==> |r.value.0| < |t| && 0 < |r.value.1| <= |r.value.0|
  {
    match AfterBare(t)
    case None => None
    case Some(list) =>
      match AfterList(list)
      case None => None
      case Some(rest) => Some((list, rest))
  }

  /** The match at the start of a text; the qualifier is tried first. */
  function MatchAt(t: string): (r: Option<(string, string)>)
    ensures r.Some? ==> |r.value.0| < |t| && 0 < |r.value.1| <= |r.value.0|
  {
    var q := AfterQualifier(t);
    if q.Some? && MatchBare(q.value).Some? then MatchBare(q.value) else MatchBare(t)
  }

  /** A match: its whole text and the text of the list. */
  datatype Match = Match(pred: string, inner: string)

  /** `FindStringSubmatch`: the leftmost match. */
  function Search(s: string): (r: Option<Match>)
    ensures r.Some? ==> r.value.pred != ""
  {
    match MatchAt(s)
    case Some((list, rest)) => Some(Match(s[..|s| - |rest| + 1], list[..|list| - |rest|]))
    case None => if s == [] then None else Search(s[1..])
  }

  /** No match of `b + t` starts in `b`. */
  ghost predicate NoMatchIn(b: string, t: string) {
    forall j | 0 <= j < |b| :: MatchAt(b[j..] + t).None?
  }

  /** The leftmost match of `b + t` when no match starts in `b` and `t` is one up to `rest`. */
  lemma {:induction false} SearchAt(b: string, t: string, m: Match, rest: string)
    requires MatchAt(t) == Some((m.inner + (")" + rest), ")" + rest)) && t == m.pred + rest
    requires NoMatchIn(b, t)
    ensures Search(b + t) == Some(m)
  {
    if b == [] {
      assert b + t == t;
      MatchTexts(t, m, rest);
    } else {
      assert b[0..] + t == b + t && (b + t)[1..] == b[1..] + t;
      forall j | 0 <= j < |b| - 1 ensures MatchAt(b[1..][j..] + t).None? {
        assert b[1..][j..] == b[j + 1..];
      }
      SearchAt(b[1..], t, m, rest);
    }
  }

  lemma MatchTexts(t: string, m: Match, rest: string)
    requires t == m.pred + rest
    ensures t[..|t| - |")" + rest| + 1] == m.pred && (m.inner + (")" + rest))[..|m.inner|] == m.inner
  {
  }

  lemma {:induction false} SearchNone(s: string)
    requires forall j | 0 <= j <= |s| :: MatchAt(s[j..]).None?
    ensures Search(s) == None
  {
    assert s[0..] == s;
    assert MatchAt(s[0..]).None?;
    if s != [] {
      forall j | 0 <= j <= |s| - 1 ensures MatchAt(s[1..][j..]).None? {
        assert s[1..][j..] == s[j + 1..];
      }
      SearchNone(s[1..]);
    }
  }

  /** A placeholder as it is written. */
  predicate IsPlace(p: string) {
    |p| > 2 && p[..2] == "$p" && forall i | 2 <= i < |p| :: IsDigit(p[i])
  }

  /** `FindAllString` of `\$p(\d+)`. */
  function FindPlaces(s: string): (ps: seq<string>)
    ensures forall i | 0 <= i < |ps| :: IsPlace(ps[i])
    decreases |s|
  {
    if s == [] then []
    else if "$p" <= s && DigitRun(s[2..]) != "" then
      var d := DigitRun(s[2..]);
      ["$p" + d] + FindPlaces(s[2 + |d|..])
    else FindPlaces(s[1..])
  }

  /** `strconv.Atoi`; a number too large for an int is an error there and beyond every index here. */
  function Number(d: string): nat
    requires forall i | 0 <= i < |d| :: IsDigit(d[i])
  {
    if d == [] then 0
    else
      assert IsDigit(d[|d| - 1]);
      10 * Number(d[..|d| - 1]) + (d[|d| - 1] - '0') as nat
  }

  function PlaceNumber(p: string): nat
    requires IsPlace(p)
  {
    Number(p[2..])
  }

  // ------------------------------------------------------------ what a match is

  predicate IsBareName(c: string) {
    c == "id" || c == "`id" || c == "id`" || c == "`id`"
  }

  /** The texts in front of ` IN (` that the expression takes. */
  predicate IsListName(c: string) {
    IsBareName(c) || (AfterQualifier(c).Some? && IsBareName(AfterQualifier(c).value))
  }

  lemma TickSplit(t: string) returns (a: string)
    ensures t == a + AfterTick(t) && (a == "" || a == "`")
    ensures a == "" ==> t == "" || t[0] != '`'
  {
    a := if t != [] && t[0] == '`' then "`" else "";
  }

  lemma TickAfter(a: string, t: string)
    requires a == "`" || (a == "" && (t == "" || t[0] != '`'))
    ensures AfterTick(a + t) == t
  {
    assert a == "`" ==> (a + t)[1..] == t;
    assert a == "" ==> a + t == t;
  }

  lemma BareSound(t: string) returns (c: string)
    requires AfterBare(t).Some?
    ensures IsBareName(c) && t == c + (LIST + AfterBare(t).value)
  {
    var a := TickSplit(t);
    var u := AfterTick(t);
    var b := TickSplit(u[2..]);
    var v := AfterTick(u[2..]);
    assert u == "id" + u[2..] && v == LIST + v[|LIST|..];
    c := a + ("id" + b);
    BareTexts(a, b, LIST + v[|LIST|..]);
  }

  lemma BareTexts(a: string, b: string, v: string)
    requires (a == "" || a == "`") && (b == "" || b == "`")
    ensures IsBareName(a + ("id" + b)) && a + ("id" + (b + v)) == (a + ("id" + b)) + v
  {
    assert "id" + "" == "id" && "" + "id" == "id";
  }

  lemma BareSplit(c: string) returns (a: string, b: string)
    requires IsBareName(c)
    ensures (a == "" || a == "`") && (b == "" || b == "`") && c == a + ("id" + b)
  {
    a := if c[0] == '`' then "`" else "";
    b := if c[|c| - 1] == '`' then "`" else "";
  }

  lemma BareComplete(c: string, list: string)
    requires IsBareName(c)
    ensures AfterBare(c + (LIST + list)) == Some(list)
  {
    var a, b := BareSplit(c);
    var v := LIST + list;
    BareTexts(a, b, v);
    TickAfter(a, "id" + (b + v));
    var u := "id" + (b + v);
    assert u[..2] == "id" && u[2..] == b + v;
    assert v[0] == LIST[0] == ' ';
    TickAfter(b, v);
    assert v[..|LIST|] == LIST && v[|LIST|..] == list;
  }

  /** The text of a qualifier. */
  predicate IsQualifier(a: string, name: string, b: string) {
    (a == "" || a == "`") && (b == "" || b == "`") && name != "" && forall i | 0 <= i < |name| :: IsIdentChar(name[i])
  }

  function QualifierText(a: string, name: string, b: string): string {
    a + (name + (b + "."))
  }

  lemma QualifierSound(t: string) returns (a: string, name: string, b: string)
    requires AfterQualifier(t).Some?
    ensures IsQualifier(a, name, b) && t == QualifierText(a, name, b) + AfterQualifier(t).value
  {
    a := TickSplit(t);
    var u, c := AfterTick(t), "";
    name := IdentRun(u);
    assert u == name + u[|name|..];
    b, c := TickDot(u[|name|..]);
    QualifierAssoc(a, name, b, c);
  }

  lemma TickDot(v: string) returns (b: string, c: string)
    requires AfterTick(v) != [] && AfterTick(v)[0] == '.'
    ensures c == AfterTick(v)[1..] && v == b + ("." + c) && (b == "" || b == "`")
  {
    b := TickSplit(v);
    c := AfterTick(v)[1..];
    assert AfterTick(v) == "." + c;
  }

  lemma QualifierAssoc(a: string, name: string, b: string, u: string)
    ensures a + (name + (b + ("." + u))) == QualifierText(a, name, b) + u
  {
  }

  lemma QualifierComplete(a: string, name: string, b: string, u: string)
    requires IsQualifier(a, name, b)
    ensures AfterQualifier(QualifierText(a, name, b) + u) == Some(u)
  {
    var v := b + ("." + u);
    QualifierAssoc(a, name, b, u);
    assert (name + v)[0] == name[0] && IsIdentChar(name[0]);
    TickAfter(a, name + v);
    assert !IsIdentChar(v[0]) && (name + v)[|name|] == v[0] && (name + v)[..|name|] == name;
    IdentRunUnique(name + v, name);
    assert (name + v)[|name|..] == v;
    TickAfter(b, "." + u);
    assert ("." + u)[1..] == u;
  }

  /** A bare name in front of a list is no qualifier. */
  lemma BareUnqualified(c: string, v: string)
    requires IsBareName(c) && v != "" && v[0] == ' '
    ensures AfterQualifier(c + v) == None
  {
    var a, b := BareSplit(c);
    BareTexts(a, b, v);
    var u, w := "id" + (b + v), b + v;
    TickAfter(a, u);
    assert !IsIdentChar(w[0]) && u[2] == w[0] && u[..2] == "id";
    IdentRunUnique(u, "id");
    assert u[2..] == w;
    TickAfter(b, v);
  }

  /** Every match is a name in front of a list. */
  lemma MatchSound(t: string) returns (c: string)
    requires MatchAt(t).Some?
    ensures IsListName(c) && t == c + (LIST + MatchAt(t).value.0)
  {
    var q := AfterQualifier(t);
    if q.Some? && MatchBare(q.value).Some? {
      var a, name, b := QualifierSound(t);
      c := BareSound(q.value);
      QualifierComplete(a, name, b, c);
      Assoc(QualifierText(a, name, b), c, LIST + AfterBare(q.value).value);
      c := QualifierText(a, name, b) + c;
    } else {
      c := BareSound(t);
    }
  }

  lemma BareMatch(c: string, list: string)
    requires IsBareName(c) && AfterList(list).Some?
    ensures MatchBare(c + (LIST + list)) == Some((list, AfterList(list).value))
  {
    BareComplete(c, list);
  }

  lemma QualifiedMatch(q: string, d: string, list: string)
    requires IsBareName(d) && AfterList(list).Some? && AfterQualifier(q + (d + (LIST + list))) == Some(d + (LIST + list))
    ensures MatchAt(q + (d + (LIST + list))) == Some((list, AfterList(list).value))
  {
    BareMatch(d, list);
  }

  /** And every name in front of a list is a match. */
  lemma MatchComplete(c: string, list: string)
    requires IsListName(c) && AfterList(list).Some?
    ensures MatchAt(c + (LIST + list)) == Some((list, AfterList(list).value))
  {
    var v := LIST + list;
    if IsBareName(c) {
      assert v[0] == ' ';
      BareUnqualified(c, v);
      BareMatch(c, list);
    } else {
      var a, name, b := QualifierSound(c);
      var q, d := QualifierText(a, name, b), AfterQualifier(c).value;
      Assoc(q, d, v);
      QualifierComplete(a, name, b, d + v);
      QualifiedMatch(q, d, list);
    }
  }

  lemma EndsWithin(a: string, c: string, p: string)
    requires EndsWith(c, p)
    ensures EndsWith(a + c, p)
  {
    assert (a + c)[|a + c| - |p|..] == c[|c| - |p|..];
  }

  lemma BareChars(c: string)
    requires IsBareName(c)
    ensures 2 <= |c| <= 4 && (forall i | 0 <= i < |c| :: c[i] != ' ') && (|c| == 2 ==> c == "id")
    ensures EndsWith(c, "id") || EndsWith(c, "id`")
  {
    var a, b := BareSplit(c);
    EndOf(a, "id" + b);
    assert "id" + "" == "id" && "id" + "`" == "id`";
  }

  lemma EndOf(a: string, b: string)
    ensures EndsWith(a + b, b)
  {
  }

  /** A name has no blank and ends in `id`, maybe with a backtick. */
  lemma NameChars(c: string)
    requires IsListName(c)
    ensures |c| >= 2 && (forall i | 0 <= i < |c| :: c[i] != ' ') && (|c| == 2 ==> c == "id")
    ensures EndsWith(c, "id") || EndsWith(c, "id`")
  {
    if IsBareName(c) {
      BareChars(c);
    } else {
      var a, name, b := QualifierSound(c);
      QualifierChars(a, name, b);
      QualifiedChars(QualifierText(a, name, b), AfterQualifier(c).value);
    }
  }

  lemma QualifierChars(a: string, name: string, b: string)
    requires IsQualifier(a, name, b)
    ensures var q := QualifierText(a, name, b); |q| >= 2 && forall i | 0 <= i < |q| :: q[i] != ' '
  {
    var q := QualifierText(a, name, b);
    assert forall i | |a| <= i < |a| + |name| :: q[i] == name[i - |a|] && IsIdentChar(name[i - |a|]);
  }

  lemma QualifiedChars(q: string, b: string)
    requires |q| >= 2 && IsBareName(b) && forall i | 0 <= i < |q| :: q[i] != ' '
    ensures |q + b| > 2 && forall i | 0 <= i < |q + b| :: (q + b)[i] != ' '
    ensures EndsWith(q + b, "id") || EndsWith(q + b, "id`")
  {
    BareChars(b);
    assert forall i | |q| <= i < |q + b| :: (q + b)[i] == b[i - |q|];
    if EndsWith(b, "id") { EndsWithin(q, b, "id"); } else { EndsWithin(q, b, "id`"); }
  }

  // ------------------------------------------------------------- printed id lists

  function Placeholders(places: seq<nat>): seq<string> {
    seq(|places|, i requires 0 <= i < |places| => "$p" + Dec(places[i]))
  }

  /** The list as GORM prints it: `$p1,$p2`. */
  function ListBody(places: seq<nat>): string {
    Join(Placeholders(places), ",")
  }

  lemma {:induction false} DigitRunUnique(d: string, rest: string)
    requires (forall i | 0 <= i < |d| :: IsDigit(d[i])) && (rest == "" || !IsDigit(rest[0]))
    ensures DigitRun(d + rest) == d
  {
    if d == "" {
      assert d + rest == rest;
    } else {
      assert (d + rest)[1..] == d[1..] + rest;
      DigitRunUnique(d[1..], rest);
    }
  }

  lemma BodySplit(places: seq<nat>)
    requires places != []
    ensures ListBody(places) == "$p" + Dec(places[0]) + if |places| == 1 then "" else "," + ListBody(places[1..])
  {
    assert Placeholders(places)[1..] == Placeholders(places[1..]);
  }

  lemma ItemStep(d: string, tail: string)
    requires d != "" && (forall i | 0 <= i < |d| :: IsDigit(d[i])) && (tail == "" || !IsDigit(tail[0]))
    ensures AfterItem("$p" + (d + tail)) == Some(AfterComma(tail))
  {
    var t := "$p" + (d + tail);
    assert t[..2] == "$p" && t[2..] == d + tail;
    DigitRunUnique(d, tail);
    assert t[2 + |d|..] == tail;
  }

  lemma CommaThenPlace(next: string)
    requires next != [] && next[0] == '$'
    ensures AfterComma("," + next) == next
  {
    assert ("," + next)[1..] == next;
  }

  /** What stands behind the first placeholder of a list. */
  function ListRest(places: seq<nat>, rest: string): string
    requires places != []
  {
    if |places| == 1 then ")" + rest else "," + (ListBody(places[1..]) + (")" + rest))
  }

  lemma ListParts(places: seq<nat>, rest: string)
    requires places != []
    ensures ListBody(places) + (")" + rest) == "$p" + (Dec(places[0]) + ListRest(places, rest))
  {
    BodySplit(places);
    if |places| > 1 {
      Pieces("$p", Dec(places[0]), "," + ListBody(places[1..]), ")" + rest);
      Assoc(",", ListBody(places[1..]), ")" + rest);
    } else {
      Pieces("$p", Dec(places[0]), "", ")" + rest);
    }
  }

  lemma Pieces(a: string, b: string, c: string, d: string)
    ensures ((a + b) + c) + d == a + (b + (c + d))
  {
  }

  lemma {:induction false} AfterListPrinted(places: seq<nat>, rest: string)
    requires places != []
    ensures AfterList(ListBody(places) + (")" + rest)) == Some(")" + rest)
    decreases |places|
  {
    ListParts(places, rest);
    ItemStep(Dec(places[0]), ListRest(places, rest));
    if |places| > 1 {
      BodySplit(places[1..]);
      CommaThenPlace(ListBody(places[1..]) + (")" + rest));
      AfterListPrinted(places[1..], rest);
    }
  }

  lemma FindPlacesStep(d: string, tail: string)
    requires d != "" && (forall i | 0 <= i < |d| :: IsDigit(d[i])) && (tail == "" || !IsDigit(tail[0]))
    ensures FindPlaces("$p" + (d + tail)) == ["$p" + d] + FindPlaces(tail)
  {
    var t := "$p" + (d + tail);
    assert t[..2] == "$p" && t[2..] == d + tail;
    DigitRunUnique(d, tail);
    assert t[2 + |d|..] == tail;
  }

  lemma FindPlacesComma(tail: string)
    ensures FindPlaces("," + tail) == FindPlaces(tail)
  {
    var t := "," + tail;
    assert t[1..] == tail && t[0] == ',' && "$p"[0] == '$';
  }

  lemma FindPlacesFirst(places: seq<nat>)
    requires places != []
    ensures FindPlaces(ListBody(places)) ==
            ["$p" + Dec(places[0])] + FindPlaces(if |places| == 1 then "" else ListBody(places[1..]))
  {
    var d := Dec(places[0]);
    BodySplit(places);
    if |places| == 1 {
      assert d + "" == d;
      FindPlacesStep(d, "");
    } else {
      var body := ListBody(places[1..]);
      Assoc("$p", d, "," + body);
      FindPlacesStep(d, "," + body);
      FindPlacesComma(body);
    }
  }

  lemma PlaceholdersCons(places: seq<nat>)
    requires places != []
    ensures Placeholders(places) == ["$p" + Dec(places[0])] + Placeholders(places[1..])
  {
  }

  lemma {:induction false} FindPlacesPrinted(places: seq<nat>)
    ensures FindPlaces(ListBody(places)) == Placeholders(places)
    decreases |places|
  {
    if places != [] {
      FindPlacesFirst(places);
      PlaceholdersCons(places);
      FindPlacesPrinted(places[1..]);
    }
  }

  lemma {:induction false} NumberDec(n: nat)
    ensures Number(Dec(n)) == n
  {
    if n >= 10 {
      NumberDec(n / 10);
      assert Dec(n)[..|Dec(n)| - 1] == Dec(n / 10);
    } else {
      assert Dec(n)[..0] == "";
    }
  }

  lemma PlaceNumbers(places: seq<nat>)
    ensures forall i | 0 <= i < |places| :: IsPlace(Placeholders(places)[i]) && PlaceNumber(Placeholders(places)[i]) == places[i]
  {
    forall i | 0 <= i < |places|
      ensures IsPlace(Placeholders(places)[i]) && PlaceNumber(Placeholders(places)[i]) == places[i]
    {
      var p := Placeholders(places)[i];
      assert p[..2] == "$p" && p[2..] == Dec(places[i]);
      assert forall j | 2 <= j < |p| :: p[j] == p[2..][j - 2];
      NumberDec(places[i]);
    }
  }

  // --------------------------------------------------- where the leftmost match is

  /** The text of a list comparison behind its column. */
  function ListTail(places: seq<nat>, rest: string): string {
    LIST + (ListBody(places) + (")" + rest))
  }

  /** A name in front of a printed list is a match. */
  lemma MatchHere(c: string, places: seq<nat>, rest: string)
    requires places != [] && IsListName(c)
    ensures MatchAt(c + ListTail(places, rest)) == Some((ListBody(places) + (")" + rest), ")" + rest))
  {
    AfterListPrinted(places, rest);
    MatchComplete(c, ListBody(places) + (")" + rest));
  }

  /** With one list in the statement, a match starts only where a name is left up to it. */
  lemma NoMatchHere(x: string, tail: string, i: nat)
    requires OnlyAt(x + tail, LIST, |x|) && i <= |x + tail| && MatchAt((x + tail)[i..]).Some?
    ensures i <= |x| && IsListName(x[i..])
  {
    var s := x + tail;
    var c, l := MatchFrom(s, i);
    NameBefore(s[..i], c, LIST, l);
    assert x == s[..|x|] == s[..i] + c;
  }

  lemma MatchFrom(s: string, i: nat) returns (c: string, l: string)
    requires i <= |s| && MatchAt(s[i..]).Some?
    ensures IsListName(c) && s == s[..i] + (c + (LIST + l))
  {
    c := MatchSound(s[i..]);
    l := MatchAt(s[i..]).value.0;
  }

  lemma NameBefore(b: string, c: string, p: string, list: string)
    ensures At(b + (c + (p + list)), p, |b| + |c|) && (b + (c + (p + list)))[..|b| + |c|] == b + c
  {
  }

  /** The text of a list comparison of a name. */
  function ListPred(name: string, places: seq<nat>): string {
    name + (LIST + (ListBody(places) + ")"))
  }

  lemma PredAndRest(name: string, places: seq<nat>, rest: string)
    ensures name + ListTail(places, rest) == ListPred(name, places) + rest
  {
  }

  lemma SearchMiss(x: string, tail: string)
    requires OnlyAt(x + tail, LIST, |x|) && forall j | 0 <= j <= |x| :: !IsListName(x[j..])
    ensures Search(x + tail) == None
  {
    var s := x + tail;
    forall j | 0 <= j <= |s| ensures MatchAt(s[j..]).None? {
      if MatchAt(s[j..]).Some? {
        NoMatchHere(x, tail, j);
      }
    }
    SearchNone(s);
  }

  lemma NoMatchBefore(x: string, tail: string, i: nat, j: nat)
    requires OnlyAt(x + tail, LIST, |x|) && j < i <= |x| && !NameFrom(x, j)
    ensures MatchAt(x[..i][j..] + (x[i..] + tail)).None?
  {
    assert x[..i][j..] + (x[i..] + tail) == (x + tail)[j..];
    if MatchAt((x + tail)[j..]).Some? {
      NoMatchHere(x, tail, j);
    }
  }

  predicate NameFrom(x: string, i: nat) {
    i <= |x| && IsListName(x[i..])
  }

  /** Where the name at the end of a text starts, if there is one. */
  predicate NameStarts(x: string, i: nat) {
    NameFrom(x, i) && forall j: nat | j < i :: !NameFrom(x, j)
  }

  /** What the search finds in a statement with one list: the name the text before it ends in. */
  lemma SearchHit(x: string, places: seq<nat>, rest: string, i: nat)
    requires places != [] && OnlyAt(x + ListTail(places, rest), LIST, |x|) && NameStarts(x, i)
    ensures Search(x + ListTail(places, rest)) == Some(Match(ListPred(x[i..], places), ListBody(places)))
  {
    var tail := ListTail(places, rest);
    NoneBefore(x, tail, i);
    SplitAt(x, i, tail);
    SearchParts(x[..i], x[i..], places, rest);
  }

  lemma SplitAt(x: string, i: nat, tail: string)
    requires i <= |x|
    ensures x + tail == x[..i] + (x[i..] + tail)
  {
  }

  lemma NoneBefore(x: string, tail: string, i: nat)
    requires OnlyAt(x + tail, LIST, |x|) && NameStarts(x, i)
    ensures NoMatchIn(x[..i], x[i..] + tail)
  {
    forall j | 0 <= j < |x[..i]| ensures MatchAt(x[..i][j..] + (x[i..] + tail)).None? {
      NoMatchBefore(x, tail, i, j);
    }
  }

  lemma SearchParts(b: string, c: string, places: seq<nat>, rest: string)
    requires places != [] && IsListName(c) && NoMatchIn(b, c + ListTail(places, rest))
    ensures Search(b + (c + ListTail(places, rest))) == Some(Match(ListPred(c, places), ListBody(places)))
  {
    MatchHere(c, places, rest);
    PredAndRest(c, places, rest);
    SearchAt(b, c + ListTail(places, rest), Match(ListPred(c, places), ListBody(places)), rest);
  }

  /** A text has a name at its end exactly when it ends in `id`, maybe with a backtick. */
  lemma NameAtEnd(x: string)
    ensures (exists i :: 0 <= i <= |x| && IsListName(x[i..])) <==> EndsWith(x, "id") || EndsWith(x, "id`")
  {
    if i :| 0 <= i <= |x| && IsListName(x[i..]) {
      NameEndsText(x, i);
    }
    if EndsWith(x, "id") {
      ShortName(x, "id");
    }
    if EndsWith(x, "id`") {
      ShortName(x, "id`");
    }
  }

  lemma NameEndsText(x: string, i: nat)
    requires i <= |x| && IsListName(x[i..])
    ensures EndsWith(x, "id") || EndsWith(x, "id`")
  {
    var c := x[i..];
    NameChars(c);
    assert x == x[..i] + c;
    if EndsWith(c, "id") { EndsWithin(x[..i], c, "id"); } else { EndsWithin(x[..i], c, "id`"); }
  }

  lemma ShortName(x: string, name: string)
    requires EndsWith(x, name) && IsBareName(name)
    ensures exists i :: 0 <= i <= |x| && IsListName(x[i..])
  {
    assert IsListName(x[|x| - |name|..]);
  }
}
