/**
 The raw transaction builder (transaction.go:138-221): every Exec call renames the
 placeholders of its statement, one key at a time and in map order, with a regular
 expression that consumes the character after the name.

 A statement is the string the caller wrote. Its meaning is the sequence of its
 characters with every placeholder replaced by the value it is bound to.
 */
module RawTransaction {
  import opened Decimal
  import opened Strings

  // ---------------------------------------------------------------- statements

  /** A piece of a statement: a plain character or a whole placeholder `$name`. */
  datatype Piece = Text(c: char) | Placeholder(name: string)

  function Lex(s: string): seq<Piece>
    decreases |s|
  {
    if s == [] then []
    else if s[0] == '$' && IdentRun(s[1..]) != [] then
      [Placeholder(IdentRun(s[1..]))] + Lex(s[1 + |IdentRun(s[1..])|..])
    else [Text(s[0])] + Lex(s[1..])
  }

  datatype Atom<V> = Character(c: char) | Bound(v: V) | Unbound(name: string)

  function EvalPiece<V>(p: Piece, params: map<string, V>): Atom<V> {
    match p
    case Text(c) => Character(c)
    case Placeholder(x) => if x in params then Bound(params[x]) else Unbound(x)
  }

  /** The meaning of a lexed statement under a set of bound parameters. */
  function Eval<V>(ps: seq<Piece>, params: map<string, V>): seq<Atom<V>> {
    seq(|ps|, i requires 0 <= i < |ps| => EvalPiece(ps[i], params))
  }

  // ------------------------------------------------- the renaming of one key

  /** Whether the regular expression `\$k([^a-zA-Z0-9_]|$)` matches at the start of `q`. */
  predicate MatchesHere(q: string, k: string) {
    |q| > |k| && q[0] == '$' && q[1..1 + |k|] == k && (|q| == 1 + |k| || !IsIdentChar(q[1 + |k|]))
  }

  /** `ReplaceAllString`: leftmost matches that do not overlap. A match ends after the
      delimiter, which is copied, so the next match starts no earlier than behind it. */
  function ReplacePlaceholder(q: string, k: string, to: string): string
    decreases |q|
  {
    if q == [] then []
    else if MatchesHere(q, k) then
      "$" + to + (if |q| == 1 + |k| then [] else [q[1 + |k|]] + ReplacePlaceholder(q[2 + |k|..], k, to))
    else [q[0]] + ReplacePlaceholder(q[1..], k, to)
  }

  /** The same step on pieces: the second of two adjacent `$k` is skipped. */
  function SkipRename(ps: seq<Piece>, k: string, to: string): (r: seq<Piece>)
    ensures |r| == |ps|
  {
    if ps == [] then []
    else if ps[0] == Placeholder(k) then
      [Placeholder(to)] +
      (if |ps| > 1 && ps[1] == Placeholder(k) then [ps[1]] + SkipRename(ps[2..], k, to)
       else SkipRename(ps[1..], k, to))
    else [ps[0]] + SkipRename(ps[1..], k, to)
  }

  /** How a statement that starts with a placeholder is lexed. */
  lemma LexPlaceholder(name: string, rest: string)
    requires IsIdent(name)
    requires rest != [] ==> !IsIdentChar(rest[0])
    ensures Lex("$" + name + rest) == [Placeholder(name)] + Lex(rest)
  {
    var s := "$" + name + rest;
    assert s[1..] == name + rest;
    IdentRunUnique(s[1..], name);
    assert s[1 + |name|..] == rest;
  }

  /** How a statement that starts with any other character is lexed. */
  lemma LexText(c: char, rest: string)
    requires c == '$' ==> rest == [] || !IsIdentChar(rest[0])
    ensures Lex([c] + rest) == [Text(c)] + Lex(rest)
  {
    assert ([c] + rest)[1..] == rest;
  }

  /** Every nonempty statement starts in one of the two ways. */
  lemma LexCases(q: string) returns (name: string, rest: string)
    requires q != []
    ensures |rest| < |q|
    ensures name == "" ==> q == [q[0]] + rest && (q[0] == '$' ==> rest == [] || !IsIdentChar(rest[0]))
    ensures name != "" ==> IsIdent(name) && q == "$" + name + rest && (rest != [] ==> !IsIdentChar(rest[0]))
  {
    name := if q[0] == '$' then IdentRun(q[1..]) else "";
    rest := if name == "" then q[1..] else q[1 + |name|..];
    if name != "" {
      DollarSplit(q, name);
    }
  }

  lemma DollarSplit(q: string, name: string)
    requires q != [] && q[0] == '$' && |name| < |q| && q[1..1 + |name|] == name
    ensures q == "$" + name + q[1 + |name|..]
  {
    assert q[1..] == name + q[1 + |name|..];
  }

  lemma SkipRenameCons(p: Piece, ps: seq<Piece>, k: string, to: string)
    ensures p != Placeholder(k) ==> SkipRename([p] + ps, k, to) == [p] + SkipRename(ps, k, to)
    ensures p == Placeholder(k) ==> SkipRename([p] + ps, k, to) == [Placeholder(to)] + AfterMatch(ps, k, to)
  {
    assert ([p] + ps)[1..] == ps;
    if ps != [] {
      assert ([p] + ps)[2..] == ps[1..];
    }
  }

  /** What a match makes of the pieces behind it: one that is `$k` again is left alone. */
  function AfterMatch(ps: seq<Piece>, k: string, to: string): seq<Piece> {
    if ps != [] && ps[0] == Placeholder(k) then [ps[0]] + SkipRename(ps[1..], k, to)
    else SkipRename(ps, k, to)
  }

  lemma ReplaceKeepsHead(q: string, k: string, to: string)
    ensures q == [] <==> ReplacePlaceholder(q, k, to) == []
    ensures q != [] ==> ReplacePlaceholder(q, k, to)[0] == q[0]
  {
  }

  /** Identifier characters never start a match: they are copied one by one. */
  lemma {:induction false} ReplaceSkipsIdent(r: string, rest: string, k: string, to: string)
    requires forall i | 0 <= i < |r| :: IsIdentChar(r[i])
    ensures ReplacePlaceholder(r + rest, k, to) == r + ReplacePlaceholder(rest, k, to)
  {
    if r == [] {
      assert r + rest == rest;
    } else {
      assert (r + rest)[1..] == r[1..] + rest;
      assert IsIdentChar((r + rest)[0]);
      ReplaceSkipsIdent(r[1..], rest, k, to);
    }
  }

  lemma ReplaceText(c: char, rest: string, k: string, to: string)
    requires IsIdent(k)
    requires c == '$' ==> rest == [] || !IsIdentChar(rest[0])
    ensures ReplacePlaceholder([c] + rest, k, to) == [c] + ReplacePlaceholder(rest, k, to)
  {
    var q := [c] + rest;
    assert q[1..] == rest;
    if c == '$' && |rest| >= |k| {
      assert rest[..|k|][0] == rest[0] && IsIdentChar(k[0]);
      assert rest[..|k|] != k;
    }
  }

  lemma ReplaceOther(name: string, rest: string, k: string, to: string)
    requires IsIdent(name) && IsIdent(k) && name != k
    requires rest != [] ==> !IsIdentChar(rest[0])
    ensures ReplacePlaceholder("$" + name + rest, k, to) == "$" + name + ReplacePlaceholder(rest, k, to)
  {
    var q := "$" + name + rest;
    assert q[1..] == name + rest;
    if MatchesHere(q, k) {
      IdentRunUnique(q[1..], k);
      IdentRunUnique(q[1..], name);
    }
    ReplaceSkipsIdent(name, rest, k, to);
  }

  lemma ReplaceHit(rest: string, k: string, to: string)
    requires IsIdent(k)
    requires rest != [] ==> !IsIdentChar(rest[0])
    ensures ReplacePlaceholder("$" + k + rest, k, to) == "$" + to + Delimited(rest, k, to)
  {
    var q := "$" + k + rest;
    assert q[1..1 + |k|] == k;
    if rest != [] {
      assert q[1 + |k|] == rest[0];
      assert q[2 + |k|..] == rest[1..];
    }
  }

  /** The text behind a matched name: its first character was consumed by the match. */
  function Delimited(rest: string, k: string, to: string): string {
    if rest == [] then [] else [rest[0]] + ReplacePlaceholder(rest[1..], k, to)
  }

  lemma AfterMatchCons(p: Piece, ps: seq<Piece>, k: string, to: string)
    ensures AfterMatch([p] + ps, k, to) == [p] + SkipRename(ps, k, to)
  {
    assert ([p] + ps)[1..] == ps;
    SkipRenameCons(p, ps, k, to);
  }

  lemma LexDelimitedText(c: char, rest: string, k: string, to: string)
    requires c == '$' ==> rest == [] || !IsIdentChar(rest[0])
    requires Lex(ReplacePlaceholder(rest, k, to)) == SkipRename(Lex(rest), k, to)
    ensures Lex(Delimited([c] + rest, k, to)) == AfterMatch(Lex([c] + rest), k, to)
  {
    var out := ReplacePlaceholder(rest, k, to);
    ReplaceKeepsHead(rest, k, to);
    assert ([c] + rest)[1..] == rest;
    assert Delimited([c] + rest, k, to) == [c] + out;
    LexText(c, rest);
    LexText(c, out);
    AfterMatchCons(Text(c), Lex(rest), k, to);
  }

  lemma DelimitedPlaceholder(name: string, rest: string, k: string, to: string)
    requires IsIdent(name)
    ensures Delimited("$" + name + rest, k, to) == "$" + name + ReplacePlaceholder(rest, k, to)
  {
    var t, out := "$" + name + rest, ReplacePlaceholder(rest, k, to);
    assert t[1..] == name + rest;
    ReplaceSkipsIdent(name, rest, k, to);
    Assoc("$", name, out);
    assert [t[0]] == "$";
  }

  lemma LexDelimitedPlaceholder(name: string, rest: string, k: string, to: string)
    requires IsIdent(name)
    requires rest != [] ==> !IsIdentChar(rest[0])
    requires Lex(ReplacePlaceholder(rest, k, to)) == SkipRename(Lex(rest), k, to)
    ensures Lex(Delimited("$" + name + rest, k, to)) == AfterMatch(Lex("$" + name + rest), k, to)
  {
    ReplaceKeepsHead(rest, k, to);
    DelimitedPlaceholder(name, rest, k, to);
    LexPlaceholder(name, rest);
    LexPlaceholder(name, ReplacePlaceholder(rest, k, to));
    AfterMatchCons(Placeholder(name), Lex(rest), k, to);
  }

  lemma {:induction false} LexDelimited(t: string, k: string, to: string)
    requires IsIdent(k) && IsIdent(to)
    requires t != [] ==> !IsIdentChar(t[0])
    ensures Lex(Delimited(t, k, to)) == AfterMatch(Lex(t), k, to)
    decreases |t|, 0
  {
    if t != [] {
      var name, rest := LexCases(t);
      LexReplace(rest, k, to);
      if name == "" {
        LexDelimitedText(t[0], rest, k, to);
      } else {
        LexDelimitedPlaceholder(name, rest, k, to);
      }
    }
  }

  /** One pass of the regular expression, read off the pieces: exact for every string. */
  lemma {:induction false} LexReplace(q: string, k: string, to: string)
    requires IsIdent(k) && IsIdent(to)
    ensures Lex(ReplacePlaceholder(q, k, to)) == SkipRename(Lex(q), k, to)
    decreases |q|, 1
  {
    if q != [] {
      var name, rest := LexCases(q);
      var out := ReplacePlaceholder(rest, k, to);
      ReplaceKeepsHead(rest, k, to);
      if name == "" {
        LexReplace(rest, k, to);
        ReplaceText(q[0], rest, k, to);
        LexText(q[0], rest);
        LexText(q[0], out);
        SkipRenameCons(Text(q[0]), Lex(rest), k, to);
      } else if name == k {
        LexDelimited(rest, k, to);
        ReplaceHit(rest, k, to);
        LexPlaceholder(k, rest);
        LexPlaceholder(to, Delimited(rest, k, to));
        SkipRenameCons(Placeholder(k), Lex(rest), k, to);
      } else {
        LexReplace(rest, k, to);
        ReplaceOther(name, rest, k, to);
        LexPlaceholder(name, rest);
        LexPlaceholder(name, out);
        SkipRenameCons(Placeholder(name), Lex(rest), k, to);
      }
    }
  }

  // ------------------------------------------------------ the renaming of a call

  /** `fmt.Sprintf("tx%d_%s", n, k)`. */
  function Key(n: nat, k: string): (r: string)
    ensures |r| > |k| && r[|r| - |k|..] == k
  {
    "tx" + Dec(n) + "_" + k
  }

  lemma KeyIsIdent(n: nat, k: string)
    requires IsIdent(k)
    ensures IsIdent(Key(n, k))
  {
    var d := Dec(n);
    assert forall i | 0 <= i < |d| :: IsIdentChar(d[i]);
  }

  lemma {:induction false} UnderscoreSplit(d: string, e: string, j: string, k: string)
    requires forall i | 0 <= i < |d| :: IsDigit(d[i])
    requires forall i | 0 <= i < |e| :: IsDigit(e[i])
    requires d + "_" + j == e + "_" + k
    ensures d == e && j == k
  {
    var s, t := d + "_" + j, e + "_" + k;
    assert s[0] == (if d == [] then '_' else d[0]);
    assert t[0] == (if e == [] then '_' else e[0]);
    if d == [] {
      assert s[1..] == j && t[1..] == k;
    } else {
      assert s[1..] == d[1..] + "_" + j && t[1..] == e[1..] + "_" + k;
      UnderscoreSplit(d[1..], e[1..], j, k);
      assert d == [d[0]] + d[1..] && e == [e[0]] + e[1..];
    }
  }

  /** Two keys of the merged parameters are equal only if call and name are. */
  lemma KeyInjective(m: nat, j: string, n: nat, k: string)
    requires Key(m, j) == Key(n, k)
    ensures m == n && j == k
  {
    assert Key(m, j)[2..] == Dec(m) + "_" + j;
    assert Key(n, k)[2..] == Dec(n) + "_" + k;
    UnderscoreSplit(Dec(m), Dec(n), j, k);
    DecInjective(m, n);
  }

  /** A map iteration order: every key once. */
  ghost predicate IsOrder(order: seq<string>, keys: set<string>) {
    && (forall k :: k in order <==> k in keys)
    && (forall i, j | 0 <= i < j < |order| :: order[i] != order[j])
  }

  /** The rewriting loop of one call, in the order the map was iterated. */
  function Passes(q: string, order: seq<string>, n: nat): string
    decreases order
  {
    if order == [] then q
    else Passes(ReplacePlaceholder(q, order[0], Key(n, order[0])), order[1..], n)
  }

  function PiecePasses(ps: seq<Piece>, order: seq<string>, n: nat): (r: seq<Piece>)
    ensures |r| == |ps|
    decreases order
  {
    if order == [] then ps
    else PiecePasses(SkipRename(ps, order[0], Key(n, order[0])), order[1..], n)
  }

  lemma {:induction false} LexPasses(q: string, order: seq<string>, n: nat)
    requires forall k | k in order :: IsIdent(k)
    ensures Lex(Passes(q, order, n)) == PiecePasses(Lex(q), order, n)
    decreases order
  {
    if order != [] {
      KeyIsIdent(n, order[0]);
      LexReplace(q, order[0], Key(n, order[0]));
      LexPasses(ReplacePlaceholder(q, order[0], Key(n, order[0])), order[1..], n);
    }
  }

  function RenamePiece(p: Piece, keys: set<string>, n: nat): Piece {
    match p
    case Text(_) => p
    case Placeholder(x) => if x in keys then Placeholder(Key(n, x)) else p
  }

  /** What the loop is for: every placeholder that is a key gets its prefix, all at once. */
  function RenameAll(ps: seq<Piece>, keys: set<string>, n: nat): seq<Piece> {
    seq(|ps|, i requires 0 <= i < |ps| => RenamePiece(ps[i], keys, n))
  }

  /** No key is the renamed form of a key. */
  ghost predicate ChainFree(keys: set<string>, n: nat) {
    forall k | k in keys :: Key(n, k) !in keys
  }

  /** No placeholder of the statement is renamed to another key. */
  ghost predicate NoChains(ps: seq<Piece>, keys: set<string>, n: nat) {
    forall i | 0 <= i < |ps| && ps[i].Placeholder? && ps[i].name in keys :: Key(n, ps[i].name) !in keys
  }

  /** No placeholder of a key is followed at once by itself, as in `$a$a`. */
  ghost predicate NoRepeats(ps: seq<Piece>, keys: set<string>) {
    forall i | 0 <= i < |ps| - 1 :: ps[i].Placeholder? && ps[i].name in keys ==> ps[i] != ps[i + 1]
  }

  /** A pass renames `$k` at `i` unless it has just renamed a `$k` directly before it. */
  lemma {:induction false} SkipRenameAt(ps: seq<Piece>, k: string, to: string, i: nat)
    requires i < |ps| && to != k
    ensures SkipRename(ps, k, to)[i] ==
            if ps[i] == Placeholder(k) &&
               !(i > 0 && ps[i - 1] == Placeholder(k) && SkipRename(ps, k, to)[i - 1] == Placeholder(to))
            then Placeholder(to) else ps[i]
  {
    if ps[0] == Placeholder(k) && |ps| > 1 && ps[1] == Placeholder(k) {
      if i >= 2 {
        SkipRenameAt(ps[2..], k, to, i - 2);
      }
    } else if i >= 1 {
      SkipRenameAt(ps[1..], k, to, i - 1);
    }
  }

  lemma {:induction false} PassesKeepOthers(ps: seq<Piece>, order: seq<string>, n: nat, i: nat)
    requires i < |ps|
    requires ps[i].Text? || ps[i].name !in order
    ensures PiecePasses(ps, order, n)[i] == ps[i]
    decreases order
  {
    if order != [] {
      SkipRenameAt(ps, order[0], Key(n, order[0]), i);
      PassesKeepOthers(SkipRename(ps, order[0], Key(n, order[0])), order[1..], n, i);
    }
  }

  lemma OrderRest(order: seq<string>, keys: set<string>)
    requires IsOrder(order, keys) && order != []
    ensures IsOrder(order[1..], keys - {order[0]})
  {
    forall k ensures k in order[1..] <==> k in keys - {order[0]} {
      if k in keys - {order[0]} {
        var i :| 0 <= i < |order| && order[i] == k;
        assert order[1..][i - 1] == k;
      }
    }
  }

  /** Doing one key first does not change the target of the rest. */
  lemma RenameInSteps(ps: seq<Piece>, k: string, keys: set<string>, n: nat)
    requires k in keys && NoChains(ps, keys, n)
    ensures RenameAll(RenameAll(ps, {k}, n), keys - {k}, n) == RenameAll(ps, keys, n)
    ensures NoChains(RenameAll(ps, {k}, n), keys - {k}, n)
    ensures NoRepeats(RenameAll(ps, {k}, n), keys - {k}) <==> NoRepeats(ps, keys - {k})
  {
    var ps1 := RenameAll(ps, {k}, n);
    forall i | 0 <= i < |ps|
      ensures ps1[i] == ps[i] || (ps[i] == Placeholder(k) && ps1[i] == Placeholder(Key(n, k)))
    {
    }
  }

  lemma SplitRepeats(ps: seq<Piece>, k: string, keys: set<string>)
    requires k in keys
    ensures NoRepeats(ps, keys) <==> NoRepeats(ps, {k}) && NoRepeats(ps, keys - {k})
  {
    if NoRepeats(ps, {k}) && NoRepeats(ps, keys - {k}) {
      forall i | 0 <= i < |ps| - 1 && ps[i].Placeholder? && ps[i].name in keys
        ensures ps[i] != ps[i + 1]
      {
        assert ps[i].name in {k} || ps[i].name in keys - {k};
      }
    }
  }

  lemma FirstPass(ps: seq<Piece>, k: string, n: nat) returns (miss: nat)
    ensures NoRepeats(ps, {k}) ==> SkipRename(ps, k, Key(n, k)) == RenameAll(ps, {k}, n)
    ensures !NoRepeats(ps, {k}) ==>
              miss < |ps| && ps[miss] == Placeholder(k) && SkipRename(ps, k, Key(n, k))[miss] == Placeholder(k)
  {
    var out := SkipRename(ps, k, Key(n, k));
    miss := 0;
    if NoRepeats(ps, {k}) {
      forall i | 0 <= i < |ps| ensures out[i] == RenamePiece(ps[i], {k}, n) {
        SkipRenameAt(ps, k, Key(n, k), i);
        assert i > 0 && ps[i - 1] == Placeholder(k) ==> ps[i - 1].name in {k};
      }
    } else {
      var i :| 0 <= i < |ps| - 1 && ps[i].Placeholder? && ps[i].name in {k} && ps[i] == ps[i + 1];
      SkipRenameAt(ps, k, Key(n, k), i);
      SkipRenameAt(ps, k, Key(n, k), i + 1);
      miss := if out[i] == Placeholder(k) then i else i + 1;
    }
  }

  /**
   Renaming one key at a time, in any order, is the simultaneous renaming exactly when no
   placeholder of a key is directly repeated: for every statement none of whose placeholders is
   renamed to another key.
   */
  lemma {:induction false} PassesRename(ps: seq<Piece>, order: seq<string>, keys: set<string>, n: nat)
    requires IsOrder(order, keys) && NoChains(ps, keys, n)
    ensures PiecePasses(ps, order, n) == RenameAll(ps, keys, n) <==> NoRepeats(ps, keys)
    decreases order
  {
    if order == [] {
      assert forall k :: k in keys <==> k in order;
      assert keys == {};
      assert RenameAll(ps, keys, n) == ps;
    } else {
      var k := order[0];
      assert k in order;
      var ps1 := SkipRename(ps, k, Key(n, k));
      var miss := FirstPass(ps, k, n);
      SplitRepeats(ps, k, keys);
      OrderRest(order, keys);
      if NoRepeats(ps, {k}) {
        RenameInSteps(ps, k, keys, n);
        PassesRename(ps1, order[1..], keys - {k}, n);
      } else {
        PassesKeepOthers(ps1, order[1..], n, miss);
        assert RenameAll(ps, keys, n)[miss] == Placeholder(Key(n, k));
      }
    }
  }

  /** With a key that is the renamed form of another key, the map order shows in the result. */
  lemma ChainShowsOrder(n: nat, k: string)
    requires IsIdent(k)
    ensures var j := Key(n, k);
            && IsOrder([k, j], {k, j}) && IsOrder([j, k], {k, j})
            && Lex(Passes("$" + k, [j, k], n)) == [Placeholder(j)]
            && Lex(Passes("$" + k, [k, j], n)) == [Placeholder(Key(n, j))] != [Placeholder(j)]
  {
    var j := Key(n, k);
    KeyIsIdent(n, k);
    KeyIsIdent(n, j);
    LexPasses("$" + k, [j, k], n);
    LexPasses("$" + k, [k, j], n);
    assert "$" + k + "" == "$" + k;
    LexPlaceholder(k, "");
    var ps := [Placeholder(k)];
    assert Lex("$" + k) == ps;
    assert [j, k][1..] == [k] && [k, j][1..] == [j] && [k][1..] == [] && [j][1..] == [];
    assert SkipRename(ps, j, Key(n, j)) == ps;
    assert SkipRename(ps, k, j) == [Placeholder(j)];
    assert SkipRename([Placeholder(j)], j, Key(n, j)) == [Placeholder(Key(n, j))];
    assert PiecePasses(ps, [j, k], n) == PiecePasses(ps, [k], n) == [Placeholder(j)];
    assert PiecePasses(ps, [k, j], n) == PiecePasses([Placeholder(j)], [j], n);
  }

  lemma {:induction false} SetOrder(keys: set<string>) returns (order: seq<string>)
    ensures IsOrder(order, keys)
  {
    order := [];
    if keys != {} {
      var k :| k in keys;
      var rest := SetOrder(keys - {k});
      order := [k] + rest;
    }
  }

  /** A single placeholder stays one, and its name only grows. */
  lemma {:induction false} NamesGrow(x: string, order: seq<string>, n: nat) returns (y: string)
    ensures PiecePasses([Placeholder(x)], order, n) == [Placeholder(y)] && |y| >= |x|
    decreases order
  {
    y := x;
    if order != [] {
      var to := if x == order[0] then Key(n, x) else x;
      assert SkipRename([Placeholder(x)], order[0], Key(n, order[0])) == [Placeholder(to)];
      y := NamesGrow(to, order[1..], n);
    }
  }

  /** An order that renames `k` and then its renamed form leaves neither. */
  lemma ChainRenamesTwice(k: string, rest: seq<string>, n: nat)
    ensures PiecePasses([Placeholder(k)], [k, Key(n, k)] + rest, n) != [Placeholder(Key(n, k))]
  {
    var j := Key(n, k);
    var order := [k, j] + rest;
    assert order[0] == k && order[1..] == [j] + rest && order[1..][0] == j && order[1..][1..] == rest;
    assert SkipRename([Placeholder(k)], k, j) == [Placeholder(j)];
    assert SkipRename([Placeholder(j)], j, Key(n, j)) == [Placeholder(Key(n, j))];
    var y := NamesGrow(Key(n, j), rest, n);
  }

  /** The key set of a call has a statement and an order that go wrong, when it has a chain. */
  lemma ChainFails(keys: set<string>, n: nat, k: string) returns (q: string, order: seq<string>)
    requires k in keys && Key(n, k) in keys && forall x | x in keys :: IsIdent(x)
    ensures IsOrder(order, keys) && NoRepeats(Lex(q), keys)
    ensures Lex(Passes(q, order, n)) != RenameAll(Lex(q), keys, n)
  {
    var j := Key(n, k);
    var rest := SetOrder(keys - {k, j});
    q, order := "$" + k, [k, j] + rest;
    assert "$" + k + "" == q;
    LexPlaceholder(k, "");
    assert Lex(q) == [Placeholder(k)];
    LexPasses(q, order, n);
    ChainRenamesTwice(k, rest, n);
  }

  /**
   For every set of keys: the loop renames every statement without direct repeats as meant, in
   every map order, exactly when no key is the renamed form of another.
   */
  lemma ChainFreeExact(keys: set<string>, n: nat)
    requires forall k | k in keys :: IsIdent(k)
    ensures ChainFree(keys, n) <==>
            forall q, order | IsOrder(order, keys) && NoRepeats(Lex(q), keys) ::
              Lex(Passes(q, order, n)) == RenameAll(Lex(q), keys, n)
  {
    if ChainFree(keys, n) {
      forall q, order | IsOrder(order, keys) && NoRepeats(Lex(q), keys)
        ensures Lex(Passes(q, order, n)) == RenameAll(Lex(q), keys, n)
      {
        LexPasses(q, order, n);
        PassesRename(Lex(q), order, keys, n);
      }
    } else {
      var k :| k in keys && Key(n, k) in keys;
      var q, order := ChainFails(keys, n, k);
    }
  }

  /** A directly repeated placeholder: the second copy keeps the caller's name, which nothing binds. */
  lemma RepeatMissed(n: nat, k: string)
    requires IsIdent(k)
    ensures Lex(Passes("$" + k + ("$" + k), [k], n)) == [Placeholder(Key(n, k)), Placeholder(k)]
  {
    LexPasses("$" + k + ("$" + k), [k], n);
    assert "$" + k + "" == "$" + k;
    LexPlaceholder(k, "");
    LexPlaceholder(k, "$" + k);
    var ps := [Placeholder(k), Placeholder(k)];
    assert Lex("$" + k + ("$" + k)) == ps;
    assert ps[2..] == [] && [k][1..] == [];
    assert SkipRename(ps, k, Key(n, k)) == [Placeholder(Key(n, k)), Placeholder(k)];
    assert PiecePasses(ps, [k], n) == PiecePasses(SkipRename(ps, k, Key(n, k)), [], n);
  }

  /** Under any order a piece gets its own new name, or is missed behind one that is the same. */
  lemma {:induction false} PassesAt(ps: seq<Piece>, order: seq<string>, keys: set<string>, n: nat, i: nat)
    requires IsOrder(order, keys) && NoChains(ps, keys, n) && i < |ps|
    ensures var out := PiecePasses(ps, order, n)[i];
            out == RenamePiece(ps[i], keys, n) || (out == ps[i] && i > 0 && ps[i - 1] == ps[i])
    decreases order
  {
    if order != [] {
      var k := order[0];
      var ps1 := SkipRename(ps, k, Key(n, k));
      assert k in order;
      OrderRest(order, keys);
      PassChains(ps, k, keys, n);
      SkipRenameAt(ps, k, Key(n, k), i);
      if ps[i] == Placeholder(k) {
        PassesKeepOthers(ps1, order[1..], n, i);
      } else {
        PassesAt(ps1, order[1..], keys - {k}, n, i);
        if i > 0 {
          SkipRenameAt(ps, k, Key(n, k), i - 1);
        }
      }
    } else {
      assert forall x :: x in keys <==> x in order;
      assert keys == {};
    }
  }

  lemma PassChains(ps: seq<Piece>, k: string, keys: set<string>, n: nat)
    requires k in keys && NoChains(ps, keys, n)
    ensures NoChains(SkipRename(ps, k, Key(n, k)), keys - {k}, n)
  {
    var ps1 := SkipRename(ps, k, Key(n, k));
    forall i | 0 <= i < |ps1| && ps1[i].Placeholder? && ps1[i].name in keys - {k} ensures Key(n, ps1[i].name) !in keys - {k} {
      SkipRenameAt(ps, k, Key(n, k), i);
    }
  }

  // --------------------------------------------------------- whole transactions

  /** One Exec call, with the order in which its parameter map was iterated. */
  datatype Call<V> = Call(query: string, params: map<string, V>, order: seq<string>)

  datatype TxState<V> = TxState(stmts: seq<string>, params: map<string, V>, n: nat)

  function AddNamespaced<V>(m: map<string, V>, ps: map<string, V>, order: seq<string>, n: nat): map<string, V>
    requires forall k | k in order :: k in ps
    decreases order
  {
    if order == [] then m
    else AddNamespaced(m[Key(n, order[0]) := ps[order[0]]], ps, order[1..], n)
  }

  /** Each call visits its own parameters. */
  ghost predicate Ordered<V>(cs: seq<Call<V>>) {
    forall i | 0 <= i < |cs| :: IsOrder(cs[i].order, cs[i].params.Keys)
  }

  /** And each parameter has a name that can stand behind a `$`. */
  ghost predicate ValidCalls<V>(cs: seq<Call<V>>) {
    Ordered(cs) && forall i, k | 0 <= i < |cs| && k in cs[i].params :: IsIdent(k)
  }

  /** What one Exec call does to the builder. */
  ghost function StepExec<V>(s: TxState<V>, c: Call<V>): TxState<V>
    requires IsOrder(c.order, c.params.Keys)
  {
    TxState(s.stmts + [Passes(c.query, c.order, s.n)], AddNamespaced(s.params, c.params, c.order, s.n), s.n + 1)
  }

  /** The builder after a sequence of Exec calls. */
  ghost function Run<V>(cs: seq<Call<V>>): TxState<V>
    requires Ordered(cs)
  {
    if cs == [] then TxState([], map[], 0)
    else StepExec(Run(cs[..|cs| - 1]), cs[|cs| - 1])
  }

  lemma {:induction false} AddNamespacedExact<V>(m: map<string, V>, ps: map<string, V>, order: seq<string>, n: nat)
    requires forall k | k in order :: k in ps
    ensures var r := AddNamespaced(m, ps, order, n);
            && (forall k | k in order :: Key(n, k) in r && r[Key(n, k)] == ps[k])
            && (forall x | x in m && (forall k | k in order :: x != Key(n, k)) :: x in r && r[x] == m[x])
            && (forall x | x in r :: x in m || exists k | k in order :: x == Key(n, k))
    decreases order
  {
    if order != [] {
      var k := order[0];
      var m1 := m[Key(n, k) := ps[k]];
      AddNamespacedExact(m1, ps, order[1..], n);
      forall j | j in order && Key(n, j) == Key(n, k) ensures j == k {
        KeyInjective(n, j, n, k);
      }
      forall j | j in order ensures j == k || j in order[1..] {
      }
    }
  }

  /** Every value of every call is there, under its own name. */
  ghost predicate Complete<V>(params: map<string, V>, cs: seq<Call<V>>) {
    forall i, k | 0 <= i < |cs| && k in cs[i].params ::
      Key(i, k) in params && params[Key(i, k)] == cs[i].params[k]
  }

  /** Nothing else is. */
  ghost predicate OnlyKeys<V>(params: map<string, V>, cs: seq<Call<V>>) {
    forall x | x in params :: exists i, k :: 0 <= i < |cs| && k in cs[i].params && x == Key(i, k)
  }

  /** The merged parameters hold every value of every call, under its own name, and no more;
      the statements are the rewritten ones, in call order. */
  lemma {:induction false} RunMerges<V>(cs: seq<Call<V>>)
    requires Ordered(cs)
    ensures Run(cs).n == |cs| == |Run(cs).stmts|
    ensures forall i | 0 <= i < |cs| :: Run(cs).stmts[i] == Passes(cs[i].query, cs[i].order, i)
    ensures Complete(Run(cs).params, cs) && OnlyKeys(Run(cs).params, cs)
  {
    if cs != [] {
      var n := |cs| - 1;
      RunMerges(cs[..n]);
      StepCompletes(Run(cs[..n]).params, cs);
      StepOnlyKeys(Run(cs[..n]).params, cs);
    }
  }

  lemma StepCompletes<V>(params: map<string, V>, cs: seq<Call<V>>)
    requires cs != [] && Ordered(cs)
    requires Complete(params, cs[..|cs| - 1])
    ensures Complete(AddNamespaced(params, cs[|cs| - 1].params, cs[|cs| - 1].order, |cs| - 1), cs)
  {
    var n := |cs| - 1;
    var c := cs[n];
    AddNamespacedExact(params, c.params, c.order, n);
    forall i, k | 0 <= i < n && k in cs[i].params
      ensures Key(i, k) in params && params[Key(i, k)] == cs[i].params[k]
      ensures forall j | j in c.order :: Key(i, k) != Key(n, j)
    {
      assert cs[..n][i] == cs[i];
      forall j | j in c.order ensures Key(i, k) != Key(n, j) {
        if Key(i, k) == Key(n, j) { KeyInjective(i, k, n, j); }
      }
    }
  }

  lemma StepOnlyKeys<V>(params: map<string, V>, cs: seq<Call<V>>)
    requires cs != [] && Ordered(cs)
    requires OnlyKeys(params, cs[..|cs| - 1])
    ensures OnlyKeys(AddNamespaced(params, cs[|cs| - 1].params, cs[|cs| - 1].order, |cs| - 1), cs)
  {
    var n := |cs| - 1;
    var c := cs[n];
    AddNamespacedExact(params, c.params, c.order, n);
    forall x | x in params ensures exists i, k :: 0 <= i < |cs| && k in cs[i].params && x == Key(i, k) {
      var i, k :| 0 <= i < n && k in cs[..n][i].params && x == Key(i, k);
      assert cs[i] == cs[..n][i];
    }
    forall k | k in c.order ensures k in cs[n].params {
    }
  }

  /** No placeholder the caller left unbound happens to be a key of the merged parameters. */
  ghost predicate NoCapture<V>(ps: seq<Piece>, own: map<string, V>, merged: map<string, V>) {
    forall i | 0 <= i < |ps| && ps[i].Placeholder? && ps[i].name !in own :: ps[i].name !in merged
  }

  /** No directly repeated name happens to be a merged key of the same value. */
  ghost predicate RepeatsShow<V>(ps: seq<Piece>, own: map<string, V>, merged: map<string, V>) {
    forall i | 0 < i < |ps| && ps[i].Placeholder? && ps[i].name in own && ps[i - 1] == ps[i] ::
      ps[i].name in merged ==> merged[ps[i].name] != own[ps[i].name]
  }

  lemma RenamedMeaning<V>(ps: seq<Piece>, own: map<string, V>, merged: map<string, V>, n: nat)
    requires forall k | k in own :: Key(n, k) in merged && merged[Key(n, k)] == own[k]
    ensures Eval(RenameAll(ps, own.Keys, n), merged) == Eval(ps, own) <==> NoCapture(ps, own, merged)
  {
    var e, f := Eval(RenameAll(ps, own.Keys, n), merged), Eval(ps, own);
    forall i | 0 <= i < |ps|
      ensures e[i] == f[i] <==> (ps[i].Placeholder? && ps[i].name !in own ==> ps[i].name !in merged)
    {
    }
    if NoCapture(ps, own, merged) {
      assert e == f;
    } else {
      var i :| 0 <= i < |ps| && ps[i].Placeholder? && ps[i].name !in own && ps[i].name in merged;
      assert e[i] != f[i];
    }
  }

  /** A missed placeholder is unbound or means something else. */
  lemma RepeatLosesMeaning<V>(ps: seq<Piece>, order: seq<string>, own: map<string, V>, merged: map<string, V>, n: nat)
    requires IsOrder(order, own.Keys) && NoChains(ps, own.Keys, n)
    requires RepeatsShow(ps, own, merged) && !NoRepeats(ps, own.Keys)
    ensures Eval(PiecePasses(ps, order, n), merged) != Eval(ps, own)
  {
    var out, target := PiecePasses(ps, order, n), RenameAll(ps, own.Keys, n);
    PassesRename(ps, order, own.Keys, n);
    assert exists j :: 0 <= j < |ps| && out[j] != target[j];
    var j :| 0 <= j < |ps| && out[j] != target[j];
    PassesAt(ps, order, own.Keys, n, j);
    assert Eval(out, merged)[j] != Bound(own[ps[j].name]);
    assert Eval(ps, own)[j] == Bound(own[ps[j].name]);
  }

  /**
   For every sequence of Exec calls and every map order, the rewritten statement under the
   merged parameters means what the caller's statement means under the caller's own
   parameters, exactly when no key placeholder is directly repeated in it and no placeholder the
   caller left unbound (a LET variable, `$value`, ...) is a key of the merged parameters.
   */
  lemma ExecExact<V>(cs: seq<Call<V>>, i: nat)
    requires ValidCalls(cs)
    requires i < |cs| && NoChains(Lex(cs[i].query), cs[i].params.Keys, i)
    requires RepeatsShow(Lex(cs[i].query), cs[i].params, Run(cs).params)
    ensures |Run(cs).stmts| == |cs|
    ensures Eval(Lex(Run(cs).stmts[i]), Run(cs).params) == Eval(Lex(cs[i].query), cs[i].params)
            <==> NoRepeats(Lex(cs[i].query), cs[i].params.Keys) && NoCapture(Lex(cs[i].query), cs[i].params, Run(cs).params)
  {
    RunMerges(cs);
    var c, ps, M := cs[i], Lex(cs[i].query), Run(cs).params;
    LexPasses(c.query, c.order, i);
    if NoRepeats(ps, c.params.Keys) {
      PassesRename(ps, c.order, c.params.Keys, i);
      RenamedMeaning(ps, c.params, M, i);
    } else {
      RepeatLosesMeaning(ps, c.order, c.params, M, i);
    }
  }

  /** Without captured placeholders, the meaning is kept exactly when no key placeholder is directly repeated. */
  lemma ExecKeepsMeaning<V>(cs: seq<Call<V>>, i: nat)
    requires ValidCalls(cs)
    requires i < |cs| && NoChains(Lex(cs[i].query), cs[i].params.Keys, i)
    requires NoCapture(Lex(cs[i].query), cs[i].params, Run(cs).params)
    requires RepeatsShow(Lex(cs[i].query), cs[i].params, Run(cs).params)
    ensures |Run(cs).stmts| == |cs|
    ensures Eval(Lex(Run(cs).stmts[i]), Run(cs).params) == Eval(Lex(cs[i].query), cs[i].params)
            <==> NoRepeats(Lex(cs[i].query), cs[i].params.Keys)
  {
    ExecExact(cs, i);
  }

  /** Without direct repeats, it is kept exactly when no unbound placeholder is captured. */
  lemma ExecCaptureExact<V>(cs: seq<Call<V>>, i: nat)
    requires ValidCalls(cs)
    requires i < |cs| && NoChains(Lex(cs[i].query), cs[i].params.Keys, i)
    requires NoRepeats(Lex(cs[i].query), cs[i].params.Keys)
    ensures |Run(cs).stmts| == |cs|
    ensures Eval(Lex(Run(cs).stmts[i]), Run(cs).params) == Eval(Lex(cs[i].query), cs[i].params)
            <==> NoCapture(Lex(cs[i].query), cs[i].params, Run(cs).params)
  {
    RepeatsNone(Lex(cs[i].query), cs[i].params, Run(cs).params);
    ExecExact(cs, i);
  }

  lemma RepeatsNone<V>(ps: seq<Piece>, own: map<string, V>, merged: map<string, V>)
    requires NoRepeats(ps, own.Keys)
    ensures RepeatsShow(ps, own, merged)
  {
    forall i | 0 < i < |ps| && ps[i].Placeholder? && ps[i].name in own ensures ps[i - 1] != ps[i] {
      assert ps[i - 1].Placeholder? && ps[i - 1].name in own ==> ps[i - 1] != ps[i - 1 + 1];
    }
  }

  // ------------------------------------------------------------ the sent block

  predicate IsBlank(c: char) {
    c in " \t\r\n"
  }

  function TrimBlanks(s: string): string {
    if s != [] && IsBlank(s[|s| - 1]) then TrimBlanks(s[..|s| - 1]) else s
  }

  /** A statement as it is put into the block: trimmed on the right, ended by one `;`. */
  function Terminate(s: string): string {
    var t := TrimBlanks(s);
    if t != [] && t[|t| - 1] == ';' then t else t + ";"
  }

  lemma {:induction false} TrimExact(s: string) returns (t: string, tail: string)
    ensures t == TrimBlanks(s) && s == t + tail && forall i | 0 <= i < |tail| :: tail[i] in [' ', '\t', '\r', '\n']
    ensures t == "" || t[|t| - 1] !in [' ', '\t', '\r', '\n']
  {
    t, tail := s, "";
    if s != [] && IsBlank(s[|s| - 1]) {
      var rest;
      t, rest := TrimExact(s[..|s| - 1]);
      tail := rest + [s[|s| - 1]];
      Assoc(t, rest, [s[|s| - 1]]);
    }
  }

  /** Only blanks, tabs and line ends are trimmed, and all of them at the end are; then one `;` ends the statement. */
  lemma TerminateExact(s: string) returns (t: string, tail: string)
    ensures s == t + tail && forall i | 0 <= i < |tail| :: tail[i] in [' ', '\t', '\r', '\n']
    ensures t == "" || t[|t| - 1] !in [' ', '\t', '\r', '\n']
    ensures Terminate(s) == if t != "" && t[|t| - 1] == ';' then t else t + ";"
  {
    t, tail := TrimExact(s);
  }

  const BEGIN := "BEGIN TRANSACTION;"
  const COMMIT := "COMMIT TRANSACTION;"

  /** The statements of the block, each on a line of its own. */
  function Lines(stmts: seq<string>): string {
    if stmts == [] then []
    else Lines(stmts[..|stmts| - 1]) + ("\n" + Terminate(stmts[|stmts| - 1]))
  }

  lemma CloseBlock(lines: string)
    ensures BEGIN + lines + "\n" + COMMIT == "BEGIN TRANSACTION;" + lines + "\nCOMMIT TRANSACTION;"
  {
    Assoc(BEGIN + lines, "\n", COMMIT);
    CommitLine("\n");
  }

  lemma CommitLine(nl: string)
    requires nl == "\n"
    ensures nl + COMMIT == "\nCOMMIT TRANSACTION;"
  {
  }

  lemma LinesSnoc(stmts: seq<string>, i: nat)
    requires i < |stmts|
    ensures Lines(stmts[..i + 1]) == Lines(stmts[..i]) + ("\n" + Terminate(stmts[i]))
  {
    assert stmts[..i + 1][..i] == stmts[..i];
  }

  /** The builder of a raw transaction. */
  class Tx<V> {
    var stmts: seq<string>
    var params: map<string, V>
    var err: bool
    var n: nat

    ghost function State(): TxState<V>
      reads this
    {
      TxState(stmts, params, n)
    }

    constructor ()
      ensures State() == TxState([], map[], 0) && !err
    {
      stmts, params, err, n := [], map[], false, 0;
    }

    /** Adds a statement. The loop visits the parameter map in an order Go does not fix. */
    method Exec(query: string, ps: map<string, V>) returns (ghost order: seq<string>)
      modifies this
      ensures err == old(err)
      ensures err ==> State() == old(State())
      ensures !err ==> IsOrder(order, ps.Keys) && State() == StepExec(old(State()), Call(query, ps, order))
    {
      order := [];
      if err {
        return;
      }
      var q, rest := query, ps;
      while rest != map[]
        invariant rest.Keys <= ps.Keys && forall k | k in rest :: rest[k] == ps[k]
        invariant IsOrder(order, ps.Keys - rest.Keys)
        invariant q == Passes(query, order, n)
        invariant params == AddNamespaced(old(params), ps, order, n)
        invariant stmts == old(stmts) && n == old(n) && err == old(err)
        decreases rest.Keys
      {
        var k :| k in rest;
        PassesSnoc(query, order, k, n);
        AddNamespacedSnoc(old(params), ps, order, k, n);
        q := ReplacePlaceholder(q, k, Key(n, k));
        params := params[Key(n, k) := rest[k]];
        rest := rest - {k};
        order := order + [k];
      }
      assert ps.Keys - rest.Keys == ps.Keys;
      n := n + 1;
      stmts := stmts + [q];
    }

    /** The text `Transaction` sends, or nothing when no statement was added. */
    method FullQuery() returns (sql: string, send: bool)
      ensures send <==> stmts != []
      ensures send ==> sql == "BEGIN TRANSACTION;" + Lines(stmts) + "\nCOMMIT TRANSACTION;"
    {
      sql, send := [], stmts != [];
      if !send {
        return;
      }
      var all := [BEGIN];
      ghost var begin := BEGIN;
      for i := 0 to |stmts|
        invariant all != [] && Join(all, "\n") == begin + Lines(stmts[..i])
      {
        var stmt := TrimBlanks(stmts[i]);
        if !(stmt != [] && stmt[|stmt| - 1] == ';') {
          stmt := stmt + ";";
        }
        JoinSnoc(all, stmt, "\n");
        LinesSnoc(stmts, i);
        Assoc(begin + Lines(stmts[..i]), "\n", stmt);
        Assoc(begin, Lines(stmts[..i]), "\n" + stmt);
        all := all + [stmt];
      }
      JoinSnoc(all, COMMIT, "\n");
      assert stmts[..|stmts|] == stmts;
      CloseBlock(Lines(stmts));
      all := all + [COMMIT];
      sql := Join(all, "\n");
    }
  }

  lemma {:induction false} PassesSnoc(q: string, order: seq<string>, k: string, n: nat)
    ensures Passes(q, order + [k], n) == ReplacePlaceholder(Passes(q, order, n), k, Key(n, k))
    decreases order
  {
    if order == [] {
      assert ([] + [k])[1..] == [];
    } else {
      assert (order + [k])[1..] == order[1..] + [k];
      PassesSnoc(ReplacePlaceholder(q, order[0], Key(n, order[0])), order[1..], k, n);
    }
  }

  lemma {:induction false} AddNamespacedSnoc<V>(m: map<string, V>, ps: map<string, V>, order: seq<string>, k: string, n: nat)
    requires k in ps && forall j | j in order :: j in ps
    ensures AddNamespaced(m, ps, order + [k], n) == AddNamespaced(m, ps, order, n)[Key(n, k) := ps[k]]
    decreases order
  {
    if order == [] {
      assert ([] + [k])[1..] == [];
    } else {
      assert (order + [k])[1..] == order[1..] + [k];
      AddNamespacedSnoc(m[Key(n, order[0]) := ps[order[0]]], ps, order[1..], k, n);
    }
  }

  // Trimming and ending a statement, on its meaning.

  function TrimAtoms<V>(a: seq<Atom<V>>): seq<Atom<V>> {
    if a != [] && a[|a| - 1].Character? && IsBlank(a[|a| - 1].c) then TrimAtoms(a[..|a| - 1]) else a
  }

  function EndAtoms<V(==)>(a: seq<Atom<V>>): seq<Atom<V>> {
    var t := TrimAtoms(a);
    if t != [] && t[|t| - 1] == Character(';') then t else t + [Character(';')]
  }

  /** Plain text, as atoms. */
  function Plain<V>(s: string): seq<Atom<V>> {
    seq(|s|, i requires 0 <= i < |s| => Character(s[i]))
  }

  lemma LexAppendPlaceholder(name: string, rest: string, b: string)
    requires IsIdent(name)
    requires rest != [] ==> !IsIdentChar(rest[0])
    requires b != [] ==> !IsIdentChar(b[0])
    requires Lex(rest + b) == Lex(rest) + Lex(b)
    ensures Lex("$" + name + rest + b) == Lex("$" + name + rest) + Lex(b)
  {
    Assoc("$" + name, rest, b);
    LexPlaceholder(name, rest);
    LexPlaceholder(name, rest + b);
    Assoc([Placeholder(name)], Lex(rest), Lex(b));
  }

  lemma LexAppendText(c: char, rest: string, b: string)
    requires c == '$' ==> rest == [] || !IsIdentChar(rest[0])
    requires b != [] ==> !IsIdentChar(b[0])
    requires Lex(rest + b) == Lex(rest) + Lex(b)
    ensures Lex([c] + rest + b) == Lex([c] + rest) + Lex(b)
  {
    Assoc([c], rest, b);
    LexText(c, rest);
    LexText(c, rest + b);
    Assoc([Text(c)], Lex(rest), Lex(b));
  }

  lemma {:induction false} LexAppend(a: string, b: string)
    requires b != [] ==> !IsIdentChar(b[0])
    ensures Lex(a + b) == Lex(a) + Lex(b)
    decreases |a|
  {
    if a == [] {
      assert a + b == b;
    } else {
      var name, rest := LexCases(a);
      LexAppend(rest, b);
      if name == "" {
        LexAppendText(a[0], rest, b);
      } else {
        LexAppendPlaceholder(name, rest, b);
      }
    }
  }

  /** A statement whose last piece is a plain character ends in that character. */
  lemma {:induction false} LexLast(s: string)
    requires s != []
    ensures Lex(s) != []
    ensures Lex(s)[|Lex(s)| - 1].Text? ==> Lex(s)[|Lex(s)| - 1].c == s[|s| - 1]
    decreases |s|
  {
    var name, rest := LexCases(s);
    if name == "" {
      LexText(s[0], rest);
    } else {
      LexPlaceholder(name, rest);
    }
    var p := if name == "" then Text(s[0]) else Placeholder(name);
    assert Lex(s) == [p] + Lex(rest);
    if rest != [] {
      LexLast(rest);
      assert s[|s| - 1] == rest[|rest| - 1];
      assert Lex(s)[|Lex(s)| - 1] == Lex(rest)[|Lex(rest)| - 1];
    }
  }

  lemma LexSnoc<V>(s: string, c: char, M: map<string, V>)
    requires !IsIdentChar(c)
    ensures Eval(Lex(s + [c]), M) == Eval(Lex(s), M) + [Character(c)]
  {
    LexAppend(s, [c]);
    LexText(c, []);
    assert [c] + [] == [c];
  }

  lemma {:induction false} TrimMeaning<V>(s: string, M: map<string, V>)
    ensures Eval(Lex(TrimBlanks(s)), M) == TrimAtoms(Eval(Lex(s), M))
  {
    if s != [] {
      var c := s[|s| - 1];
      assert s == s[..|s| - 1] + [c];
      var a := Eval(Lex(s), M);
      if IsBlank(c) {
        TrimMeaning(s[..|s| - 1], M);
        LexSnoc(s[..|s| - 1], c, M);
        assert a[..|a| - 1] == Eval(Lex(s[..|s| - 1]), M);
      } else {
        LexLast(s);
      }
    }
  }

  lemma SemicolonMeaning<V>(t: string, M: map<string, V>)
    ensures var a := Eval(Lex(t), M);
            (t != [] && t[|t| - 1] == ';') <==> (a != [] && a[|a| - 1] == Character(';'))
  {
    if t != [] {
      LexLast(t);
      if t[|t| - 1] == ';' {
        assert t == t[..|t| - 1] + [';'];
        LexSnoc(t[..|t| - 1], ';', M);
      }
    }
  }

  lemma TerminateMeaning<V>(s: string, M: map<string, V>)
    ensures Eval(Lex(Terminate(s)), M) == EndAtoms(Eval(Lex(s), M))
  {
    TrimMeaning(s, M);
    SemicolonMeaning(TrimBlanks(s), M);
    LexSnoc(TrimBlanks(s), ';', M);
  }

  lemma EvalAppend<V>(ps: seq<Piece>, qs: seq<Piece>, M: map<string, V>)
    ensures Eval(ps + qs, M) == Eval(ps, M) + Eval(qs, M)
  {
  }

  /** Text on a new line has the meaning it has alone. */
  lemma NewLineMeaning<V>(a: string, t: string, M: map<string, V>)
    ensures Eval(Lex(a + ("\n" + t)), M) == Eval(Lex(a), M) + ([Character('\n')] + Eval(Lex(t), M))
  {
    LexAppend(a, "\n" + t);
    LexText('\n', t);
    EvalAppend(Lex(a), [Text('\n')] + Lex(t), M);
    EvalAppend([Text('\n')], Lex(t), M);
    assert Eval([Text('\n')], M) == [Character('\n')];
  }

  /** Plain text without `$` means itself. */
  lemma {:induction false} PlainMeaning<V>(s: string, M: map<string, V>)
    requires '$' !in s
    ensures Eval(Lex(s), M) == Plain(s)
  {
    if s != [] {
      assert s == [s[0]] + s[1..];
      PlainMeaning(s[1..], M);
      LexText(s[0], s[1..]);
      assert Plain<V>(s) == [Character(s[0])] + Plain(s[1..]);
    }
  }

  /** The meanings of the callers' statements, each ended and on a line of its own. */
  function MeaningLines<V(==)>(cs: seq<Call<V>>): seq<Atom<V>> {
    if cs == [] then []
    else
      var c := cs[|cs| - 1];
      MeaningLines(cs[..|cs| - 1]) + ([Character('\n')] + EndAtoms(Eval(Lex(c.query), c.params)))
  }

  lemma {:induction false} LinesMeaning<V>(cs: seq<Call<V>>, stmts: seq<string>, M: map<string, V>)
    requires |stmts| == |cs|
    requires forall i | 0 <= i < |cs| :: Eval(Lex(stmts[i]), M) == Eval(Lex(cs[i].query), cs[i].params)
    ensures Eval(Lex(Lines(stmts)), M) == MeaningLines(cs)
  {
    if cs != [] {
      var n := |cs| - 1;
      LinesMeaning(cs[..n], stmts[..n], M);
      NewLineMeaning(Lines(stmts[..n]), Terminate(stmts[n]), M);
      TerminateMeaning(stmts[n], M);
    }
  }

  /** A run whose statements and keys are clean keeps every call's meaning. */
  ghost predicate CleanRun<V>(cs: seq<Call<V>>)
    requires Ordered(cs)
  {
    forall i | 0 <= i < |cs| ::
      && NoChains(Lex(cs[i].query), cs[i].params.Keys, i)
      && NoRepeats(Lex(cs[i].query), cs[i].params.Keys)
      && NoCapture(Lex(cs[i].query), cs[i].params, Run(cs).params)
  }

  /** Lines between two plain texts. */
  lemma FramedMeaning<V>(begin: string, lines: string, commit: string, M: map<string, V>)
    requires '$' !in begin && '$' !in commit && (lines != [] ==> lines[0] == '\n')
    ensures Eval(Lex(begin + lines + ("\n" + commit)), M) ==
            Plain(begin) + Eval(Lex(lines), M) + ([Character('\n')] + Plain(commit))
  {
    PlainMeaning(begin, M);
    PlainMeaning(commit, M);
    LexAppend(begin, lines);
    EvalAppend(Lex(begin), Lex(lines), M);
    NewLineMeaning(begin + lines, commit, M);
  }

  lemma NoDollar()
    ensures '$' !in BEGIN && '$' !in COMMIT
  {
  }

  lemma BlockMeaning<V>(begin: string, lines: string, commit: string, end: string, M: map<string, V>)
    requires '$' !in begin && '$' !in commit && (lines != [] ==> lines[0] == '\n') && end == "\n" + commit
    ensures Eval(Lex(begin + lines + end), M) == Plain(begin) + Eval(Lex(lines), M) + ([Character('\n')] + Plain(commit))
  {
    FramedMeaning(begin, lines, commit, M);
  }

  lemma RunLines<V>(cs: seq<Call<V>>)
    requires ValidCalls(cs) && CleanRun(cs)
    ensures Eval(Lex(Lines(Run(cs).stmts)), Run(cs).params) == MeaningLines(cs)
  {
    var stmts, M := Run(cs).stmts, Run(cs).params;
    RunMerges(cs);
    forall i | 0 <= i < |cs| ensures Eval(Lex(stmts[i]), M) == Eval(Lex(cs[i].query), cs[i].params) {
      ExecCaptureExact(cs, i);
    }
    LinesMeaning(cs, stmts, M);
  }

  /**
   The single query a raw transaction sends, under the merged parameters, means BEGIN, then
   each caller's statement under the caller's own parameters, in call order, then COMMIT.
   */
  lemma BlockKeepsMeaning<V>(cs: seq<Call<V>>)
    requires ValidCalls(cs) && CleanRun(cs)
    ensures Eval(Lex("BEGIN TRANSACTION;" + Lines(Run(cs).stmts) + "\nCOMMIT TRANSACTION;"), Run(cs).params) ==
            Plain("BEGIN TRANSACTION;") + MeaningLines(cs) + ([Character('\n')] + Plain("COMMIT TRANSACTION;"))
  {
    var stmts, M := Run(cs).stmts, Run(cs).params;
    RunLines(cs);
    LinesStart(stmts);
    NoDollar();
    CloseBlock(Lines(stmts));
    BlockMeaning("BEGIN TRANSACTION;", Lines(stmts), "COMMIT TRANSACTION;", "\nCOMMIT TRANSACTION;", M);
  }

  lemma {:induction false} LinesStart(stmts: seq<string>)
    ensures Lines(stmts) != [] ==> Lines(stmts)[0] == '\n'
  {
    if stmts != [] {
      LinesStart(stmts[..|stmts| - 1]);
    }
  }
}
