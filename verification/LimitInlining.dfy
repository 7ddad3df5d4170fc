/**
 OFFSET translation and the inlining of LIMIT and START parameters (executor.go:161-162 and
 189-221), on the tokens of a statement: words, placeholders `$pN` and printed values.
 */
module LimitInlining {
  import opened Strings

  datatype Value = IntValue(i: int) | OtherValue(text: string)

  datatype Token = Word(w: string) | Place(n: nat) | Printed(v: Value)

  type Params = map<nat, Value>

  /** What a token stands for. `%v` prints an integer as its own literal; any other value loses its quoting. */
  datatype Term = Symbol(w: string) | Val(v: Value) | Free(n: nat) | Raw(text: string)

  function EvalToken(t: Token, params: Params): Term {
    match t
    case Word(w) => Symbol(if w == "OFFSET" then "START" else w)
    case Place(n) => if n in params then Val(params[n]) else Free(n)
    case Printed(IntValue(i)) => Val(IntValue(i))
    case Printed(OtherValue(text)) => Raw(text)
  }

  /** The meaning of a statement: OFFSET and START are the same clause. */
  function Eval(ts: seq<Token>, params: Params): seq<Term> {
    seq(|ts|, i requires 0 <= i < |ts| => EvalToken(ts[i], params))
  }

  function Translate(ts: seq<Token>): seq<Token> {
    seq(|ts|, i requires 0 <= i < |ts| => if ts[i] == Word("OFFSET") then Word("START") else ts[i])
  }

  predicate Limits(t: Token) {
    t == Word("LIMIT") || t == Word("START")
  }

  /** One pass of the regular expression with its callback: the first inlined use of a
      parameter takes it out of the parameter map, a later one finds it missing and stays. */
  function Inline(ts: seq<Token>, params: Params): (r: (seq<Token>, Params))
    ensures |r.0| == |ts|
  {
    if |ts| >= 2 && Limits(ts[0]) && ts[1].Place? then
      if ts[1].n in params then
        var (us, rest) := Inline(ts[2..], params - {ts[1].n});
        ([ts[0], Printed(params[ts[1].n])] + us, rest)
      else
        var (us, rest) := Inline(ts[2..], params);
        ([ts[0], ts[1]] + us, rest)
    else if ts == [] then ([], params)
    else
      var (us, rest) := Inline(ts[1..], params);
      ([ts[0]] + us, rest)
  }

  method TranslateOffset(sql: seq<Token>) returns (ts: seq<Token>)
    ensures ts == Translate(sql)
  {
    ts := [];
    for i := 0 to |sql|
      invariant ts == Translate(sql[..i])
    {
      ts := ts + [if sql[i] == Word("OFFSET") then Word("START") else sql[i]];
      assert sql[..i + 1] == sql[..i] + [sql[i]];
    }
    assert sql[..|sql|] == sql;
  }

  lemma InlineStep(ts: seq<Token>, params: Params, piece: seq<Token>, left: Params)
    requires ts != []
    requires if |ts| >= 2 && Limits(ts[0]) && ts[1].Place? then
               if ts[1].n in params then piece == [ts[0], Printed(params[ts[1].n])] && left == params - {ts[1].n}
               else piece == [ts[0], ts[1]] && left == params
             else piece == [ts[0]] && left == params
    ensures Inline(ts, params) == (piece + Inline(ts[|piece|..], left).0, Inline(ts[|piece|..], left).1)
  {
  }

  lemma AppendPiece(out: seq<Token>, piece: seq<Token>, ts: seq<Token>, params: Params, left: Params)
    requires |piece| <= |ts| && Inline(ts, params) == (piece + Inline(ts[|piece|..], left).0, Inline(ts[|piece|..], left).1)
    ensures out + Inline(ts, params).0 == (out + piece) + Inline(ts[|piece|..], left).0
  {
    Assoc(out, piece, Inline(ts[|piece|..], left).0);
  }

  lemma InlineNext(ts: seq<Token>, i: nat, out: seq<Token>, before: Params, piece: seq<Token>, left: Params, all: (seq<Token>, Params))
    requires i < |ts| && all == (out + Inline(ts[i..], before).0, Inline(ts[i..], before).1)
    requires if i + 1 < |ts| && Limits(ts[i]) && ts[i + 1].Place? then
               if ts[i + 1].n in before then piece == [ts[i], Printed(before[ts[i + 1].n])] && left == before - {ts[i + 1].n}
               else piece == [ts[i], ts[i + 1]] && left == before
             else piece == [ts[i]] && left == before
    ensures i + |piece| <= |ts|
    ensures all == (out + piece + Inline(ts[i + |piece|..], left).0, Inline(ts[i + |piece|..], left).1)
  {
    var tail := ts[i..];
    InlineStep(tail, before, piece, left);
    assert tail[|piece|..] == ts[i + |piece|..];
    AppendPiece(out, piece, tail, before, left);
  }

  method InlineLimits(sql: seq<Token>, vars: Params) returns (out: seq<Token>, params: Params)
    ensures (out, params) == Inline(Translate(sql), vars)
  {
    var ts := TranslateOffset(sql);
    out, params := [], vars;
    var i := 0;
    ghost var all := Inline(ts, vars);
    assert ts[0..] == ts && [] + all.0 == all.0;
    while i < |ts|
      invariant 0 <= i <= |ts|
      invariant all.0 == out + Inline(ts[i..], params).0 && all.1 == Inline(ts[i..], params).1
    {
      var piece := [ts[i]];
      ghost var before := params;
      if i + 1 < |ts| && Limits(ts[i]) && ts[i + 1].Place? {
        var n := ts[i + 1].n;
        piece := [ts[i], ts[i + 1]];
        if n in params {
          piece := [ts[i], Printed(params[n])];
          params := params - {n};
        }
      }
      InlineNext(ts, i, out, before, piece, params, all);
      out := out + piece;
      i := i + |piece|;
    }
    assert ts[i..] == [] && out + [] == out;
  }

  // ---------------------------------------------------------------- main results

  /** A placeholder directly behind LIMIT or START. */
  predicate BoundAt(ts: seq<Token>, i: int) {
    0 < i < |ts| && Limits(ts[i - 1]) && ts[i].Place?
  }

  /** The first of these places for its parameter. */
  predicate FirstBoundAt(ts: seq<Token>, i: int) {
    BoundAt(ts, i) && forall j | 0 <= j < i :: !(BoundAt(ts, j) && ts[j] == ts[i])
  }

  predicate Limiting(ts: seq<Token>, n: nat) {
    exists i | 0 <= i < |ts| :: BoundAt(ts, i) && ts[i] == Place(n)
  }

  lemma BoundDrop(ts: seq<Token>, d: nat)
    requires d in {1, 2} && d <= |ts|
    requires !(|ts| >= 2 && Limits(ts[0]) && ts[1].Place?) <==> d == 1
    ensures forall i | d <= i < |ts| :: BoundAt(ts, i) <==> BoundAt(ts[d..], i - d)
    ensures forall i | 0 <= i < d :: BoundAt(ts, i) <==> (d == 2 && i == 1)
    ensures forall n :: Limiting(ts, n) <==> (d == 2 && n == ts[1].n) || Limiting(ts[d..], n)
  {
    forall n ensures Limiting(ts, n) <==> (d == 2 && n == ts[1].n) || Limiting(ts[d..], n) {
      if i :| 0 <= i < |ts[d..]| && BoundAt(ts[d..], i) && ts[d..][i] == Place(n) {
        assert BoundAt(ts, i + d) && ts[i + d] == Place(n);
      }
      if i :| 0 <= i < |ts| && BoundAt(ts, i) && ts[i] == Place(n) {
        if i >= d {
          assert BoundAt(ts[d..], i - d) && ts[d..][i - d] == Place(n);
        }
      }
    }
  }

  lemma FirstBoundDrop(ts: seq<Token>, d: nat, i: int)
    requires d in {1, 2} && d <= i < |ts|
    requires !(|ts| >= 2 && Limits(ts[0]) && ts[1].Place?) <==> d == 1
    ensures FirstBoundAt(ts, i) <==> FirstBoundAt(ts[d..], i - d) && (d == 2 ==> ts[i] != ts[1])
  {
    BoundDrop(ts, d);
    if FirstBoundAt(ts[d..], i - d) && (d == 2 ==> ts[i] != ts[1]) {
      forall j | 0 <= j < i ensures !(BoundAt(ts, j) && ts[j] == ts[i]) {
        if j >= d {
          assert !(BoundAt(ts[d..], j - d) && ts[d..][j - d] == ts[d..][i - d]);
        }
      }
    }
    if FirstBoundAt(ts, i) {
      forall j | 0 <= j < i - d ensures !(BoundAt(ts[d..], j) && ts[d..][j] == ts[d..][i - d]) {
        assert !(BoundAt(ts, j + d) && ts[j + d] == ts[i]);
      }
    }
  }

  /** The pass inlines exactly the first bound place of every parameter and removes those parameters. */
  lemma {:induction false} InlineExact(ts: seq<Token>, params: Params)
    ensures forall i | 0 <= i < |ts| :: Inline(ts, params).0[i] ==
              if FirstBoundAt(ts, i) && ts[i].n in params then Printed(params[ts[i].n]) else ts[i]
    ensures forall n :: n in Inline(ts, params).1 <==> n in params && !Limiting(ts, n)
    ensures forall n | n in Inline(ts, params).1 :: Inline(ts, params).1[n] == params[n]
  {
    if ts == [] {
    } else {
      var d := if |ts| >= 2 && Limits(ts[0]) && ts[1].Place? then 2 else 1;
      var rest := if d == 2 && ts[1].n in params then params - {ts[1].n} else params;
      InlineExact(ts[d..], rest);
      BoundDrop(ts, d);
      forall i | 0 <= i < |ts|
        ensures Inline(ts, params).0[i] == if FirstBoundAt(ts, i) && ts[i].n in params then Printed(params[ts[i].n]) else ts[i]
      {
        if i >= d {
          FirstBoundDrop(ts, d, i);
        }
      }
    }
  }

  /** The place behind LIMIT, START or OFFSET in the statement as it was built. */
  predicate Clause(sql: seq<Token>, i: int) {
    0 < i < |sql| && sql[i - 1] in {Word("LIMIT"), Word("START"), Word("OFFSET")} && sql[i].Place?
  }

  lemma ClauseBound(sql: seq<Token>, i: int)
    ensures BoundAt(Translate(sql), i) <==> Clause(sql, i)
    ensures FirstBoundAt(Translate(sql), i) <==> Clause(sql, i) && forall j | 0 <= j < i :: !(Clause(sql, j) && sql[j] == sql[i])
  {
    forall j ensures BoundAt(Translate(sql), j) <==> Clause(sql, j) {
    }
  }

  /**
   Every token of the statement that is sent: no OFFSET is left, the first place of a bound
   parameter behind LIMIT, START or OFFSET is printed, everything else is as it was, and no place
   behind LIMIT or START still has its parameter.
   */
  lemma SentTokens(sql: seq<Token>, vars: Params, i: nat)
    requires i < |sql|
    ensures var (out, params) := Inline(Translate(sql), vars);
            && out[i] != Word("OFFSET")
            && (sql[i] == Word("OFFSET") ==> out[i] == Word("START"))
            && (sql[i].Place? && Clause(sql, i) && sql[i].n in vars && (forall j | 0 <= j < i :: !(Clause(sql, j) && sql[j] == sql[i])) ==>
                  out[i] == Printed(vars[sql[i].n]))
            && (sql[i] != Word("OFFSET") && out[i] != sql[i] ==> sql[i].Place? && Clause(sql, i))
            && (i > 0 && out[i - 1] in {Word("LIMIT"), Word("START")} && out[i].Place? ==> out[i].n !in params)
  {
    var ts := Translate(sql);
    InlineExact(ts, vars);
    ClauseBound(sql, i);
    if BoundAt(ts, i) {
      assert Limiting(ts, ts[i].n);
    }
  }

  lemma TranslateKeepsMeaning(ts: seq<Token>, params: Params)
    ensures Eval(Translate(ts), params) == Eval(ts, params)
  {
  }

  /** The parameter stands once in the statement. */
  ghost predicate Once(ts: seq<Token>, n: nat) {
    forall i, j | 0 <= i < |ts| && 0 <= j < |ts| && ts[i] == Place(n) && ts[j] == Place(n) :: i == j
  }

  /** Every placeholder has a parameter and every parameter a placeholder. */
  ghost predicate Closed(ts: seq<Token>, params: Params) {
    forall n :: n in params <==> Place(n) in ts
  }

  lemma FirstExists(ts: seq<Token>, n: nat) returns (i: nat)
    requires Limiting(ts, n)
    ensures i < |ts| && FirstBoundAt(ts, i) && ts[i] == Place(n)
  {
    var k :| 0 <= k < |ts| && BoundAt(ts, k) && ts[k] == Place(n);
    i := 0;
    while !(BoundAt(ts, i) && ts[i] == Place(n))
      invariant i <= k && forall j | 0 <= j < i :: !(BoundAt(ts, j) && ts[j] == Place(n))
      decreases k - i
    {
      i := i + 1;
    }
  }

  /**
   The statement keeps its meaning exactly when every parameter inlined into LIMIT, START or
   OFFSET stands once in the whole statement and is an integer.
   */
  lemma InliningKeepsMeaning(sql: seq<Token>, vars: Params)
    ensures var ts := Translate(sql);
            var (out, params) := Inline(ts, vars);
            Eval(out, params) == Eval(sql, vars) <==>
            forall n | n in vars && Limiting(ts, n) :: Once(ts, n) && vars[n].IntValue?
  {
    var ts := Translate(sql);
    var (out, params) := Inline(ts, vars);
    TranslateKeepsMeaning(sql, vars);
    InlineExact(ts, vars);
    if forall n | n in vars && Limiting(ts, n) :: Once(ts, n) && vars[n].IntValue? {
      forall i | 0 <= i < |ts| ensures EvalToken(out[i], params) == EvalToken(ts[i], vars) {
        InlinedToken(ts, vars, i);
      }
      assert Eval(out, params) == Eval(ts, vars);
    }
    if Eval(out, params) == Eval(ts, vars) {
      forall n | n in vars && Limiting(ts, n) ensures Once(ts, n) && vars[n].IntValue? {
        var i := FirstExists(ts, n);
        assert Eval(out, params)[i] == Eval(ts, vars)[i];
        forall j | 0 <= j < |ts| && ts[j] == Place(n) ensures j == i {
          assert Eval(out, params)[j] == Eval(ts, vars)[j];
        }
      }
    }
  }

  lemma InlinedToken(ts: seq<Token>, vars: Params, i: nat)
    requires i < |ts| && forall n | n in vars && Limiting(ts, n) :: Once(ts, n) && vars[n].IntValue?
    ensures EvalToken(Inline(ts, vars).0[i], Inline(ts, vars).1) == EvalToken(ts[i], vars)
  {
    InlineExact(ts, vars);
    if ts[i].Place? && ts[i].n in vars && Limiting(ts, ts[i].n) {
      var j := FirstExists(ts, ts[i].n);
      assert Once(ts, ts[i].n);
    }
  }

  /** A closed statement stays closed exactly when every inlined parameter stands once: otherwise a placeholder dangles. */
  lemma InliningKeepsClosed(sql: seq<Token>, vars: Params)
    requires Closed(sql, vars)
    ensures var ts := Translate(sql);
            var (out, params) := Inline(ts, vars);
            Closed(out, params) <==> forall n | n in vars && Limiting(ts, n) :: Once(ts, n)
  {
    var ts := Translate(sql);
    var (out, params) := Inline(ts, vars);
    InlineExact(ts, vars);
    forall n ensures Place(n) in ts <==> Place(n) in sql {
      if Place(n) in sql {
        var i :| 0 <= i < |sql| && sql[i] == Place(n);
        assert ts[i] == Place(n);
      }
    }
    forall n ensures (n in params <==> Place(n) in out) <==> (n in vars && Limiting(ts, n) ==> Once(ts, n)) {
      DanglingPlace(ts, vars, n);
    }
  }

  lemma DanglingPlace(ts: seq<Token>, vars: Params, n: nat)
    requires Closed(ts, vars)
    ensures (n in Inline(ts, vars).1 <==> Place(n) in Inline(ts, vars).0) <==> (n in vars && Limiting(ts, n) ==> Once(ts, n))
  {
    var (out, params) := Inline(ts, vars);
    InlineExact(ts, vars);
    if n in vars && Limiting(ts, n) {
      var i := FirstExists(ts, n);
      assert n !in params;
      if j :| 0 <= j < |ts| && ts[j] == Place(n) && j != i {
        assert out[j] == Place(n);
        assert !Once(ts, n);
      }
    } else if Place(n) in ts {
      var i :| 0 <= i < |ts| && ts[i] == Place(n);
      assert out[i] == Place(n);
    }
  }
}
