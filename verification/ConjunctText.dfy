/**
 Dropping one conjunct of a printed WHERE clause by text replacement, as both id
 optimisers do (callback_query.go:61-65 and 146-157). All of it is about strings.
 */
module ConjunctText {
  import opened Strings

  const WHERE := "WHERE "
  const AND := " AND "

  predicate EndsWith(s: string, t: string) {
    |t| <= |s| && s[|s| - |t|..] == t
  }

  /** `p` occurs in `s` at position `pos` and nowhere else. */
  ghost predicate OnlyAt(s: string, p: string, pos: int) {
    At(s, p, pos) && forall i | At(s, p, i) :: i == pos
  }

  /** `k` does not end in a blank and no blank of `k` is followed by `c`. */
  predicate BlanksAvoid(k: string, c: char) {
    && k != [] && k[|k| - 1] != ' '
    && forall e | 0 <= e < |k| - 1 :: k[e] == ' ' ==> k[e + 1] != c
  }

  /** What may follow a conjunct: nothing, or a blank and a keyword that no key text continues with. */
  predicate Detached(k: string, b: string) {
    b == [] || (|b| > 1 && b[0] == ' ' && BlanksAvoid(k, b[1]))
  }

  lemma NoStraddle(a: string, b: string, k: string, i: int)
    requires Detached(k, b) && At(a + b, k, i)
    ensures (i + |k| <= |a| && At(a, k, i)) || (i >= |a| && At(b, k, i - |a|))
  {
    var s := a + b;
    assert forall j | i <= j < i + |k| :: s[j] == s[i..i + |k|][j - i] == k[j - i];
    if b != [] {
      assert s[|a|] == b[0] && s[|a| + 1] == b[1];
    }
    if i >= |a| {
      AtRight(a, b, k, i - |a|);
    } else if i + |k| <= |a| {
      AtLeft(a, b, k, i);
    } else {
      assert false;
    }
  }

  /** The same for a text that ends in the blank of the keyword WHERE. */
  lemma NoStraddleWhere(a: string, b: string, k: string, i: int)
    requires EndsWith(a, WHERE) && BlankBefore(k)
    requires At(a + b, k, i)
    ensures (i + |k| <= |a| && At(a, k, i)) || (i >= |a| && At(b, k, i - |a|))
  {
    var s := a + b;
    assert forall j | i <= j < i + |k| :: s[j] == s[i..i + |k|][j - i] == k[j - i];
    assert s[|a| - 1] == a[|a| - 6..][5] == ' ' && s[|a| - 2] == a[|a| - 6..][4] == 'E';
    if i >= |a| {
      AtRight(a, b, k, i - |a|);
    } else if i + |k| <= |a| {
      AtLeft(a, b, k, i);
    } else {
      assert false;
    }
  }

  /** An occurrence of a longer pattern is an occurrence of its core. */
  lemma AtCore(s: string, lead: string, k: string, trail: string, i: int)
    requires At(s, lead + k + trail, i)
    ensures At(s, k, i + |lead|) && s[i..i + |lead|] == lead
    ensures s[i + |lead| + |k|..i + |lead| + |k| + |trail|] == trail
  {
    var p := lead + k + trail;
    var t := s[i..i + |p|];
    assert t[..|lead|] == lead && t[|lead| + |k|..] == trail;
    assert p[|lead|..|lead| + |k|] == k;
    SliceOfSlice(s, i, |p|, |lead|, |lead| + |k|);
  }

  lemma SliceOfSlice(s: string, i: int, n: nat, a: nat, b: nat)
    requires 0 <= i && i + n <= |s| && a <= b <= n
    ensures s[i..i + n][a..b] == s[i + a..i + b]
  {
    var t := s[i..i + n];
    assert forall j | 0 <= j < b - a :: t[a..b][j] == t[a + j] == s[i + (a + j)] == s[i + a..i + b][j];
  }

  /** One replacement around the only occurrence of `k`: it hits when the context fits, else nothing happens. */
  lemma ReplaceAround(l: string, k: string, r: string, lead: string, trail: string, rep: string)
    requires k != [] && OnlyAt(l + (k + r), k, |l|)
    ensures var out := ReplaceAll(l + (k + r), lead + k + trail, rep);
            out == if EndsWith(l, lead) && trail <= r then l[..|l| - |lead|] + (rep + r[|trail|..]) else l + (k + r)
  {
    var s, p := l + (k + r), lead + k + trail;
    forall i | At(s, p, i) ensures i == |l| - |lead| && EndsWith(l, lead) && trail <= r {
      AtCore(s, lead, k, trail, i);
      assert l[i..] == s[i..|l|];
      assert r[..|trail|] == s[|l| + |k|..|l| + |k| + |trail|];
    }
    if EndsWith(l, lead) && trail <= r {
      var a, b := l[..|l| - |lead|], r[|trail|..];
      assert s == a + (p + b) by {
        assert l == a + lead && r == trail + b;
      }
      ReplaceOnce(a, p, b, rep);
    } else {
      ReplaceNothing(s, p, rep);
    }
  }

  lemma ReplaceAbsent(s: string, lead: string, k: string, trail: string, rep: string)
    requires k != [] && !Contains(s, k)
    ensures ReplaceAll(s, lead + k + trail, rep) == s
  {
    var p := lead + k + trail;
    forall i | 0 <= i <= |s| ensures At(s, p, i) ==> At(s, k, i + |lead|) {
      if At(s, p, i) {
        AtCore(s, lead, k, trail, i);
      }
    }
    ReplaceNothing(s, p, rep);
  }

  /** The text left when the conjunct between `b + ctx + qual` and `r` is dropped. */
  function Dropped(b: string, isFirst: bool, r: string): string {
    if isFirst && AND <= r then b + (WHERE + r[|AND|..]) else b + r
  }

  /** Where the context of a conjunct starts: `l` is `b` and the keyword, and maybe a table qualifier. */
  predicate Context(b: string, isFirst: bool, l: string) {
    if isFirst then b + WHERE <= l else b <= l
  }

  /** `k` cannot straddle the blank of WHERE. */
  predicate BlankBefore(k: string) {
    k != [] && k[0] != ' ' && forall e | 0 < e < |k| && k[e] == ' ' :: k[e - 1] != 'E'
  }

  /** Once dropped, the key text is gone. */
  lemma DroppedIsClean(b: string, isFirst: bool, l: string, k: string, r: string, kk: string)
    requires forall i | At(l + (k + r), kk, i) :: i == |l|
    requires Context(b, isFirst, l) && k != [] && BlankBefore(kk) && Detached(kk, r)
    ensures !Contains(Dropped(b, isFirst, r), kk)
  {
    var s := l + (k + r);
    forall a, i | a <= l ensures !At(a, kk, i) {
      if i + |kk| <= |a| {
        assert s == a + s[|a|..];
        AtLeft(a, s[|a|..], kk, i);
      }
    }
    forall c, i | 0 <= i && |c| <= |r| && r[|r| - |c|..] == c ensures !At(c, kk, i) {
      var a := s[..|s| - |c|];
      assert s == a + c;
      AtRight(a, c, kk, i);
    }
    if isFirst && AND <= r {
      var a, c := b + WHERE, r[|AND|..];
      Assoc(b, WHERE, c);
      assert EndsWith(a, WHERE);
      forall i ensures !At(a + c, kk, i) {
        if At(a + c, kk, i) {
          NoStraddleWhere(a, c, kk, i);
        }
      }
    } else {
      assert r[|r| - |r|..] == r;
      forall i ensures !At(b + r, kk, i) {
        if At(b + r, kk, i) {
          NoStraddle(b, r, kk, i);
        }
      }
    }
  }

  /** One text replacement: `lead + key + trail` becomes `to`. */
  datatype Replacement = Replacement(lead: string, key: string, trail: string, to: string)

  /** A sequence of `sql = strings.ReplaceAll(sql, ...)` statements. */
  function Apply(s: string, ps: seq<Replacement>): string
    requires forall i | 0 <= i < |ps| :: ps[i].key != []
    decreases ps
  {
    if ps == [] then s
    else Apply(ReplaceAll(s, ps[0].lead + ps[0].key + ps[0].trail, ps[0].to), ps[1..])
  }

  /** Whether a replacement hits the conjunct `k` between `l` and `r`. */
  predicate Fits(p: Replacement, l: string, k: string, r: string) {
    p.key == k && EndsWith(l, p.lead) && p.trail <= r
  }

  lemma {:induction false} ApplyAppend(s: string, a: seq<Replacement>, b: seq<Replacement>)
    requires forall i | 0 <= i < |a| :: a[i].key != []
    requires forall i | 0 <= i < |b| :: b[i].key != []
    ensures Apply(s, a + b) == Apply(Apply(s, a), b)
    decreases a
  {
    if a == [] {
      assert a + b == b;
    } else {
      assert (a + b)[0] == a[0] && (a + b)[1..] == a[1..] + b;
      ApplyAppend(ReplaceAll(s, a[0].lead + a[0].key + a[0].trail, a[0].to), a[1..], b);
    }
  }

  lemma {:induction false} ApplyNothing(s: string, ps: seq<Replacement>)
    requires forall i | 0 <= i < |ps| :: ps[i].key != [] && !Contains(s, ps[i].key)
    ensures Apply(s, ps) == s
  {
    if ps != [] {
      ReplaceAbsent(s, ps[0].lead, ps[0].key, ps[0].trail, ps[0].to);
      ApplyNothing(s, ps[1..]);
    }
  }

  /** One replacement of the sequence. */
  lemma ApplyOne(l: string, k: string, r: string, p: Replacement)
    requires OnlyAt(l + (k + r), k, |l|)
    requires p.key != [] && (p.key == k || !Contains(l + (k + r), p.key))
    ensures ReplaceAll(l + (k + r), p.lead + p.key + p.trail, p.to) ==
            if Fits(p, l, k, r) then l[..|l| - |p.lead|] + (p.to + r[|p.trail|..]) else l + (k + r)
  {
    if p.key == k {
      ReplaceAround(l, k, r, p.lead, p.trail, p.to);
    } else {
      ReplaceAbsent(l + (k + r), p.lead, p.key, p.trail, p.to);
    }
  }

  lemma {:induction false} ApplyUnfit(l: string, k: string, r: string, ps: seq<Replacement>)
    requires OnlyAt(l + (k + r), k, |l|)
    requires forall i | 0 <= i < |ps| ::
      ps[i].key != [] && (ps[i].key == k || !Contains(l + (k + r), ps[i].key)) && !Fits(ps[i], l, k, r)
    ensures Apply(l + (k + r), ps) == l + (k + r)
  {
    if ps != [] {
      ApplyOne(l, k, r, ps[0]);
      ApplyUnfit(l, k, r, ps[1..]);
    }
  }

  /** Only the first replacement that fits does something: it drops the only key text. */
  lemma ApplyFirstFit(l: string, k: string, r: string, ps: seq<Replacement>, j: nat, d: string)
    requires OnlyAt(l + (k + r), k, |l|)
    requires forall i | 0 <= i < |ps| ::
      ps[i].key != [] && (ps[i].key == k || !Contains(l + (k + r), ps[i].key)) && !Contains(d, ps[i].key)
    requires j < |ps| && Fits(ps[j], l, k, r) && forall i | 0 <= i < j :: !Fits(ps[i], l, k, r)
    requires d == l[..|l| - |ps[j].lead|] + (ps[j].to + r[|ps[j].trail|..])
    ensures Apply(l + (k + r), ps) == d
  {
    var before, after := ps[..j], ps[j + 1..];
    assert ps == before + ([ps[j]] + after);
    ApplyAppend(l + (k + r), before, [ps[j]] + after);
    ApplyUnfit(l, k, r, before);
    ApplyOne(l, k, r, ps[j]);
    assert ([ps[j]] + after)[1..] == after;
    ApplyNothing(d, after);
  }

  method ApplySteps(sql: string, steps: seq<Replacement>) returns (s: string)
    requires forall i | 0 <= i < |steps| :: steps[i].key != []
    ensures s == Apply(sql, steps)
  {
    s := sql;
    for i := 0 to |steps|
      invariant s == Apply(sql, steps[..i])
    {
      s := ReplaceAll(s, steps[i].lead + steps[i].key + steps[i].trail, steps[i].to);
      ApplyAppend(sql, steps[..i], [steps[i]]);
      assert steps[..i + 1] == steps[..i] + [steps[i]];
    }
    assert steps[..|steps|] == steps;
  }
}
