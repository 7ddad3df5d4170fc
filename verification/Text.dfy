/** Option, as every module of the project uses it. */
module Wrappers {
  datatype Option<+T> = None | Some(value: T)
}

/**
 Decimal printing as `fmt.Sprintf("%d", n)` does it for a non-negative counter.
 */
module Decimal {
  predicate IsDigit(c: char) {
    '0' <= c <= '9'
  }

  function Digit(d: nat): (c: char)
    requires d < 10
    ensures IsDigit(c)
  {
    '0' + d as char
  }

  function Dec(n: nat): (s: string)
    ensures s != []
    ensures forall i | 0 <= i < |s| :: IsDigit(s[i])
  {
    if n < 10 then [Digit(n)] else Dec(n / 10) + [Digit(n % 10)]
  }

  lemma {:induction false} DecInjective(m: nat, n: nat)
    requires Dec(m) == Dec(n)
    ensures m == n
  {
    var s, t := Dec(m), Dec(n);
    assert s[|s| - 1] == Digit(m % 10) && t[|t| - 1] == Digit(n % 10);
    assert m % 10 == n % 10;
    if m >= 10 && n >= 10 {
      assert Dec(m / 10) == s[..|s| - 1] == t[..|t| - 1] == Dec(n / 10);
      DecInjective(m / 10, n / 10);
    }
  }
}

/** The parts of Go's `strings` package the driver uses, on sequences of characters. */
module Strings {
  /** `strings.Join`. */
  function Join(xs: seq<string>, sep: string): string {
    if xs == [] then []
    else if |xs| == 1 then xs[0]
    else xs[0] + sep + Join(xs[1..], sep)
  }

  lemma Assoc<T>(a: seq<T>, b: seq<T>, c: seq<T>)
    ensures (a + b) + c == a + (b + c)
  {
  }

  lemma {:induction false} JoinSnoc(xs: seq<string>, x: string, sep: string)
    requires xs != []
    ensures Join(xs + [x], sep) == Join(xs, sep) + sep + x
  {
    assert (xs + [x])[1..] == xs[1..] + [x];
    if |xs| > 1 {
      JoinSnoc(xs[1..], x, sep);
    }
  }

  predicate At(s: string, p: string, i: int) {
    0 <= i && i + |p| <= |s| && s[i..i + |p|] == p
  }

  /** `strings.Contains`. */
  predicate Contains(s: string, p: string) {
    exists i | 0 <= i <= |s| :: At(s, p, i)
  }

  /** `strings.ReplaceAll` for a nonempty pattern: leftmost matches that do not overlap. */
  function ReplaceAll(s: string, p: string, r: string): string
    requires p != []
  {
    if s == [] then []
    else if p <= s then r + ReplaceAll(s[|p|..], p, r)
    else [s[0]] + ReplaceAll(s[1..], p, r)
  }

  /** `strings.Replace(s, p, r, 1)` for a nonempty pattern. */
  function ReplaceFirst(s: string, p: string, r: string): string
    requires p != []
  {
    if s == [] then []
    else if p <= s then r + s[|p|..]
    else [s[0]] + ReplaceFirst(s[1..], p, r)
  }

  lemma {:induction false} ReplaceNothing(s: string, p: string, r: string)
    requires p != [] && !Contains(s, p)
    ensures ReplaceAll(s, p, r) == s
  {
    if s != [] {
      assert !At(s, p, 0);
      forall i | 0 <= i <= |s| - 1 ensures !At(s[1..], p, i) {
        assert !At(s, p, i + 1);
        assert i + |p| <= |s| - 1 ==> s[1..][i..i + |p|] == s[i + 1..i + 1 + |p|];
      }
      ReplaceNothing(s[1..], p, r);
    }
  }

  /** Occurrences in the second part of a text. */
  lemma AtRight(a: string, b: string, p: string, i: int)
    requires i >= 0
    ensures At(a + b, p, |a| + i) <==> At(b, p, i)
  {
    if i + |p| <= |b| {
      assert (a + b)[|a| + i..|a| + i + |p|] == b[i..i + |p|];
    }
  }

  /** Occurrences in the first part of a text. */
  lemma AtLeft(a: string, b: string, p: string, i: int)
    requires i + |p| <= |a|
    ensures At(a + b, p, i) <==> At(a, p, i)
  {
    if i >= 0 {
      assert (a + b)[i..i + |p|] == a[i..i + |p|];
    }
  }

  /** An occurrence, character by character. */
  lemma AtChars(s: string, p: string, i: int)
    ensures At(s, p, i) ==> forall j | i <= j < i + |p| :: s[j] == p[j - i]
  {
    assert At(s, p, i) ==> forall j | i <= j < i + |p| :: s[j] == s[i..i + |p|][j - i];
  }

  lemma ReplaceAtHead(p: string, b: string, r: string)
    requires p != []
    requires forall i | 0 <= i <= |p + b| && At(p + b, p, i) :: i == 0
    ensures ReplaceAll(p + b, p, r) == r + b
  {
    assert (p + b)[|p|..] == b;
    forall i | 0 <= i <= |b| ensures !At(b, p, i) {
      AtRight(p, b, p, i);
    }
    ReplaceNothing(b, p, r);
  }

  /** A pattern that occurs once is replaced there. */
  lemma {:induction false} ReplaceOnce(a: string, p: string, b: string, r: string)
    requires p != []
    requires forall i | 0 <= i <= |a + (p + b)| && At(a + (p + b), p, i) :: i == |a|
    ensures ReplaceAll(a + (p + b), p, r) == a + (r + b)
  {
    var s := a + (p + b);
    if a == [] {
      assert s == p + b;
      ReplaceAtHead(p, b, r);
      assert a + (r + b) == r + b;
    } else {
      var c, d := [a[0]], a[1..];
      assert a == c + d;
      Assoc(c, d, p + b);
      Assoc(c, d, r + b);
      OnceEarlier(a[0], d + (p + b), p, |d|);
      ReplaceOnce(d, p, b, r);
      ReplaceMiss(a[0], d + (p + b), p, r);
    }
  }

  /** Without its first character, a text has the pattern one place earlier. */
  lemma OnceEarlier(c: char, t: string, p: string, n: nat)
    requires forall i | 0 <= i <= |[c] + t| && At([c] + t, p, i) :: i == n + 1
    ensures !At([c] + t, p, 0) && forall i | 0 <= i <= |t| && At(t, p, i) :: i == n
  {
    forall i | 0 <= i <= |t| && At(t, p, i) ensures i == n {
      AtRight([c], t, p, i);
    }
  }

  lemma ReplaceMiss(c: char, t: string, p: string, r: string)
    requires p != [] && !At([c] + t, p, 0)
    ensures ReplaceAll([c] + t, p, r) == [c] + ReplaceAll(t, p, r)
  {
    assert ([c] + t)[1..] == t;
  }

  lemma {:induction false} ReplaceFirstAt(a: string, p: string, b: string, r: string)
    requires p != []
    requires forall i | 0 <= i < |a| :: !At(a + (p + b), p, i)
    ensures ReplaceFirst(a + (p + b), p, r) == a + (r + b)
  {
    var s := a + (p + b);
    if a == [] {
      assert s == p + b && s[|p|..] == b;
      assert a + (r + b) == r + b;
    } else {
      var t := a[1..] + (p + b);
      assert s == [a[0]] + t && s[1..] == t;
      assert !At(s, p, 0);
      forall i | 0 <= i < |a| - 1 ensures !At(t, p, i) {
        AtRight([a[0]], t, p, i);
      }
      ReplaceFirstAt(a[1..], p, b, r);
      assert a + (r + b) == [a[0]] + (a[1..] + (r + b));
    }
  }

  /** The characters `[a-zA-Z0-9_]` of a name. */
  predicate IsIdentChar(c: char) {
    'a' <= c <= 'z' || 'A' <= c <= 'Z' || '0' <= c <= '9' || c == '_'
  }

  predicate IsIdent(k: string) {
    k != [] && forall i | 0 <= i < |k| :: IsIdentChar(k[i])
  }

  /** The longest prefix of `s` made of identifier characters. */
  function IdentRun(s: string): (r: string)
    ensures |r| <= |s| && r == s[..|r|]
    ensures forall i | 0 <= i < |r| :: IsIdentChar(r[i])
    ensures |r| < |s| ==> !IsIdentChar(s[|r|])
  {
    if s == [] || !IsIdentChar(s[0]) then [] else [s[0]] + IdentRun(s[1..])
  }

  lemma {:induction false} IdentRunUnique(s: string, r: string)
    requires |r| <= |s| && r == s[..|r|]
    requires forall i | 0 <= i < |r| :: IsIdentChar(r[i])
    requires |r| < |s| ==> !IsIdentChar(s[|r|])
    ensures IdentRun(s) == r
  {
    if r != [] {
      assert s[0] == r[0] && IsIdentChar(r[0]);
      assert s[1..][..|r| - 1] == r[1..];
      IdentRunUnique(s[1..], r[1..]);
    }
  }

  function LowerChar(c: char): char {
    if 'A' <= c <= 'Z' then 'a' + (c - 'A') else c
  }

  /** `strings.ToLower`, on ASCII letters. */
  function Lower(s: string): string {
    seq(|s|, i requires 0 <= i < |s| => LowerChar(s[i]))
  }

  /** `unicode.IsSpace`. */
  predicate IsSpace(c: char) {
    || c == ' ' || '\t' <= c <= '\r' || c == '\U{85}' || c == '\U{A0}' || c == '\U{1680}'
    || '\U{2000}' <= c <= '\U{200A}' || c == '\U{2028}' || c == '\U{2029}' || c == '\U{202F}'
    || c == '\U{205F}' || c == '\U{3000}'
  }

  predicate NoSpace(s: string) {
    forall i | 0 <= i < |s| :: !IsSpace(s[i])
  }

  function TrimLeft(s: string): string {
    if s != [] && IsSpace(s[0]) then TrimLeft(s[1..]) else s
  }

  function TrimRight(s: string): string {
    if s != [] && IsSpace(s[|s| - 1]) then TrimRight(s[..|s| - 1]) else s
  }

  /** `strings.TrimSpace`. */
  function TrimSpace(s: string): string {
    TrimRight(TrimLeft(s))
  }

  lemma {:induction false} TrimShortens(s: string)
    ensures |TrimLeft(s)| <= |s| && |TrimRight(s)| <= |s| && TrimRight(s) <= s
    ensures |TrimLeft(s)| == |s| ==> TrimLeft(s) == s
    ensures |TrimRight(s)| == |s| ==> TrimRight(s) == s
  {
    if s != [] {
      if IsSpace(s[0]) { TrimShortens(s[1..]); }
      if IsSpace(s[|s| - 1]) { TrimShortens(s[..|s| - 1]); }
    }
  }

  /** The word a text starts with: its characters up to the first white space. */
  function Word(s: string): (w: string)
    ensures |w| <= |s| && w == s[..|w|] && NoSpace(w)
    ensures |w| < |s| ==> IsSpace(s[|w|])
  {
    if s == [] || IsSpace(s[0]) then [] else [s[0]] + Word(s[1..])
  }

  /** `strings.Fields`: the words of a text. Two texts with equal words differ in blanks only. */
  function Words(s: string): seq<string>
    decreases |s|
  {
    if s == [] then []
    else if IsSpace(s[0]) then Words(s[1..])
    else [Word(s)] + Words(s[|Word(s)|..])
  }

  /** No word contains white space. */
  lemma {:induction false} WordsPlain(s: string)
    ensures forall w | w in Words(s) :: NoSpace(w)
    decreases |s|
  {
    if s != [] {
      WordsPlain(if IsSpace(s[0]) then s[1..] else s[|Word(s)|..]);
    }
  }

  /** A text without its white space. */
  function Solid(s: string): string {
    if s == [] then [] else (if IsSpace(s[0]) then [] else [s[0]]) + Solid(s[1..])
  }

  function Flat(ws: seq<string>): string {
    if ws == [] then [] else ws[0] + Flat(ws[1..])
  }

  lemma {:induction false} SolidAppend(a: string, b: string)
    ensures Solid(a + b) == Solid(a) + Solid(b)
  {
    if a == [] {
      assert a + b == b;
    } else {
      assert (a + b)[1..] == a[1..] + b;
      SolidAppend(a[1..], b);
    }
  }

  lemma {:induction false} SolidWord(w: string)
    requires NoSpace(w)
    ensures Solid(w) == w
  {
    if w != [] {
      SolidWord(w[1..]);
    }
  }

  /** The words of a text, one behind the other, are the text without its white space. */
  lemma {:induction false} WordsSolid(s: string)
    ensures Flat(Words(s)) == Solid(s)
    decreases |s|
  {
    if s == [] {
    } else if IsSpace(s[0]) {
      WordsSolid(s[1..]);
    } else {
      var w, rest := Word(s), s[|Word(s)|..];
      assert s == w + rest;
      SolidWord(w);
      SolidAppend(w, rest);
      WordsSolid(rest);
    }
  }

  lemma {:induction false} WordUnique(w: string, b: string)
    requires NoSpace(w) && (b == [] || IsSpace(b[0]))
    ensures Word(w + b) == w
  {
    if w == [] {
      assert w + b == b;
    } else {
      assert (w + b)[1..] == w[1..] + b;
      WordUnique(w[1..], b);
    }
  }

  lemma LeadingWord(w: string, b: string)
    requires w != [] && NoSpace(w) && (b == [] || IsSpace(b[0]))
    ensures Words(w + b) == [w] + Words(b)
  {
    WordUnique(w, b);
    assert (w + b)[|w|..] == b;
  }

  lemma LeadingBlank(s: string)
    ensures Words(" " + s) == Words(s)
  {
    assert (" " + s)[1..] == s;
  }

  lemma {:induction false} WordsAppend(a: string, b: string)
    requires b == [] || IsSpace(b[0])
    ensures Words(a + b) == Words(a) + Words(b)
    decreases |a|
  {
    if a == [] {
      assert a + b == b;
    } else if IsSpace(a[0]) {
      assert (a + b)[1..] == a[1..] + b;
      WordsAppend(a[1..], b);
    } else {
      var w, rest := Word(a), a[|Word(a)|..];
      assert a + b == w + (rest + b);
      WordUnique(w, rest + b);
      assert (a + b)[|w|..] == rest + b;
      WordsAppend(rest, b);
      Assoc([w], Words(rest), Words(b));
    }
  }

  lemma {:induction false} SqueezeKeepsHead(s: string)
    ensures s == [] <==> ReplaceAll(s, "  ", " ") == []
    ensures s != [] ==> ReplaceAll(s, "  ", " ")[0] == s[0]
  {
  }

  lemma {:induction false} SqueezeWord(w: string, b: string)
    requires NoSpace(w)
    ensures ReplaceAll(w + b, "  ", " ") == w + ReplaceAll(b, "  ", " ")
  {
    if w == [] {
      assert w + b == b;
    } else {
      assert (w + b)[1..] == w[1..] + b;
      assert (w + b)[0] == w[0] != ' ';
      SqueezeWord(w[1..], b);
    }
  }

  /** Squeezing double blanks keeps the words. */
  lemma {:induction false} SqueezeKeepsWords(s: string)
    ensures Words(ReplaceAll(s, "  ", " ")) == Words(s)
    decreases |s|
  {
    if s == [] {
    } else if IsSpace(s[0]) {
      var rest := if "  " <= s then s[2..] else s[1..];
      SqueezeKeepsWords(rest);
      assert ReplaceAll(s, "  ", " ") == [s[0]] + ReplaceAll(rest, "  ", " ");
      assert ([s[0]] + ReplaceAll(rest, "  ", " "))[1..] == ReplaceAll(rest, "  ", " ");
      if "  " <= s {
        assert s[1] == ' ' && s[1..][1..] == rest;
      }
    } else {
      var w, rest := Word(s), s[|Word(s)|..];
      assert s == w + rest;
      SqueezeWord(w, rest);
      SqueezeKeepsHead(rest);
      SqueezeKeepsWords(rest);
      var out := ReplaceAll(rest, "  ", " ");
      WordUnique(w, out);
      assert (w + out)[|w|..] == out;
    }
  }

  lemma TrailingBlank(p: string, c: char)
    requires IsSpace(c)
    ensures Words(p + [c]) == Words(p)
  {
    WordsAppend(p, [c]);
    assert [c][1..] == [];
  }

  lemma {:induction false} TrimRightWords(s: string)
    ensures Words(TrimRight(s)) == Words(s)
  {
    if s != [] && IsSpace(s[|s| - 1]) {
      TrimRightWords(s[..|s| - 1]);
      TrailingBlank(s[..|s| - 1], s[|s| - 1]);
      assert s == s[..|s| - 1] + [s[|s| - 1]];
    }
  }

  lemma {:induction false} TrimLeftWords(s: string)
    ensures Words(TrimLeft(s)) == Words(s)
  {
    if s != [] && IsSpace(s[0]) {
      TrimLeftWords(s[1..]);
    }
  }

  /** Trimming keeps the words. */
  lemma TrimWords(s: string)
    ensures Words(TrimLeft(s)) == Words(s) && Words(TrimRight(s)) == Words(s)
  {
    TrimLeftWords(s);
    TrimRightWords(s);
  }
}
