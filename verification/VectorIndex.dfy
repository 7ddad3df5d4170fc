/**
 The parameters of a vector index (migrator.go:509-538): an option text of `key=value` words in
 any order becomes keyword clauses in the order SurrealDB expects.
 */
module VectorIndex {
  import opened Strings

  import opened Wrappers

  /** One `key=value` word as the parser reads it: the key in lower case. */
  datatype Setting = Setting(key: string, value: string)

  /** `strings.Index(w, "=")`, or the length when there is none. */
  function EqualSign(w: string): (i: nat)
    ensures i <= |w| && '=' !in w[..i] && (i < |w| ==> w[i] == '=')
  {
    if w == [] || w[0] == '=' then 0 else 1 + EqualSign(w[1..])
  }

  /** A word cut at its first `=`; a word without one is no setting. */
  function ParseSetting(w: string): Option<Setting> {
    var i := EqualSign(w);
    if i == |w| then None else Some(Setting(Lower(TrimSpace(w[..i])), TrimSpace(w[i + 1..])))
  }

  function ParseSettings(ws: seq<string>): seq<Setting> {
    if ws == [] then []
    else
      var last := ParseSetting(ws[|ws| - 1]);
      ParseSettings(ws[..|ws| - 1]) + (if last.Some? then [last.value] else [])
  }

  /** The settings of an option text, in text order. */
  function Settings(option: string): seq<Setting> {
    ParseSettings(Words(option))
  }

  const ORDER: seq<(string, string)> :=
    [("dimension", "DIMENSION"), ("type", "TYPE"), ("dist", "DIST"), ("efc", "EFC"), ("m", "M"), ("capacity", "CAPACITY")]

  /** The value map after the parsing loop: a later setting of a key wins. */
  function Values(ss: seq<Setting>): map<string, string> {
    if ss == [] then map[] else Values(ss[..|ss| - 1])[ss[|ss| - 1].key := ss[|ss| - 1].value]
  }

  function Clause(vals: map<string, string>, o: (string, string)): string {
    if o.0 in vals && vals[o.0] != "" then " " + o.1 + " " + vals[o.0] else ""
  }

  function Clauses(vals: map<string, string>, n: nat): string
    requires n <= |ORDER|
  {
    if n == 0 then "" else Clauses(vals, n - 1) + Clause(vals, ORDER[n - 1])
  }

  method BuildVectorIndexParams(option: string) returns (b: string)
    ensures b == Clauses(Values(Settings(option)), |ORDER|)
  {
    var vals: map<string, string> := map[];
    var parts := Words(option);
    for i := 0 to |parts|
      invariant vals == Values(ParseSettings(parts[..i]))
    {
      ValuesStep(parts, i);
      var part, k := parts[i], EqualSign(parts[i]);
      if k < |part| {
        vals := vals[Lower(TrimSpace(part[..k])) := TrimSpace(part[k + 1..])];
      }
    }
    assert parts[..|parts|] == parts;
    b := "";
    for i := 0 to |ORDER|
      invariant b == Clauses(vals, i)
    {
      var o := ORDER[i];
      if o.0 in vals && vals[o.0] != "" {
        b := b + (" " + o.1 + " " + vals[o.0]);
      }
    }
  }

  lemma ValuesStep(ws: seq<string>, i: nat)
    requires i < |ws|
    ensures var before, s := Values(ParseSettings(ws[..i])), ParseSetting(ws[i]);
            Values(ParseSettings(ws[..i + 1])) == if s.Some? then before[s.value.key := s.value.value] else before
  {
    assert ws[..i + 1][..i] == ws[..i];
    var ss, s := ParseSettings(ws[..i]), ParseSetting(ws[i]);
    if s.Some? {
      assert (ss + [s.value])[..|ss|] == ss;
    } else {
      assert ss + [] == ss;
    }
  }

  /** The last value given to a key; empty when there is none. */
  function LastValue(ss: seq<Setting>, key: string): string {
    if ss == [] then ""
    else if ss[|ss| - 1].key == key then ss[|ss| - 1].value
    else LastValue(ss[..|ss| - 1], key)
  }

  lemma {:induction false} ValuesAreLast(ss: seq<Setting>, key: string)
    ensures LastValue(ss, key) == if key in Values(ss) then Values(ss)[key] else ""
  {
    if ss != [] {
      ValuesAreLast(ss[..|ss| - 1], key);
    }
  }

  /** The words of the clause: for each known key in SurrealDB's order, its keyword and last value. */
  function ClauseWords(ss: seq<Setting>, n: nat): seq<string>
    requires n <= |ORDER|
  {
    if n == 0 then []
    else
      var v := LastValue(ss, ORDER[n - 1].0);
      ClauseWords(ss, n - 1) + (if v == "" then [] else [ORDER[n - 1].1, v])
  }

  lemma WordPair(k: string, v: string)
    requires k != "" && v != "" && NoSpace(k) && NoSpace(v)
    ensures Words(" " + k + " " + v) == [k, v]
  {
    var t := " " + v;
    assert " " + k + " " + v == " " + (k + t);
    LeadingBlank(k + t);
    LeadingWord(k, t);
    LeadingBlank(v);
    LeadingWord(v, "");
    assert v + "" == v;
  }

  lemma Keywords(n: nat)
    requires n < |ORDER|
    ensures ORDER[n].1 != "" && NoSpace(ORDER[n].1)
  {
  }

  lemma {:induction false} TrimShort(s: string)
    ensures forall i | 0 <= i < |TrimLeft(s)| :: TrimLeft(s)[i] in s
    ensures forall i | 0 <= i < |TrimRight(s)| :: TrimRight(s)[i] in s
  {
    if s != [] {
      if IsSpace(s[0]) { TrimShort(s[1..]); }
      if IsSpace(s[|s| - 1]) { TrimShort(s[..|s| - 1]); }
    }
  }

  lemma ValuePlain(w: string)
    requires NoSpace(w)
    ensures ParseSetting(w).Some? ==> NoSpace(ParseSetting(w).value.value)
  {
    var i := EqualSign(w);
    if i < |w| {
      var v := w[i + 1..];
      TrimShort(v);
      TrimShort(TrimLeft(v));
      assert forall c | c in v :: !IsSpace(c);
      assert forall c | c in TrimLeft(v) :: c in v;
    }
  }

  lemma {:induction false} SettingsPlain(ws: seq<string>)
    requires forall w | w in ws :: NoSpace(w)
    ensures forall i | 0 <= i < |ParseSettings(ws)| :: NoSpace(ParseSettings(ws)[i].value)
  {
    if ws != [] {
      SettingsPlain(ws[..|ws| - 1]);
      ValuePlain(ws[|ws| - 1]);
    }
  }

  /** For every option text, each known key with a value comes out once, in SurrealDB's order,
      with the last value given; nothing else does. */
  lemma OptionExact(option: string)
    ensures Words(Clauses(Values(Settings(option)), |ORDER|)) == ClauseWords(Settings(option), |ORDER|)
  {
    WordsPlain(option);
    SettingsPlain(Words(option));
    ClausesExact(Settings(option), |ORDER|);
  }

  /** A keyword and its value, if it has one. */
  function Pair(keyword: string, value: string): seq<string> {
    if value == "" then [] else [keyword, value]
  }

  /** Which keyword each key gets, and in which order. */
  lemma KeywordsExact(option: string)
    ensures var ss := Settings(option);
            Words(Clauses(Values(ss), |ORDER|)) ==
            Pair("DIMENSION", LastValue(ss, "dimension")) + Pair("TYPE", LastValue(ss, "type")) + Pair("DIST", LastValue(ss, "dist"))
            + Pair("EFC", LastValue(ss, "efc")) + Pair("M", LastValue(ss, "m")) + Pair("CAPACITY", LastValue(ss, "capacity"))
  {
    OptionExact(option);
    ClauseWordsSix(Settings(option));
  }

  lemma ClauseWordsSix(ss: seq<Setting>)
    ensures |ORDER| == 6
    ensures ClauseWords(ss, 6) ==
            Pair("DIMENSION", LastValue(ss, "dimension")) + Pair("TYPE", LastValue(ss, "type")) + Pair("DIST", LastValue(ss, "dist"))
            + Pair("EFC", LastValue(ss, "efc")) + Pair("M", LastValue(ss, "m")) + Pair("CAPACITY", LastValue(ss, "capacity"))
  {
    ClauseStep(ss, 6, "capacity", "CAPACITY");
    ClauseStep(ss, 5, "m", "M");
    ClauseStep(ss, 4, "efc", "EFC");
    ClauseStep(ss, 3, "dist", "DIST");
    ClauseStep(ss, 2, "type", "TYPE");
    ClauseStep(ss, 1, "dimension", "DIMENSION");
    assert ClauseWords(ss, 0) + Pair("DIMENSION", LastValue(ss, "dimension")) == Pair("DIMENSION", LastValue(ss, "dimension"));
  }

  lemma ClauseStep(ss: seq<Setting>, n: nat, key: string, keyword: string)
    requires 1 <= n <= |ORDER| && ORDER[n - 1] == (key, keyword)
    ensures ClauseWords(ss, n) == ClauseWords(ss, n - 1) + Pair(keyword, LastValue(ss, key))
  {
  }

  /** `key=value`, with the key in any letters. */
  function PrintSetting(s: Setting): string {
    s.key + "=" + s.value
  }

  /** The settings a text of `key=value` words is read as: all of them, in order, with the keys in lower case. */
  function Lowered(ss: seq<Setting>): seq<Setting> {
    seq(|ss|, i requires 0 <= i < |ss| => Setting(Lower(ss[i].key), ss[i].value))
  }

  lemma {:induction false} EqualSignAt(k: string, v: string)
    requires '=' !in k
    ensures EqualSign(k + "=" + v) == |k|
  {
    var w := k + "=" + v;
    if k == "" {
      assert w[0] == '=';
    } else {
      assert w[1..] == k[1..] + "=" + v && w[0] == k[0];
      EqualSignAt(k[1..], v);
    }
  }

  lemma {:induction false} TrimPlain(s: string)
    requires NoSpace(s)
    ensures TrimSpace(s) == s
  {
  }

  lemma SettingRead(s: Setting)
    requires '=' !in s.key && NoSpace(s.key) && NoSpace(s.value)
    ensures ParseSetting(PrintSetting(s)) == Some(Setting(Lower(s.key), s.value))
    ensures NoSpace(PrintSetting(s)) && PrintSetting(s) != ""
  {
    var w := PrintSetting(s);
    EqualSignAt(s.key, s.value);
    assert w[..|s.key|] == s.key && w[|s.key| + 1..] == s.value && !IsSpace('=');
    TrimPlain(s.key);
    TrimPlain(s.value);
  }

  /** Reading a printed option gives its settings back; the letters of a value stay as they are. */
  lemma {:induction false} OptionRead(ss: seq<Setting>)
    requires forall i | 0 <= i < |ss| :: '=' !in ss[i].key && NoSpace(ss[i].key) && NoSpace(ss[i].value)
    ensures Settings(Join(seq(|ss|, i requires 0 <= i < |ss| => PrintSetting(ss[i])), " ")) == Lowered(ss)
  {
    var ws := seq(|ss|, i requires 0 <= i < |ss| => PrintSetting(ss[i]));
    forall i | 0 <= i < |ss| ensures ParseSetting(ws[i]) == Some(Lowered(ss)[i]) && NoSpace(ws[i]) && ws[i] != "" {
      SettingRead(ss[i]);
    }
    JoinedWords(ws);
    ParseAll(ws, Lowered(ss));
  }

  lemma {:induction false} JoinedWords(ws: seq<string>)
    requires forall i | 0 <= i < |ws| :: NoSpace(ws[i]) && ws[i] != ""
    ensures Words(Join(ws, " ")) == ws
  {
    if |ws| == 1 {
      LeadingWord(ws[0], "");
      assert ws[0] + "" == ws[0];
    } else if |ws| > 1 {
      JoinedWords(ws[1..]);
      var rest := Join(ws[1..], " ");
      assert Join(ws, " ") == ws[0] + (" " + rest);
      LeadingWord(ws[0], " " + rest);
      LeadingBlank(rest);
    }
  }

  lemma ParseAll(ws: seq<string>, ss: seq<Setting>)
    requires |ws| == |ss| && forall i | 0 <= i < |ws| :: ParseSetting(ws[i]) == Some(ss[i])
    ensures ParseSettings(ws) == ss
  {
    for i := 0 to |ws|
      invariant ParseSettings(ws[..i]) == ss[..i]
    {
      ParseNext(ws, ss, i);
    }
    assert ws[..|ws|] == ws && ss[..|ss|] == ss;
  }

  lemma ParseNext(ws: seq<string>, ss: seq<Setting>, i: nat)
    requires i < |ws| == |ss| && ParseSetting(ws[i]) == Some(ss[i]) && ParseSettings(ws[..i]) == ss[..i]
    ensures ParseSettings(ws[..i + 1]) == ss[..i + 1]
  {
    assert ws[..i + 1][..i] == ws[..i] && ss[..i + 1] == ss[..i] + [ss[i]];
  }

  /** A word without `=` is no setting. */
  lemma {:induction false} NoSetting(w: string)
    ensures ParseSetting(w) == None <==> '=' !in w
  {
    var i := EqualSign(w);
    assert i == |w| ==> w[..i] == w;
    assert i < |w| ==> w[i] in w;
  }

  lemma {:induction false} ClausesExact(ss: seq<Setting>, n: nat)
    requires n <= |ORDER| && forall i | 0 <= i < |ss| :: NoSpace(ss[i].value)
    ensures Words(Clauses(Values(ss), n)) == ClauseWords(ss, n)
  {
    if n > 0 {
      ClausesExact(ss, n - 1);
      var (key, keyword) := ORDER[n - 1];
      ValuesAreLast(ss, key);
      var v := LastValue(ss, key);
      var c := Clause(Values(ss), ORDER[n - 1]);
      if v != "" {
        Keywords(n - 1);
        LastValuePlain(ss, key);
        WordPair(keyword, v);
      }
      WordsAppend(Clauses(Values(ss), n - 1), c);
    }
  }

  lemma {:induction false} LastValuePlain(ss: seq<Setting>, key: string)
    requires forall i | 0 <= i < |ss| :: NoSpace(ss[i].value)
    ensures NoSpace(LastValue(ss, key))
  {
    if ss != [] && ss[|ss| - 1].key != key {
      LastValuePlain(ss[..|ss| - 1], key);
    }
  }

  lemma {:induction false} LastValueMember(ss: seq<Setting>, s: Setting)
    requires s in ss && forall i, j | 0 <= i < j < |ss| :: ss[i].key != ss[j].key
    ensures LastValue(ss, s.key) == s.value
  {
    var p := ss[..|ss| - 1];
    if ss[|ss| - 1] != s {
      var i :| 0 <= i < |ss| && ss[i] == s;
      assert p[i] == s;
      LastValueMember(p, s);
    }
  }

  lemma {:induction false} LastValueAbsent(ss: seq<Setting>, key: string)
    requires forall s | s in ss :: s.key != key
    ensures LastValue(ss, key) == ""
  {
    if ss != [] {
      assert ss[|ss| - 1] in ss;
      LastValueAbsent(ss[..|ss| - 1], key);
    }
  }

  /** The order in which different keys are given does not matter. */
  lemma SettingOrderIgnored(ss: seq<Setting>, ts: seq<Setting>)
    requires forall i, j | 0 <= i < j < |ss| :: ss[i].key != ss[j].key
    requires forall i, j | 0 <= i < j < |ts| :: ts[i].key != ts[j].key
    requires forall s :: s in ss <==> s in ts
    ensures Values(ss) == Values(ts)
  {
    forall key ensures key in Values(ss) <==> key in Values(ts)
      ensures key in Values(ss) ==> Values(ss)[key] == Values(ts)[key]
    {
      ValuesMembers(ss, key);
      ValuesMembers(ts, key);
      ValuesAreLast(ss, key);
      ValuesAreLast(ts, key);
      if s :| s in ss && s.key == key {
        LastValueMember(ss, s);
        LastValueMember(ts, s);
      }
    }
  }

  lemma {:induction false} ValuesMembers(ss: seq<Setting>, key: string)
    ensures key in Values(ss) <==> exists s :: s in ss && s.key == key
  {
    if ss != [] {
      ValuesMembers(ss[..|ss| - 1], key);
      assert forall s :: s in ss <==> s in ss[..|ss| - 1] || s == ss[|ss| - 1];
    }
  }
}
