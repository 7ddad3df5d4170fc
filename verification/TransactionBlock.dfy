/**
 A raw transaction from the caller's function to the server (transaction.go:176-221). The server
 carries out the commands of the one query it gets, in order; a command is what stands between
 semicolons, with its placeholders bound. It may reject any command, depending on what is in
 effect so far.
 */
module TransactionBlock {
  import opened Wrappers
  import opened Strings
  import opened RawTransaction

  type Command<V> = seq<Atom<V>>

  // ------------------------------------------------------------- the commands of a text

  predicate Blank<V>(a: Atom<V>) {
    a.Character? && IsSpace(a.c)
  }

  function TrimFront<V>(a: Command<V>): Command<V> {
    if a != [] && Blank(a[0]) then TrimFront(a[1..]) else a
  }

  function TrimBack<V>(a: Command<V>): Command<V> {
    if a != [] && Blank(a[|a| - 1]) then TrimBack(a[..|a| - 1]) else a
  }

  function Trim<V>(a: Command<V>): Command<V> {
    TrimFront(TrimBack(a))
  }

  /** What stands between the semicolons. */
  function Parts<V>(a: seq<Atom<V>>): (r: seq<Command<V>>)
    ensures r != []
  {
    if a == [] then [[]]
    else
      var rest := Parts(a[1..]);
      if a[0] == Character(';') then [[]] + rest else [[a[0]] + rest[0]] + rest[1..]
  }

  function Nonempty<V>(parts: seq<Command<V>>): seq<Command<V>> {
    if parts == [] then []
    else (if Trim(parts[0]) == [] then [] else [Trim(parts[0])]) + Nonempty(parts[1..])
  }

  function Commands<V>(a: seq<Atom<V>>): seq<Command<V>> {
    Nonempty(Parts(a))
  }

  // ------------------------------------------------------------------- the server

  /** The first word of a command, in lower case. */
  function FirstWord<V>(c: Command<V>): string {
    if c == [] || !c[0].Character? || IsSpace(c[0].c) then "" else [LowerChar(c[0].c)] + FirstWord(c[1..])
  }

  predicate Controls<V>(c: Command<V>) {
    FirstWord(c) in {"begin", "commit", "cancel"}
  }

  /** What is committed, what an open transaction has done, whether it met a rejected command, and
      whether any command failed. */
  datatype Session<V> = Session(log: seq<Command<V>>, pending: Option<seq<Command<V>>>, broken: bool, failed: bool)

  type Judge<!V> = (seq<Command<V>>, Command<V>) -> bool

  function InEffect<V>(s: Session<V>): seq<Command<V>> {
    s.log + if s.pending.Some? then s.pending.value else []
  }

  function Execute<V>(s: Session<V>, c: Command<V>, rejects: Judge<V>): Session<V> {
    if FirstWord(c) == "begin" then s.(pending := Some([]), broken := false)
    else if FirstWord(c) == "commit" then
      if s.pending.Some? && !s.broken then s.(log := s.log + s.pending.value, pending := None)
      else s.(pending := None, failed := true)
    else if FirstWord(c) == "cancel" then s.(pending := None)
    else if rejects(InEffect(s), c) then s.(broken := true, failed := true)
    else if s.pending.Some? then s.(pending := Some(s.pending.value + [c]))
    else s.(log := s.log + [c])
  }

  function ExecuteAll<V>(s: Session<V>, cs: seq<Command<V>>, rejects: Judge<V>): Session<V> {
    if cs == [] then s else Execute(ExecuteAll(s, cs[..|cs| - 1], rejects), cs[|cs| - 1], rejects)
  }

  /** One query; a transaction still open at its end is discarded. */
  function Answer<V>(log: seq<Command<V>>, a: seq<Atom<V>>, rejects: Judge<V>): (seq<Command<V>>, bool) {
    var s := ExecuteAll(Session(log, None, false, false), Commands(a), rejects);
    (s.log, !s.failed)
  }

  class Server<V(!new)> {
    var log: seq<Command<V>>
    const rejects: Judge<V>

    constructor (rejects: Judge<V>)
      ensures log == [] && this.rejects == rejects
    {
      log, this.rejects := [], rejects;
    }

    method Query(sql: string, params: map<string, V>) returns (ok: bool)
      modifies this
      ensures (log, ok) == Answer(old(log), Eval(Lex(sql), params), rejects)
    {
      var r := Answer(log, Eval(Lex(sql), params), rejects);
      log, ok := r.0, r.1;
    }
  }

  // -------------------------------------------------------------- the transaction

  /** What the caller's function asks for. */
  datatype Request<V> = Request(query: string, params: map<string, V>)

  ghost predicate Answers<V>(cs: seq<Call<V>>, fn: seq<Request<V>>) {
    |cs| == |fn| && Ordered(cs) && forall i | 0 <= i < |fn| :: cs[i].query == fn[i].query && cs[i].params == fn[i].params
  }

  /** The commands the caller means, each request under its own parameters. */
  function Meant<V>(fn: seq<Request<V>>): seq<Command<V>> {
    if fn == [] then []
    else Meant(fn[..|fn| - 1]) + Commands(Eval(Lex(fn[|fn| - 1].query), fn[|fn| - 1].params))
  }

  /** No request begins, commits or cancels a transaction of its own. */
  ghost predicate NoControl<V>(cs: seq<Command<V>>) {
    forall c | c in cs :: !Controls(c)
  }

  /** The server accepts each of the commands behind the ones before it. */
  ghost predicate AllAccepted<V>(log: seq<Command<V>>, cs: seq<Command<V>>, rejects: Judge<V>) {
    forall i | 0 <= i < |cs| :: !rejects(log + cs[..i], cs[i])
  }

  /**
   `Transaction`, for a function that adds these statements and then fails or not. Without an
   error the committed effect is that of all the requests, under their own parameters and in
   order; with any rejected command, and with a failing function, there is none.
   */
  method Transaction<V(!new)>(server: Server<V>, fn: seq<Request<V>>, fails: bool) returns (ok: bool, ghost cs: seq<Call<V>>)
    modifies server
    ensures Answers(cs, fn)
    ensures fails ==> !ok && server.log == old(server.log)
    ensures !fails && fn == [] ==> ok && server.log == old(server.log)
    ensures !fails && fn != [] && ValidCalls(cs) && CleanRun(cs) && NoControl(Meant(fn)) ==>
              && (ok <==> AllAccepted(old(server.log), Meant(fn), server.rejects))
              && server.log == old(server.log) + if ok then Meant(fn) else []
  {
    var tx := new Tx<V>();
    cs := [];
    for i := 0 to |fn|
      invariant fresh(tx) && !tx.err && server.log == old(server.log)
      invariant |cs| == i && Ordered(cs) && tx.State() == Run(cs)
      invariant forall k | 0 <= k < i :: cs[k].query == fn[k].query && cs[k].params == fn[k].params
    {
      ghost var order := tx.Exec(fn[i].query, fn[i].params);
      ghost var c := Call(fn[i].query, fn[i].params, order);
      CallAdded(cs, c);
      cs := cs + [c];
    }
    ok := !fails;
    if fails {
      return;
    }
    RunMerges(cs);
    var sql, send := tx.FullQuery();
    if !send {
      return;
    }
    ok := server.Query(sql, tx.params);
    if ValidCalls(cs) && CleanRun(cs) && NoControl(Meant(fn)) {
      BlockIsAtomic(old(server.log), cs, fn, server.rejects);
    }
  }

  lemma CallAdded<V>(cs: seq<Call<V>>, c: Call<V>)
    requires Ordered(cs) && IsOrder(c.order, c.params.Keys)
    ensures Ordered(cs + [c]) && Run(cs + [c]) == StepExec(Run(cs), c)
  {
    assert (cs + [c])[..|cs|] == cs;
  }

  // ----------------------------------------------------------- commands of texts

  /** One more atom in front of a text. */
  function Prepended<V>(x: Atom<V>, ps: seq<Command<V>>): seq<Command<V>>
    requires ps != []
  {
    if x == Character(';') then [[]] + ps else [[x] + ps[0]] + ps[1..]
  }

  lemma PartsCons<V>(x: Atom<V>, a: seq<Atom<V>>)
    ensures Parts([x] + a) == Prepended(x, Parts(a))
  {
    assert ([x] + a)[1..] == a;
  }

  lemma PrependedAppend<V>(x: Atom<V>, ps: seq<Command<V>>, qs: seq<Command<V>>)
    requires ps != []
    ensures Prepended(x, ps + qs) == Prepended(x, ps) + qs
  {
    assert (ps + qs)[1..] == ps[1..] + qs;
  }

  lemma {:induction false} PartsAppend<V>(a: seq<Atom<V>>, b: seq<Atom<V>>)
    ensures Parts(a + ([Character(';')] + b)) == Parts(a) + Parts(b)
  {
    if a == [] {
      PartsCons(Character(';'), b);
      assert [] + ([Character(';')] + b) == [Character(';')] + b;
    } else {
      PartsAppend(a[1..], b);
      PartsCons(a[0], a[1..] + ([Character(';')] + b));
      PartsCons(a[0], a[1..]);
      PrependedAppend(a[0], Parts(a[1..]), Parts(b));
      assert a == [a[0]] + a[1..];
      Assoc([a[0]], a[1..], [Character(';')] + b);
    }
  }

  lemma {:induction false} NonemptyAppend<V>(a: seq<Command<V>>, b: seq<Command<V>>)
    ensures Nonempty(a + b) == Nonempty(a) + Nonempty(b)
  {
    if a == [] {
      assert a + b == b;
    } else {
      assert (a + b)[1..] == a[1..] + b;
      NonemptyAppend(a[1..], b);
    }
  }

  lemma CommandsAppend<V>(a: seq<Atom<V>>, b: seq<Atom<V>>)
    ensures Commands(a + ([Character(';')] + b)) == Commands(a) + Commands(b)
  {
    PartsAppend(a, b);
    NonemptyAppend(Parts(a), Parts(b));
  }

  lemma TrimBackBlank<V>(a: Command<V>, w: Atom<V>)
    requires Blank(w)
    ensures TrimBack(a + [w]) == TrimBack(a)
  {
    assert (a + [w])[..|a|] == a;
  }

  lemma {:induction false} TrimFrontBlank<V>(a: Command<V>, w: Atom<V>)
    requires Blank(w)
    ensures Trim([w] + a) == Trim(a)
  {
    var s := [w] + a;
    if a == [] {
      assert s[..0] == [];
    } else if Blank(a[|a| - 1]) {
      assert s[..|s| - 1] == [w] + a[..|a| - 1];
      TrimFrontBlank(a[..|a| - 1], w);
    } else {
      assert s[1..] == a;
    }
  }

  /** One more atom behind the last part. */
  function Grown<V>(ps: seq<Command<V>>, w: Atom<V>): seq<Command<V>>
    requires ps != []
  {
    ps[..|ps| - 1] + [ps[|ps| - 1] + [w]]
  }

  lemma PrependedGrown<V>(x: Atom<V>, ps: seq<Command<V>>, w: Atom<V>)
    requires ps != []
    ensures Grown(Prepended(x, ps), w) == Prepended(x, Grown(ps, w))
  {
    if x == Character(';') {
      assert ([[]] + ps)[..|ps|] == [[]] + ps[..|ps| - 1];
    } else if |ps| == 1 {
      Assoc([x], ps[0], [w]);
    }
  }

  lemma OneBlank<V>(w: Atom<V>)
    requires Blank(w)
    ensures Parts([w]) == [[w]]
  {
    assert [w][1..] == [];
    assert Parts<V>([])[0] == [] && [w] + [] == [w];
  }

  lemma {:induction false} PartsSnoc<V>(a: seq<Atom<V>>, w: Atom<V>)
    requires Blank(w)
    ensures Parts(a + [w]) == Grown(Parts(a), w)
  {
    if a == [] {
      OneBlank(w);
      assert a + [w] == [w] && [] + [w] == [w];
    } else {
      PartsSnoc(a[1..], w);
      assert a == [a[0]] + a[1..];
      PartsCons(a[0], a[1..] + [w]);
      PartsCons(a[0], a[1..]);
      PrependedGrown(a[0], Parts(a[1..]), w);
      Assoc([a[0]], a[1..], [w]);
    }
  }

  /** White space at the end of a text, or at its start, is no matter. */
  lemma BlankBehind<V>(a: seq<Atom<V>>, w: Atom<V>)
    requires Blank(w)
    ensures Commands(a + [w]) == Commands(a)
  {
    PartsSnoc(a, w);
    var ps := Parts(a);
    var p, last := ps[..|ps| - 1], ps[|ps| - 1];
    assert ps == p + [last];
    TrimBackBlank(last, w);
    NonemptyAppend(p, [last]);
    NonemptyAppend(p, [last + [w]]);
    assert [last][1..] == [] && [last + [w]][1..] == [];
  }

  lemma BlankBefore<V>(a: seq<Atom<V>>, w: Atom<V>)
    requires Blank(w)
    ensures Commands([w] + a) == Commands(a)
  {
    assert ([w] + a)[1..] == a;
    var ps := Parts(a);
    TrimFrontBlank(ps[0], w);
    assert ([[w] + ps[0]] + ps[1..])[1..] == ps[1..];
  }

  lemma {:induction false} TrimAtomsCommands<V>(a: seq<Atom<V>>)
    ensures Commands(TrimAtoms(a)) == Commands(a)
  {
    if a != [] && a[|a| - 1].Character? && IsBlank(a[|a| - 1].c) {
      TrimAtomsCommands(a[..|a| - 1]);
      BlankBehind(a[..|a| - 1], a[|a| - 1]);
      assert a == a[..|a| - 1] + [a[|a| - 1]];
    }
  }

  lemma NoCommands<V>()
    ensures Commands<V>([]) == []
  {
    assert Parts<V>([])[1..] == [];
  }

  /** An ended statement is a text and a semicolon. */
  lemma EndedText<V>(m: seq<Atom<V>>) returns (x: seq<Atom<V>>)
    ensures EndAtoms(m) == x + [Character(';')] && Commands(x) == Commands(m)
  {
    var t := TrimAtoms(m);
    TrimAtomsCommands(m);
    x := t;
    if t != [] && t[|t| - 1] == Character(';') {
      x := t[..|t| - 1];
      EndedCommand(x, t);
    }
  }

  /** A line of the block, in front of anything. */
  lemma LineCommands<V>(m: seq<Atom<V>>, y: seq<Atom<V>>)
    ensures Commands([Character('\n')] + (EndAtoms(m) + y)) == Commands(m) + Commands(y)
  {
    var x := EndedText(m);
    Assoc(x, [Character(';')], y);
    BlankBefore(EndAtoms(m) + y, Character('\n'));
    CommandsAppend(x, y);
  }

  lemma {:induction false} LinesCommands<V>(cs: seq<Call<V>>, fn: seq<Request<V>>, y: seq<Atom<V>>)
    requires Answers(cs, fn)
    ensures Commands(MeaningLines(cs) + y) == Meant(fn) + Commands(y)
  {
    if cs == [] {
      assert MeaningLines(cs) + y == y;
    } else {
      var n := |cs| - 1;
      var m := Eval(Lex(cs[n].query), cs[n].params);
      var line := [Character('\n')] + EndAtoms(m);
      Assoc(MeaningLines(cs[..n]), line, y);
      Assoc([Character('\n')], EndAtoms(m), y);
      LinesCommands(cs[..n], fn[..n], line + y);
      LineCommands(m, y);
      Assoc(Meant(fn[..n]), Commands(m), Commands(y));
    }
  }

  lemma {:induction false} PlainParts<V>(s: string)
    requires ';' !in s
    ensures Parts(Plain<V>(s)) == [Plain(s)]
  {
    if s != [] {
      assert Plain<V>(s)[1..] == Plain(s[1..]);
      PlainParts<V>(s[1..]);
      assert Plain<V>(s) == [Character(s[0])] + Plain(s[1..]);
    }
  }

  lemma PlainCommand<V>(s: string)
    requires ';' !in s && s != [] && !IsSpace(s[0]) && !IsSpace(s[|s| - 1])
    ensures Commands(Plain<V>(s)) == [Plain(s)]
  {
    PlainParts<V>(s);
    var a := Plain<V>(s);
    assert a[0] == Character(s[0]) && a[|a| - 1] == Character(s[|s| - 1]);
    assert Trim(a) == a;
    OneCommand(a);
  }

  lemma OneCommand<V>(a: Command<V>)
    ensures Nonempty([a]) == if Trim(a) == [] then [] else [Trim(a)]
  {
    assert [a][1..] == [];
  }

  lemma {:induction false} PlainWord<V>(w: string, s: string)
    requires NoSpace(w) && s != [] && IsSpace(s[0])
    ensures FirstWord(Plain<V>(w + s)) == Lower(w)
  {
    if w == [] {
      assert w + s == s;
    } else {
      assert (w + s)[1..] == w[1..] + s;
      assert Plain<V>(w + s)[1..] == Plain(w[1..] + s);
      PlainWord<V>(w[1..], s);
      assert Lower(w) == [LowerChar(w[0])] + Lower(w[1..]);
    }
  }

  lemma FrameCommands<V>()
    ensures Commands(Plain<V>("BEGIN TRANSACTION")) == [Plain("BEGIN TRANSACTION")]
    ensures Commands(Plain<V>("COMMIT TRANSACTION")) == [Plain("COMMIT TRANSACTION")]
    ensures FirstWord(Plain<V>("BEGIN TRANSACTION")) == "begin" && FirstWord(Plain<V>("COMMIT TRANSACTION")) == "commit"
  {
    BeginCommand<V>();
    CommitCommand<V>();
  }

  lemma BeginCommand<V>()
    ensures var b := Plain<V>("BEGIN TRANSACTION"); Commands(b) == [b] && FirstWord(b) == "begin"
  {
    KeywordCommand<V>("BEGIN", "BEGIN TRANSACTION", "begin");
  }

  lemma CommitCommand<V>()
    ensures var c := Plain<V>("COMMIT TRANSACTION"); Commands(c) == [c] && FirstWord(c) == "commit"
  {
    KeywordCommand<V>("COMMIT", "COMMIT TRANSACTION", "commit");
  }

  lemma KeywordCommand<V>(w: string, s: string, l: string)
    requires s == w + " TRANSACTION" && ';' !in w && w != [] && NoSpace(w) && Lower(w) == l
    ensures Commands(Plain<V>(s)) == [Plain(s)] && FirstWord(Plain<V>(s)) == l
  {
    var t := " TRANSACTION";
    assert ';' !in t && t[0] == ' ' && t[|t| - 1] == 'N';
    assert s[0] in w && s[|s| - 1] == t[|t| - 1];
    PlainCommand<V>(s);
    PlainWord<V>(w, t);
  }

  /** The commands of the whole block: the frame, and between its two commands what the caller means. */
  lemma BlockCommands<V>(cs: seq<Call<V>>, fn: seq<Request<V>>)
    requires Answers(cs, fn)
    ensures Commands(Plain("BEGIN TRANSACTION;") + MeaningLines(cs) + ([Character('\n')] + Plain("COMMIT TRANSACTION;")))
            == [Plain("BEGIN TRANSACTION")] + Meant(fn) + [Plain("COMMIT TRANSACTION")]
  {
    FrameCommands<V>();
    FrameEnds<V>();
    FramedCommands(Plain("BEGIN TRANSACTION"), Plain("BEGIN TRANSACTION;"),
                   Plain("COMMIT TRANSACTION"), Plain("COMMIT TRANSACTION;"), cs, fn);
  }

  lemma FrameEnds<V>()
    ensures Plain<V>("BEGIN TRANSACTION;") == Plain("BEGIN TRANSACTION") + [Character(';')]
    ensures Plain<V>("COMMIT TRANSACTION;") == Plain("COMMIT TRANSACTION") + [Character(';')]
  {
    EndedPlain<V>("BEGIN TRANSACTION", "BEGIN TRANSACTION;");
    EndedPlain<V>("COMMIT TRANSACTION", "COMMIT TRANSACTION;");
  }

  lemma EndedPlain<V>(s: string, t: string)
    requires t == s + ";"
    ensures Plain<V>(t) == Plain(s) + [Character(';')]
  {
  }

  lemma FramedCommands<V>(b: Command<V>, begin: seq<Atom<V>>, c: Command<V>, commit: seq<Atom<V>>, cs: seq<Call<V>>, fn: seq<Request<V>>)
    requires Answers(cs, fn) && Commands(b) == [b] && Commands(c) == [c]
    requires begin == b + [Character(';')] && commit == c + [Character(';')]
    ensures Commands(begin + MeaningLines(cs) + ([Character('\n')] + commit)) == [b] + Meant(fn) + [c]
  {
    var semi: seq<Atom<V>>, nl: seq<Atom<V>> := [Character(';')], [Character('\n')];
    var y := nl + commit;
    FrameTexts(b, semi, MeaningLines(cs), y);
    CommandsAppend(b, MeaningLines(cs) + y);
    LinesCommands(cs, fn, y);
    BlankBefore(commit, Character('\n'));
    EndedCommand(c, commit);
    Assoc([b], Meant(fn), [c]);
  }

  lemma EndedCommand<V>(c: seq<Atom<V>>, t: seq<Atom<V>>)
    requires t == c + [Character(';')]
    ensures Commands(t) == Commands(c)
  {
    NoCommands<V>();
    assert t == c + ([Character(';')] + []);
    CommandsAppend(c, []);
  }

  lemma FrameTexts<T>(b: seq<T>, semi: seq<T>, lines: seq<T>, y: seq<T>)
    ensures (b + semi) + lines + y == b + (semi + (lines + y))
  {
  }

  // ------------------------------------------------------------------ the session

  lemma ExecuteSnoc<V>(s: Session<V>, cs: seq<Command<V>>, c: Command<V>, rejects: Judge<V>)
    ensures ExecuteAll(s, cs + [c], rejects) == Execute(ExecuteAll(s, cs, rejects), c, rejects)
  {
    assert (cs + [c])[..|cs|] == cs;
  }

  lemma {:induction false} ExecuteAppend<V>(s: Session<V>, a: seq<Command<V>>, b: seq<Command<V>>, rejects: Judge<V>)
    ensures ExecuteAll(s, a + b, rejects) == ExecuteAll(ExecuteAll(s, a, rejects), b, rejects)
  {
    if b == [] {
      assert a + b == a;
    } else {
      var n := |b| - 1;
      assert (a + b)[..|a + b| - 1] == a + b[..n];
      ExecuteAppend(s, a, b[..n], rejects);
    }
  }

  /** Inside an open transaction nothing is committed, and the transaction breaks exactly when
      one of its commands is rejected. */
  lemma {:induction false} OpenSession<V>(log: seq<Command<V>>, cs: seq<Command<V>>, rejects: Judge<V>)
    requires NoControl(cs)
    ensures var s := ExecuteAll(Session(log, Some([]), false, false), cs, rejects);
            && s.log == log && s.pending.Some? && s.broken == s.failed
            && (s.failed <==> !AllAccepted(log, cs, rejects)) && (!s.failed ==> s.pending == Some(cs))
  {
    if cs != [] {
      var n := |cs| - 1;
      OpenSession(log, cs[..n], rejects);
      var s := ExecuteAll(Session(log, Some([]), false, false), cs[..n], rejects);
      assert cs[n] in cs && cs[..n] + [cs[n]] == cs;
      AcceptedNext(log, cs, rejects);
      OpenStep(log, s, cs[..n], cs[n], rejects);
    } else {
      assert AllAccepted(log, cs, rejects);
    }
  }

  lemma AcceptedNext<V>(log: seq<Command<V>>, cs: seq<Command<V>>, rejects: Judge<V>)
    requires cs != []
    ensures var n := |cs| - 1; AllAccepted(log, cs, rejects) <==> AllAccepted(log, cs[..n], rejects) && !rejects(log + cs[..n], cs[n])
  {
    var p, n := cs[..|cs| - 1], |cs| - 1;
    assert forall i | 0 <= i < n :: p[..i] == cs[..i] && p[i] == cs[i];
    if AllAccepted(log, cs, rejects) {
      forall i | 0 <= i < n ensures !rejects(log + p[..i], p[i]) {
        assert !rejects(log + cs[..i], cs[i]);
      }
    }
  }

  lemma OpenStep<V>(log: seq<Command<V>>, s: Session<V>, p: seq<Command<V>>, c: Command<V>, rejects: Judge<V>)
    requires s.log == log && s.pending.Some? && s.broken == s.failed && !Controls(c) && (!s.failed ==> s.pending == Some(p))
    ensures var t := Execute(s, c, rejects);
            && t.log == log && t.pending.Some? && t.broken == t.failed
            && (t.failed <==> s.failed || rejects(log + p, c)) && (!t.failed ==> t.pending == Some(p + [c]))
  {
  }

  /** A transaction is committed whole or not at all. */
  lemma FramedSession<V>(log: seq<Command<V>>, b: Command<V>, cs: seq<Command<V>>, c: Command<V>, rejects: Judge<V>)
    requires NoControl(cs) && FirstWord(b) == "begin" && FirstWord(c) == "commit"
    ensures var s := ExecuteAll(Session(log, None, false, false), [b] + cs + [c], rejects);
            && (s.failed <==> !AllAccepted(log, cs, rejects))
            && s.log == if s.failed then log else log + cs
  {
    var start := Session(log, None, false, false);
    assert [b][..0] == [];
    ExecuteAppend(start, [b], cs, rejects);
    ExecuteSnoc(start, [b] + cs, c, rejects);
    OpenSession(log, cs, rejects);
  }

  /** A block that does not end in a commit leaves no trace. */
  lemma UncommittedLeavesNoTrace<V>(log: seq<Command<V>>, b: Command<V>, cs: seq<Command<V>>, rejects: Judge<V>)
    requires NoControl(cs) && FirstWord(b) == "begin"
    ensures ExecuteAll(Session(log, None, false, false), [b] + cs, rejects).log == log
    ensures forall c | FirstWord(c) == "cancel" :: ExecuteAll(Session(log, None, false, false), [b] + cs + [c], rejects).log == log
  {
    var start := Session(log, None, false, false);
    assert [b][..0] == [];
    ExecuteAppend(start, [b], cs, rejects);
    OpenSession(log, cs, rejects);
    forall c | FirstWord(c) == "cancel" ensures ExecuteAll(start, [b] + cs + [c], rejects).log == log {
      ExecuteSnoc(start, [b] + cs, c, rejects);
    }
  }

  /**
   The query of a raw transaction on the server: all the requests take effect, under their own
   parameters and in call order, or none does.
   */
  lemma BlockIsAtomic<V>(log: seq<Command<V>>, cs: seq<Call<V>>, fn: seq<Request<V>>, rejects: Judge<V>)
    requires Answers(cs, fn) && ValidCalls(cs) && CleanRun(cs) && NoControl(Meant(fn))
    ensures var sql := "BEGIN TRANSACTION;" + Lines(Run(cs).stmts) + "\nCOMMIT TRANSACTION;";
            var (after, ok) := Answer(log, Eval(Lex(sql), Run(cs).params), rejects);
            && (ok <==> AllAccepted(log, Meant(fn), rejects))
            && after == log + if ok then Meant(fn) else []
  {
    BlockKeepsMeaning(cs);
    BlockCommands(cs, fn);
    FrameCommands<V>();
    var sql := "BEGIN TRANSACTION;" + Lines(Run(cs).stmts) + "\nCOMMIT TRANSACTION;";
    FramedAnswer(log, Eval(Lex(sql), Run(cs).params), Plain("BEGIN TRANSACTION"), Meant(fn), Plain("COMMIT TRANSACTION"), rejects);
  }

  lemma FramedAnswer<V>(log: seq<Command<V>>, a: seq<Atom<V>>, b: Command<V>, cs: seq<Command<V>>, c: Command<V>, rejects: Judge<V>)
    requires Commands(a) == [b] + cs + [c] && NoControl(cs) && FirstWord(b) == "begin" && FirstWord(c) == "commit"
    ensures var (after, ok) := Answer(log, a, rejects);
            (ok <==> AllAccepted(log, cs, rejects)) && after == log + if ok then cs else []
  {
    FramedSession(log, b, cs, c, rejects);
    assert log + [] == log;
  }
}
