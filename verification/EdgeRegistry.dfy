/**
 The registry of graph edge tables (dialector.go:35-67): an alias table from any spelling of
 a name to the canonical name, in which a later registration overwrites an earlier one.
 */
module EdgeRegistry {
  import opened Wrappers

  function Plural(k: string): string {
    k + "s"
  }

  predicate HasPlural(t: string) {
    t != "" && t[|t| - 1] == 's'
  }

  function Singular(t: string): (k: string)
    requires HasPlural(t)
    ensures Plural(k) == t
  {
    t[..|t| - 1]
  }

  /** What one registration does to the alias table. */
  function Register(m: map<string, string>, t: string): map<string, string> {
    if HasPlural(t) then m[t := t][Singular(t) := t] else m[t := t]
  }

  function Find(m: map<string, string>, k: string): Option<string> {
    if k in m then Some(m[k])
    else if Plural(k) in m then Some(m[Plural(k)])
    else None
  }

  class Dialector {
    var edgeTables: map<string, string>

    constructor ()
      ensures edgeTables == map[]
    {
      edgeTables := map[];
    }

    method RegisterEdgeTable(table: string)
      modifies this
      ensures edgeTables == Register(old(edgeTables), table)
    {
      edgeTables := edgeTables[table := table];
      if HasPlural(table) {
        edgeTables := edgeTables[Singular(table) := table];
      }
    }

    method FindEdgeTable(table: string) returns (name: string, ok: bool)
      ensures ok <==> Find(edgeTables, table).Some?
      ensures name == if ok then Find(edgeTables, table).value else ""
    {
      if table in edgeTables {
        return edgeTables[table], true;
      }
      var plural := Plural(table);
      if plural in edgeTables {
        return edgeTables[plural], true;
      }
      return "", false;
    }

    method IsEdgeTable(table: string) returns (ok: bool)
      ensures ok <==> Find(edgeTables, table).Some?
    {
      var _, found := FindEdgeTable(table);
      ok := found;
    }
  }

  // ------------------------------------------------------ registration histories

  /** The alias table after a history of registrations. */
  function Run(ts: seq<string>): map<string, string> {
    if ts == [] then map[] else Register(Run(ts[..|ts| - 1]), ts[|ts| - 1])
  }

  /** The last registration of `k` or of its plural. */
  function LastMatch(ts: seq<string>, k: string): Option<string> {
    if ts == [] then None
    else if ts[|ts| - 1] in {k, Plural(k)} then Some(ts[|ts| - 1])
    else LastMatch(ts[..|ts| - 1], k)
  }

  lemma PluralInjective(a: string, b: string)
    ensures Plural(a) == Plural(b) ==> a == b
  {
    assert Plural(a)[..|a|] == a && Plural(b)[..|b|] == b;
  }

  /** In every reachable state a name stands for itself or its plural, whichever was registered last. */
  lemma {:induction false} RunIsLastMatch(ts: seq<string>, k: string)
    ensures LastMatch(ts, k).Some? <==> k in Run(ts)
    ensures k in Run(ts) ==> Run(ts)[k] == LastMatch(ts, k).value && Run(ts)[k] in {k, Plural(k)} && Run(ts)[k] in ts
  {
    if ts != [] {
      var t := ts[|ts| - 1];
      RunIsLastMatch(ts[..|ts| - 1], k);
      if HasPlural(t) {
        PluralInjective(Singular(t), k);
      }
      assert t == Plural(k) ==> HasPlural(t);
    }
  }

  /** Every name found was registered. A name found only through its plural is two letters short of it. */
  lemma {:induction false} FindSound(ts: seq<string>, k: string)
    ensures Find(Run(ts), k).Some? ==> Find(Run(ts), k).value in ts
    ensures k !in Run(ts) && Find(Run(ts), k).Some? ==> Find(Run(ts), k).value == Plural(Plural(k))
  {
    RunIsLastMatch(ts, k);
    RunIsLastMatch(ts, Plural(k));
    if k !in Run(ts) && Plural(k) in Run(ts) && Run(ts)[Plural(k)] == Plural(k) {
      MemberMatches(ts, k, Plural(k));
    }
  }

  lemma {:induction false} MemberMatches(ts: seq<string>, k: string, t: string)
    requires t in ts && t in {k, Plural(k)}
    ensures LastMatch(ts, k).Some?
  {
    if ts[|ts| - 1] !in {k, Plural(k)} {
      assert t in ts[..|ts| - 1];
      MemberMatches(ts[..|ts| - 1], k, t);
    }
  }

  /** Lookup over every history: the last registration of the name or its plural, and without one
      that of the plural or the plural's plural. */
  lemma FindExact(ts: seq<string>, k: string)
    ensures Find(Run(ts), k) == if LastMatch(ts, k).Some? then LastMatch(ts, k) else LastMatch(ts, k + "s")
  {
    RunIsLastMatch(ts, k);
    RunIsLastMatch(ts, k + "s");
  }

  /** Every registered name is found, and so is its singular. */
  lemma {:induction false} FindComplete(ts: seq<string>, t: string)
    requires t in ts
    ensures Find(Run(ts), t).Some? && (HasPlural(t) ==> Find(Run(ts), Singular(t)).Some?)
  {
    MemberMatches(ts, t, t);
    RunIsLastMatch(ts, t);
    if HasPlural(t) {
      MemberMatches(ts, Singular(t), t);
      RunIsLastMatch(ts, Singular(t));
    }
  }

  ghost predicate FindIdempotent(m: map<string, string>) {
    forall k :: Find(m, k).Some? ==> Find(m, Find(m, k).value) == Find(m, k)
  }

  /** A name whose last match is its plural, although its singular still stands for it. */
  ghost predicate Stacked(ts: seq<string>, v: string) {
    HasPlural(v) && LastMatch(ts, Singular(v)) == Some(v) && LastMatch(ts, v) == Some(Plural(v))
  }

  /** Looking up a found name finds it again, exactly when no name is stacked. */
  lemma IdempotentExact(ts: seq<string>)
    ensures FindIdempotent(Run(ts)) <==> forall v :: !Stacked(ts, v)
  {
    var m := Run(ts);
    if v :| Stacked(ts, v) {
      RunIsLastMatch(ts, Singular(v));
      RunIsLastMatch(ts, v);
      assert Find(m, Singular(v)) == Some(v) && Find(m, v) == Some(Plural(v));
      assert |Plural(v)| > |v|;
    }
    if forall v :: !Stacked(ts, v) {
      forall k | Find(m, k).Some? ensures Find(m, Find(m, k).value) == Find(m, k) {
        UnstackedFixed(ts, if k in m then k else Plural(k));
      }
    }
  }

  lemma UnstackedFixed(ts: seq<string>, k: string)
    requires k in Run(ts) && !Stacked(ts, Run(ts)[k])
    ensures Find(Run(ts), Run(ts)[k]) == Some(Run(ts)[k])
  {
    var v := Run(ts)[k];
    RunIsLastMatch(ts, k);
    MemberMatches(ts, v, v);
    RunIsLastMatch(ts, v);
    if v == Plural(k) {
      PluralInjective(Singular(v), k);
    }
  }

  /** No two registered names differ by one final `s`. */
  ghost predicate NoPairs(ts: seq<string>) {
    forall t | t in ts :: Plural(t) !in ts
  }

  lemma {:induction false} LastMatchMember(ts: seq<string>, k: string)
    ensures LastMatch(ts, k).Some? ==> LastMatch(ts, k).value in ts && LastMatch(ts, k).value in {k, Plural(k)}
  {
    if ts != [] {
      LastMatchMember(ts[..|ts| - 1], k);
    }
  }

  /** Without such pairs only the set of registered names matters, and lookups are idempotent. */
  lemma OrderIndependent(ts: seq<string>, us: seq<string>)
    requires NoPairs(ts) && forall t :: t in ts <==> t in us
    ensures Run(ts) == Run(us) && FindIdempotent(Run(ts))
  {
    forall k ensures LastMatch(ts, k) == LastMatch(us, k) {
      LastMatchMember(ts, k);
      LastMatchMember(us, k);
      if LastMatch(ts, k).Some? { MemberMatches(us, k, LastMatch(ts, k).value); }
      if LastMatch(us, k).Some? { MemberMatches(ts, k, LastMatch(us, k).value); }
    }
    forall k ensures k in Run(ts) <==> k in Run(us)
      ensures k in Run(ts) ==> Run(ts)[k] == Run(us)[k]
    {
      RunIsLastMatch(ts, k);
      RunIsLastMatch(us, k);
    }
    assert Run(ts).Keys == Run(us).Keys;
    forall v ensures !Stacked(ts, v) {
      LastMatchMember(ts, v);
      if HasPlural(v) { LastMatchMember(ts, Singular(v)); }
    }
    IdempotentExact(ts);
  }

  /** With a pair, the order of the two registrations shows. */
  lemma PairShowsOrder(t: string)
    ensures Find(Run([t, Plural(t)]), t) == Some(Plural(t))
    ensures Find(Run([Plural(t), t]), t) == Some(t) != Some(Plural(t))
  {
    var p := Plural(t);
    assert |p| > |t|;
    RunIsLastMatch([t, p], t);
    RunIsLastMatch([p, t], t);
  }
}
