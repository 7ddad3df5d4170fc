/**
 Where the text of an order by id can stand in a statement (callback_query.go:159-160). All of
 it is about strings.
 */
module OrderClause {
  import opened Strings
  import opened ConjunctText

  const ORDER := "ORDER BY `"

  /** `ORDER BY` and quoted names without blanks. */
  predicate IsOrderKey(k: string) {
    |k| > 12 && k[..10] == ORDER && k[|k| - 1] == '`' && ' ' !in k[9..]
  }

  lemma OrderKeyChars(k: string)
    requires IsOrderKey(k)
    ensures k[0] == 'O' && k[3] == 'E' && k[5] == ' ' && k[6] == 'B' && k[8] == ' ' && k[9] == '`'
    ensures forall j | 0 <= j < 5 :: k[j] != '`'
    ensures forall j | 0 <= j < |k| && k[j] == ' ' :: j == 5 || j == 8
  {
    assert forall j | 0 <= j < 10 :: k[j] == ORDER[j];
    assert forall j | 9 <= j < |k| :: k[j] == k[9..][j - 9] && k[j] in k[9..];
  }

  /** Behind a text and its blank, a key stands in the text, where the order clause begins, or
      behind the whole clause, whatever follows. */
  lemma OrderedPlace(f: string, o: string, r: string, k: string, i: int)
    requires IsOrderKey(o) && IsOrderKey(k) && At(f + (" " + (o + r)), k, i)
    ensures At(f, k, i) || i == |f| + 1 || (i >= |f| + 1 + |o| && At(r, k, i - |f| - 1 - |o|))
  {
    var s, p := f + (" " + (o + r)), |f| + 1;
    AtChars(s, k, i);
    OrderKeyChars(k);
    OrderKeyChars(o);
    assert s[|f|] == ' ' && forall y | p <= y < p + |o| :: s[y] == o[y - p];
    assert s[p] == 'O' && s[p + |o| - 1] == '`' && forall x | 0 <= x < |k| :: k[x] == s[i + x];
    if i + |k| <= |f| {
      AtLeft(f, " " + (o + r), k, i);
    } else if i >= p + |o| {
      assert s == (f + (" " + o)) + r;
      AtRight(f + (" " + o), r, k, i - p - |o|);
    } else if i != p {
      assert false;
    }
  }

  /** One more blank before a clause makes no key. */
  lemma ExtraBlank(h: string, x: string, k: string, i: int)
    requires IsOrderKey(k) && (x == [] || x[0] == ' ') && At(h + (" " + x), k, i)
    ensures At(h, k, i) || (i >= |h| && At(x, k, i - |h| - 1))
  {
    var s := h + (" " + x);
    AtChars(s, k, i);
    OrderKeyChars(k);
    assert s[|h|] == ' ' && (x != [] ==> s[|h| + 1] == ' ');
    if i + |k| <= |h| {
      AtLeft(h, " " + x, k, i);
    } else if i > |h| {
      assert s == (h + " ") + x;
      AtRight(h + " ", x, k, i - |h| - 1);
    } else {
      assert false;
    }
  }
}
