/**
 * Text ordering used by the ORDER BY clauses of the store: strings compare
 * character by character (SQLite's BINARY collation), and rows with equal
 * names are put in id order so that every listing is deterministic.
 */
module Ordering {

  /** Lexicographic order on strings by character code. */
  predicate StrLe(a: string, b: string)
    decreases |a|
  {
    |a| == 0 || (|b| > 0 && (a[0] < b[0] || (a[0] == b[0] && StrLe(a[1..], b[1..]))))
  }

  predicate StrLt(a: string, b: string) {
    StrLe(a, b) && a != b
  }

  lemma {:induction false} StrLeReflexive(a: string)
    ensures StrLe(a, a)
    decreases |a|
  {
    if |a| > 0 {
      StrLeReflexive(a[1..]);
    }
  }

  lemma {:induction false} StrLeAntisymmetric(a: string, b: string)
    requires StrLe(a, b) && StrLe(b, a)
    ensures a == b
    decreases |a|
  {
    if |a| > 0 {
      StrLeAntisymmetric(a[1..], b[1..]);
      assert a == [a[0]] + a[1..] && b == [b[0]] + b[1..];
    }
  }

  lemma {:induction false} StrLeTransitive(a: string, b: string, c: string)
    requires StrLe(a, b) && StrLe(b, c)
    ensures StrLe(a, c)
    decreases |a|
  {
    if |a| > 0 && a[0] == b[0] && b[0] == c[0] {
      StrLeTransitive(a[1..], b[1..], c[1..]);
    }
  }

  lemma {:induction false} StrLeTotal(a: string, b: string)
    ensures StrLe(a, b) || StrLe(b, a)
    decreases |a|
  {
    if |a| > 0 && |b| > 0 && a[0] == b[0] {
      StrLeTotal(a[1..], b[1..]);
    }
  }

  /** Row (name1, id1) sorts no later than row (name2, id2): by name, then by id. */
  predicate Before(name1: string, id1: string, name2: string, id2: string) {
    StrLt(name1, name2) || (name1 == name2 && StrLe(id1, id2))
  }

  lemma BeforeAntisymmetric()
    ensures forall n1, k1, n2, k2 :: Before(n1, k1, n2, k2) && Before(n2, k2, n1, k1) ==> k1 == k2
  {
    forall n1, k1, n2, k2 | Before(n1, k1, n2, k2) && Before(n2, k2, n1, k1)
      ensures k1 == k2
    {
      if n1 == n2 {
        StrLeAntisymmetric(k1, k2);
      } else {
        StrLeAntisymmetric(n1, n2);
      }
    }
  }

  lemma BeforeTotal(n1: string, k1: string, n2: string, k2: string)
    ensures Before(n1, k1, n2, k2) || Before(n2, k2, n1, k1)
  {
    StrLeTotal(n1, n2);
    StrLeTotal(k1, k2);
  }

  lemma BeforeTransitive(n1: string, k1: string, n2: string, k2: string, n3: string, k3: string)
    requires Before(n1, k1, n2, k2) && Before(n2, k2, n3, k3)
    ensures Before(n1, k1, n3, k3)
  {
    if n1 == n2 && n2 == n3 {
      StrLeTransitive(k1, k2, k3);
    } else if n1 != n2 && n2 != n3 {
      StrLeTransitive(n1, n2, n3);
      if n1 == n3 {
        StrLeAntisymmetric(n1, n2);
      }
    }
  }

  lemma {:induction false} FirstExists(names: map<string, string>)
    requires |names| > 0
    ensures exists k :: IsFirstKey(names, k)
    decreases |names|
  {
    var x :| x in names;
    var rest := names - {x};
    assert rest.Keys == names.Keys - {x};
    StrLeReflexive(x);
    if |rest| == 0 {
      assert names.Keys == {x};
      assert IsFirstKey(names, x);
    } else {
      FirstExists(rest);
      var y :| IsFirstKey(rest, y);
      BeforeTotal(names[x], x, names[y], y);
      if Before(names[x], x, names[y], y) {
        forall j | j in names ensures Before(names[x], x, names[j], j) {
          if j != x {
            assert j in rest && rest[j] == names[j];
            BeforeTransitive(names[x], x, names[y], y, names[j], j);
          }
        }
        assert IsFirstKey(names, x);
      } else {
        forall j | j in names ensures Before(names[y], y, names[j], j) {
          if j != x {
            assert j in rest && rest[j] == names[j];
          }
        }
        assert IsFirstKey(names, y);
      }
    }
  }

  /**
   * The keys of `names` ordered by their names (ties by key): every key
   * exactly once; SortedIdsOrdered proves the order.
   */
  function SortedIds(names: map<string, string>): (r: seq<string>)
    ensures |r| == |names|
    ensures forall k :: k in r <==> k in names
    ensures forall i, j :: 0 <= i < j < |r| ==> r[i] != r[j]
    decreases |names|
  {
    if |names| == 0 then []
    else
      FirstExists(names);
      BeforeAntisymmetric();
      var k :| IsFirstKey(names, k);
      var rest := names - {k};
      assert rest.Keys == names.Keys - {k};
      [k] + SortedIds(rest)
  }

  /** `k` is the key of `names` whose (name, key) pair sorts first. */
  predicate IsFirstKey(names: map<string, string>, k: string) {
    k in names && forall j :: j in names ==> Before(names[k], k, names[j], j)
  }

  /** The first id sorts first, and the rest is the listing of the remaining keys. */
  lemma SortedIdsHead(names: map<string, string>)
    requires |names| > 0
    ensures IsFirstKey(names, SortedIds(names)[0])
    ensures SortedIds(names)[1..] == SortedIds(names - {SortedIds(names)[0]})
  {
    FirstExists(names);
    BeforeAntisymmetric();
  }

  lemma {:induction false} SortedIdsOrdered(names: map<string, string>)
    ensures forall i, j :: 0 <= i < j < |SortedIds(names)| ==>
      Before(names[SortedIds(names)[i]], SortedIds(names)[i], names[SortedIds(names)[j]], SortedIds(names)[j])
    decreases |names|
  {
    if |names| > 0 {
      var r := SortedIds(names);
      SortedIdsHead(names);
      var rest := names - {r[0]};
      var t := SortedIds(rest);
      assert t == r[1..];
      SortedIdsOrdered(rest);
      forall i, j | 0 <= i < j < |r|
        ensures Before(names[r[i]], r[i], names[r[j]], r[j])
      {
        var y := t[j - 1];
        assert y in t;
        if i > 0 {
          var x := t[i - 1];
          assert x in t;
          assert Before(rest[x], x, rest[y], y);
        }
      }
    }
  }

  /** Sorted by name, the relation every ORDER BY name listing satisfies. */
  lemma SortedIdsByName(names: map<string, string>)
    ensures forall i, j :: 0 <= i < j < |SortedIds(names)| ==>
      StrLe(names[SortedIds(names)[i]], names[SortedIds(names)[j]])
  {
    var r := SortedIds(names);
    SortedIdsOrdered(names);
    forall i, j | 0 <= i < j < |r| ensures StrLe(names[r[i]], names[r[j]]) {
      assert Before(names[r[i]], r[i], names[r[j]], r[j]);
      StrLeReflexive(names[r[i]]);
    }
  }
}
