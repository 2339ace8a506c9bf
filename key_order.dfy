/** The order in which the converters visit the fields of a map. Unless
    serde_json's `preserve_order` feature is on, a `serde_json::Map` is a
    B-tree keyed by `String`, so its fields come out in lexicographic order
    (UTF-8 byte order, which agrees with code point order); the model visits
    the fields of every map in that order. */
module KeyOrder {

  /** `a` sorts before or equal to `b`, comparing characters left to right;
      a proper prefix sorts first. */
  predicate LexLe(a: string, b: string)
    decreases |a|
  {
    |a| == 0 || (|b| > 0 && (a[0] < b[0] || (a[0] == b[0] && LexLe(a[1..], b[1..]))))
  }

  lemma {:induction false} LexLeTotal(a: string, b: string)
    ensures LexLe(a, b) || LexLe(b, a)
    decreases |a|
  {
    if |a| > 0 && |b| > 0 && a[0] == b[0] {
      LexLeTotal(a[1..], b[1..]);
    }
  }

  lemma {:induction false} LexLeAntisymmetric(a: string, b: string)
    requires LexLe(a, b) && LexLe(b, a)
    ensures a == b
    decreases |a|
  {
    if |a| > 0 {
      LexLeAntisymmetric(a[1..], b[1..]);
      assert a == [a[0]] + a[1..] && b == [b[0]] + b[1..];
    }
  }

  lemma {:induction false} LexLeTransitive(a: string, b: string, c: string)
    requires LexLe(a, b) && LexLe(b, c)
    ensures LexLe(a, c)
    decreases |a|
  {
    if |a| > 0 && a[0] == b[0] && b[0] == c[0] {
      LexLeTransitive(a[1..], b[1..], c[1..]);
    }
  }

  /** Every finite non-empty set of keys has a least key. */
  lemma {:induction false} HasLeast(s: set<string>)
    requires s != {}
    ensures exists k :: k in s && forall j :: j in s ==> LexLe(k, j)
    decreases |s|
  {
    var x :| x in s;
    var rest := s - {x};
    if rest == {} {
      assert s == {x};
      assert LexLe(x, x) by { LexLeTotal(x, x); }
    } else {
      HasLeast(rest);
      var m :| m in rest && forall j :: j in rest ==> LexLe(m, j);
      LexLeTotal(m, x);
      if LexLe(m, x) {
        forall j | j in s
          ensures LexLe(m, j)
        {
          if j != x {
            assert j in rest;
          }
        }
        assert m in s;
      } else {
        forall j | j in s
          ensures LexLe(x, j)
        {
          if j == x {
            LexLeTotal(x, x);
          } else {
            assert j in rest;
            LexLeTransitive(x, m, j);
          }
        }
      }
    }
  }

  /** The least key of a non-empty set. */
  function Least(s: set<string>): (k: string)
    requires s != {}
    ensures k in s && forall j :: j in s ==> LexLe(k, j)
  {
    HasLeast(s);
    var k :| k in s && forall j :: j in s ==> LexLe(k, j);
    assert forall k' :: k' in s && (forall j :: j in s ==> LexLe(k', j)) ==> k' == k by {
      forall k' | k' in s && (forall j :: j in s ==> LexLe(k', j)) {
        LexLeAntisymmetric(k, k');
      }
    }
    k
  }

  /** The keys of `s`, each once (see SortedKeysAscending for their
      order). */
  function SortedKeys(s: set<string>): (keys: seq<string>)
    ensures |keys| == |s|
    ensures forall i :: 0 <= i < |keys| ==> keys[i] in s
    ensures forall k :: k in s ==> k in keys
    decreases |s|
  {
    if s == {} then []
    else
      var k := Least(s);
      var rest := SortedKeys(s - {k});
      var keys := [k] + rest;
      assert forall j :: 0 < j < |keys| ==> keys[j] == rest[j - 1];
      keys
  }

  /** Each key sorts strictly before every later one. */
  predicate Ascending(keys: seq<string>) {
    forall i, j :: 0 <= i < j < |keys| ==> LexLe(keys[i], keys[j]) && keys[i] != keys[j]
  }

  /** A key that sorts strictly before every key of an ascending run can be
      put in front of it. */
  lemma AscendingCons(k: string, rest: seq<string>)
    requires Ascending(rest)
    requires forall i :: 0 <= i < |rest| ==> LexLe(k, rest[i]) && k != rest[i]
    ensures Ascending([k] + rest)
  {
    var keys := [k] + rest;
    forall i, j | 0 <= i < j < |keys|
      ensures LexLe(keys[i], keys[j]) && keys[i] != keys[j]
    {
      assert keys[j] == rest[j - 1];
      if i > 0 {
        assert keys[i] == rest[i - 1];
      }
    }
  }

  /** SortedKeys lists the keys in strictly ascending order: the order in
      which a B-tree `serde_json::Map` yields its fields. */
  lemma {:induction false} SortedKeysAscending(s: set<string>)
    ensures Ascending(SortedKeys(s))
    decreases |s|
  {
    if s != {} {
      var k := Least(s);
      var rest := SortedKeys(s - {k});
      SortedKeysAscending(s - {k});
      assert forall i :: 0 <= i < |rest| ==> rest[i] in s - {k};
      AscendingCons(k, rest);
    }
  }
}
