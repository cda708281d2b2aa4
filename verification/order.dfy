/** The ordering used by the store's `ORDER BY` clauses. SQLite compares
    TEXT under its default BINARY collation, i.e. byte-wise on the UTF-8
    encoding, which orders strings exactly as comparing their code points
    left to right; a proper prefix sorts first. `StrLe` is that order on
    strings and `KeyLe` extends it to sort keys made of several columns
    (`ORDER BY FieldName, Plaintext`). `SortBy` is a stable insertion sort
    over such keys. */
module Order {

  import opened Seqs

  /** Lexicographic order on strings, by code point. */
  predicate StrLe(a: string, b: string)
    decreases |a|
  {
    |a| == 0 || (|b| != 0 && (a[0] < b[0] || (a[0] == b[0] && StrLe(a[1..], b[1..]))))
  }

  lemma {:induction false} StrLeRefl(a: string)
    ensures StrLe(a, a)
    decreases |a|
  {
    if |a| != 0 {
      StrLeRefl(a[1..]);
    }
  }

  lemma {:induction false} StrLeTotal(a: string, b: string)
    ensures StrLe(a, b) || StrLe(b, a)
    decreases |a|
  {
    if |a| != 0 && |b| != 0 && a[0] == b[0] {
      StrLeTotal(a[1..], b[1..]);
    }
  }

  lemma {:induction false} StrLeAntisym(a: string, b: string)
    requires StrLe(a, b) && StrLe(b, a)
    ensures a == b
    decreases |a|
  {
    if |a| != 0 {
      StrLeAntisym(a[1..], b[1..]);
      assert a == [a[0]] + a[1..] && b == [b[0]] + b[1..];
    }
  }

  lemma {:induction false} StrLeTrans(a: string, b: string, c: string)
    requires StrLe(a, b) && StrLe(b, c)
    ensures StrLe(a, c)
    decreases |a|
  {
    if |a| != 0 && a[0] == b[0] && b[0] == c[0] {
      StrLeTrans(a[1..], b[1..], c[1..]);
    }
  }

  /** Lexicographic order on sort keys (sequences of column values). */
  predicate KeyLe(a: seq<string>, b: seq<string>)
    decreases |a|
  {
    |a| == 0 || (|b| != 0 && ((StrLe(a[0], b[0]) && a[0] != b[0]) || (a[0] == b[0] && KeyLe(a[1..], b[1..]))))
  }

  lemma {:induction false} KeyLeRefl(a: seq<string>)
    ensures KeyLe(a, a)
    decreases |a|
  {
    if |a| != 0 {
      KeyLeRefl(a[1..]);
    }
  }

  lemma {:induction false} KeyLeTotal(a: seq<string>, b: seq<string>)
    ensures KeyLe(a, b) || KeyLe(b, a)
    decreases |a|
  {
    if |a| != 0 && |b| != 0 {
      StrLeTotal(a[0], b[0]);
      if a[0] == b[0] {
        KeyLeTotal(a[1..], b[1..]);
      }
    }
  }

  lemma {:induction false} KeyLeAntisym(a: seq<string>, b: seq<string>)
    requires KeyLe(a, b) && KeyLe(b, a)
    ensures a == b
    decreases |a|
  {
    if |a| != 0 {
      if a[0] != b[0] {
        StrLeAntisym(a[0], b[0]);
      }
      KeyLeAntisym(a[1..], b[1..]);
      assert a == [a[0]] + a[1..] && b == [b[0]] + b[1..];
    }
  }

  lemma {:induction false} KeyLeTrans(a: seq<string>, b: seq<string>, c: seq<string>)
    requires KeyLe(a, b) && KeyLe(b, c)
    ensures KeyLe(a, c)
    decreases |a|
  {
    if |a| != 0 {
      if a[0] == b[0] && b[0] == c[0] {
        KeyLeTrans(a[1..], b[1..], c[1..]);
      } else if a[0] != b[0] && b[0] != c[0] {
        StrLeTrans(a[0], b[0], c[0]);
        if a[0] == c[0] {
          StrLeAntisym(a[0], b[0]);
        }
      }
    }
  }

  /** `s` is in ascending key order. */
  predicate Sorted<T>(s: seq<T>, key: T -> seq<string>) {
    forall i, j :: 0 <= i < j < |s| ==> KeyLe(key(s[i]), key(s[j]))
  }

  /** `s` is in strictly ascending key order: sorted, and no key repeats. */
  predicate StrictlySorted<T>(s: seq<T>, key: T -> seq<string>) {
    forall i, j :: 0 <= i < j < |s| ==> KeyLe(key(s[i]), key(s[j])) && key(s[i]) != key(s[j])
  }

  /** Inserts `x` before the first element whose key is not below its own. */
  function Insert<T>(x: T, s: seq<T>, key: T -> seq<string>): (r: seq<T>)
    requires Sorted(s, key)
    ensures Sorted(r, key)
    ensures multiset(r) == multiset(s) + multiset{x}
    decreases |s|
  {
    if |s| == 0 then [x]
    else if KeyLe(key(x), key(s[0])) then
      assert Sorted([x] + s, key) by {
        forall j | 0 < j < |s| {
          KeyLeTrans(key(x), key(s[0]), key(s[j]));
        }
      }
      [x] + s
    else
      var t := Insert(x, s[1..], key);
      assert multiset(s) == multiset{s[0]} + multiset(s[1..]) by {
        assert s == [s[0]] + s[1..];
      }
      assert Sorted([s[0]] + t, key) by {
        KeyLeTotal(key(x), key(s[0]));
        forall j | 0 <= j < |t|
          ensures KeyLe(key(s[0]), key(t[j]))
        {
          assert t[j] in multiset(t);
          if t[j] != x {
            assert t[j] in multiset(s[1..]);
            var k :| 0 <= k < |s[1..]| && s[1..][k] == t[j];
            assert s[k + 1] == t[j];
          }
        }
      }
      [s[0]] + t
  }

  /** Stable ascending sort of `s` by `key`. */
  function SortBy<T>(s: seq<T>, key: T -> seq<string>): (r: seq<T>)
    ensures Sorted(r, key)
    ensures multiset(r) == multiset(s)
    decreases |s|
  {
    if |s| == 0 then []
    else
      assert s == [s[0]] + s[1..];
      Insert(s[0], SortBy(s[1..], key), key)
  }

  /** Keep-first de-duplication of a sorted sequence is still sorted. */
  lemma DistinctSorted<T(!new)>(s: seq<T>, key: T -> seq<string>)
    requires Sorted(s, key)
    ensures Sorted(Distinct(s), key)
  {
    var r := Distinct(s);
    forall i, j | 0 <= i < j < |r|
      ensures KeyLe(key(r[i]), key(r[j]))
    {
      var a, b := FirstIndex(s, r[i]), FirstIndex(s, r[j]);
      assert s[a] == r[i] && s[b] == r[j];
    }
  }

  /** Two strictly sorted sequences with the same elements are equal: the
      order alone fixes the arrangement. */
  lemma {:induction false} StrictlySortedUnique<T>(a: seq<T>, b: seq<T>, key: T -> seq<string>)
    requires StrictlySorted(a, key) && StrictlySorted(b, key)
    requires forall x :: x in a <==> x in b
    ensures a == b
    decreases |a|
  {
    if |a| != 0 {
      assert a[0] in b;
    }
    if |b| != 0 {
      assert b[0] in a;
    }
    if |a| != 0 && |b| != 0 {
      var ka :| 0 <= ka < |b| && b[ka] == a[0];
      var kb :| 0 <= kb < |a| && a[kb] == b[0];
      if ka != 0 && kb != 0 {
        KeyLeAntisym(key(a[0]), key(b[0]));
      }
      assert a[0] == b[0];
      forall x
        ensures x in a[1..] <==> x in b[1..]
      {
        if x in a[1..] {
          var i :| 0 <= i < |a[1..]| && a[1..][i] == x;
          assert a[i + 1] == x;
          assert x in a;
          var j :| 0 <= j < |b| && b[j] == x;
          assert j != 0;
          assert b[1..][j - 1] == x;
        }
        if x in b[1..] {
          var i :| 0 <= i < |b[1..]| && b[1..][i] == x;
          assert b[i + 1] == x;
          assert x in b;
          var j :| 0 <= j < |a| && a[j] == x;
          assert j != 0;
          assert a[1..][j - 1] == x;
        }
      }
      StrictlySortedUnique(a[1..], b[1..], key);
      assert a == [a[0]] + a[1..] && b == [b[0]] + b[1..];
    }
  }
}
