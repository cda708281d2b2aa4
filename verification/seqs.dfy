/** Generic sequence vocabulary: duplicate-freedom, keep-first
    de-duplication (pandas `drop_duplicates()`), order-preserving filter
    and element-wise map. */
module Seqs {

  /** No element occurs twice. */
  predicate NoDup<T(==)>(s: seq<T>) {
    forall i, j :: 0 <= i < j < |s| ==> s[i] != s[j]
  }

  /** Concatenating two duplicate-free sequences with no element in common
      gives a duplicate-free sequence. */
  lemma NoDupAppend<T>(a: seq<T>, b: seq<T>)
    requires NoDup(a) && NoDup(b)
    requires forall x :: x in a ==> x !in b
    ensures NoDup(a + b)
  {
    forall i, j | 0 <= i < j < |a + b|
      ensures (a + b)[i] != (a + b)[j]
    {
      if j < |a| {
        assert (a + b)[i] == a[i] && (a + b)[j] == a[j];
      } else if i < |a| {
        assert (a + b)[i] == a[i] && a[i] in a;
        assert (a + b)[j] == b[j - |a|] && b[j - |a|] in b;
      } else {
        assert (a + b)[i] == b[i - |a|] && (a + b)[j] == b[j - |a|];
      }
    }
  }

  /** Index of the first occurrence of `x` in `s`. */
  function FirstIndex<T(==)>(s: seq<T>, x: T): (i: nat)
    requires x in s
    ensures i < |s| && s[i] == x && x !in s[..i]
  {
    if s[0] == x then 0
    else
      var k := FirstIndex(s[1..], x);
      assert s[..k + 1] == [s[0]] + s[1..][..k];
      k + 1
  }

  /** An index holding `x` with no earlier `x` is the first index. */
  lemma FirstIndexUnique<T>(s: seq<T>, x: T, i: nat)
    requires i < |s| && s[i] == x && x !in s[..i]
    ensures FirstIndex(s, x) == i
  {
    var k := FirstIndex(s, x);
    assert forall j :: 0 <= j < i ==> s[j] == s[..i][j];
    assert forall j :: 0 <= j < k ==> s[j] == s[..k][j];
  }

  /** First occurrences inside a prefix are first occurrences in the whole. */
  lemma FirstIndexOfPrefix<T>(s: seq<T>, n: nat, x: T)
    requires n <= |s| && x in s[..n]
    ensures FirstIndex(s, x) == FirstIndex(s[..n], x)
  {
    var k := FirstIndex(s[..n], x);
    assert s[..n][..k] == s[..k];
    FirstIndexUnique(s, x, k);
  }

  /** Keep-first de-duplication, as pandas' `drop_duplicates()` with its
      default `keep='first'`: every value stays once, at the position of its
      first occurrence. The three ensures together determine the result. */
  function Distinct<T(==,!new)>(s: seq<T>): (r: seq<T>)
    ensures NoDup(r)
    ensures forall x :: x in r <==> x in s
    ensures forall i, j :: 0 <= i < j < |r| ==> FirstIndex(s, r[i]) < FirstIndex(s, r[j])
    decreases |s|
  {
    if |s| == 0 then []
    else
      var p := s[..|s| - 1];
      var x := s[|s| - 1];
      var d := Distinct(p);
      assert forall y :: y in d ==> FirstIndex(s, y) == FirstIndex(p, y) by {
        forall y | y in d {
          FirstIndexOfPrefix(s, |s| - 1, y);
        }
      }
      if x in p then d
      else
        assert FirstIndex(s, x) == |s| - 1 by {
          FirstIndexUnique(s, x, |s| - 1);
        }
        d + [x]
  }

  /** A sequence without duplicates is its own de-duplication. */
  lemma {:induction false} DistinctOfNoDup<T(!new)>(s: seq<T>)
    requires NoDup(s)
    ensures Distinct(s) == s
    decreases |s|
  {
    if |s| != 0 {
      var p := s[..|s| - 1];
      DistinctOfNoDup(p);
      assert s[|s| - 1] !in p;
      assert p + [s[|s| - 1]] == s;
    }
  }

  /** Element-wise map. */
  function Map<A, B>(f: A -> B, s: seq<A>): (r: seq<B>)
    ensures |r| == |s|
    ensures forall i :: 0 <= i < |s| ==> r[i] == f(s[i])
  {
    seq(|s|, i requires 0 <= i < |s| => f(s[i]))
  }

  /** The members of a mapped sequence are the images of the members. */
  lemma MapMembers<A, B>(f: A -> B, s: seq<A>)
    ensures forall y :: y in Map(f, s) <==> exists x :: x in s && y == f(x)
  {
    var m := Map(f, s);
    forall y
      ensures y in m <==> exists x :: x in s && y == f(x)
    {
      if y in m {
        var i :| 0 <= i < |m| && m[i] == y;
        assert s[i] in s;
      }
      if exists x :: x in s && y == f(x) {
        var x :| x in s && y == f(x);
        var i :| 0 <= i < |s| && s[i] == x;
        assert m[i] == y;
      }
    }
  }

  /** An injective map keeps a sequence duplicate-free. */
  lemma MapNoDup<A, B>(f: A -> B, s: seq<A>)
    requires NoDup(s)
    requires forall x, y :: x in s && y in s && f(x) == f(y) ==> x == y
    ensures NoDup(Map(f, s))
  {
    var m := Map(f, s);
    forall i, j | 0 <= i < j < |m|
      ensures m[i] != m[j]
    {
      assert s[i] in s && s[j] in s;
    }
  }

  /** Mapping commutes with taking a prefix. */
  lemma MapPrefix<A, B>(f: A -> B, s: seq<A>, n: nat)
    requires n <= |s|
    ensures Map(f, s)[..n] == Map(f, s[..n])
  {
  }

  /** Mapping an injective function commutes with keep-first
      de-duplication. */
  lemma {:induction false} DistinctMap<A(!new), B(!new)>(f: A -> B, s: seq<A>)
    requires forall x, y :: x in s && y in s && f(x) == f(y) ==> x == y
    ensures Distinct(Map(f, s)) == Map(f, Distinct(s))
    decreases |s|
  {
    if |s| != 0 {
      var p := s[..|s| - 1];
      var x := s[|s| - 1];
      MapPrefix(f, s, |s| - 1);
      assert Map(f, s)[..|s| - 1] == Map(f, p);
      assert Map(f, s)[|s| - 1] == f(x);
      DistinctMap(f, p);
      if x in p {
        assert f(x) in Map(f, p);
      } else {
        assert f(x) !in Map(f, p);
        assert Map(f, Distinct(p) + [x]) == Map(f, Distinct(p)) + [f(x)];
      }
    }
  }

  /** The elements of `s` satisfying `p`, in their original order. */
  function Filter<T(!new)>(p: T -> bool, s: seq<T>): (r: seq<T>)
    ensures forall x :: x in r <==> x in s && p(x)
    ensures |r| <= |s|
    decreases |s|
  {
    if |s| == 0 then []
    else
      var rest := Filter(p, s[..|s| - 1]);
      if p(s[|s| - 1]) then rest + [s[|s| - 1]] else rest
  }

  /** Filtering a duplicate-free sequence leaves it duplicate-free. */
  lemma {:induction false} FilterNoDup<T(!new)>(p: T -> bool, s: seq<T>)
    requires NoDup(s)
    ensures NoDup(Filter(p, s))
    decreases |s|
  {
    if |s| != 0 {
      var q := s[..|s| - 1];
      FilterNoDup(p, q);
      assert s[|s| - 1] !in q;
    }
  }

  /** Concatenation of a sequence of sequences. */
  function Flatten<T(!new)>(ss: seq<seq<T>>): (r: seq<T>)
    ensures forall x :: x in r <==> exists i :: 0 <= i < |ss| && x in ss[i]
    decreases |ss|
  {
    if |ss| == 0 then []
    else
      var rest := Flatten(ss[1..]);
      assert forall x :: x in rest <==> exists i :: 1 <= i < |ss| && x in ss[i] by {
        forall x
          ensures x in rest <==> exists i :: 1 <= i < |ss| && x in ss[i]
        {
          if x in rest {
            var k :| 0 <= k < |ss[1..]| && x in ss[1..][k];
            assert x in ss[k + 1];
          }
          if exists i :: 1 <= i < |ss| && x in ss[i] {
            var k :| 1 <= k < |ss| && x in ss[k];
            assert x in ss[1..][k - 1];
          }
        }
      }
      ss[0] + rest
  }
}
