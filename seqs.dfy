/** Sequence helpers shared by the model: PHP's `array_unique` and occurrence counts. */
module Seqs {

  /** No element occurs twice. */
  predicate Distinct<T(==)>(s: seq<T>)
  {
    forall i, j :: 0 <= i < j < |s| ==> s[i] != s[j]
  }

  /** How many times x occurs in s. */
  function Count<T(==)>(s: seq<T>, x: T): (n: nat)
    ensures n <= |s|
    ensures n == 0 <==> x !in s
  {
    if s == [] then 0 else Count(s[..|s| - 1], x) + (if s[|s| - 1] == x then 1 else 0)
  }

  /**
   * PHP's `array_unique` on a list: the first occurrence of each value is kept,
   * in the original order.
   */
  function Unique<T(==,!new)>(s: seq<T>): (r: seq<T>)
    ensures Distinct(r)
    ensures forall x :: x in r <==> x in s
    ensures |r| <= |s|
  {
    if s == [] then []
    else
      var r := Unique(s[..|s| - 1]);
      if s[|s| - 1] in r then r else r + [s[|s| - 1]]
  }

  /** A list without repetitions is left as it is by `Unique`. */
  lemma {:induction false} UniqueOfDistinct<T(!new)>(s: seq<T>)
    requires Distinct(s)
    ensures Unique(s) == s
  {
    if s != [] {
      var p := s[..|s| - 1];
      assert Distinct(p);
      UniqueOfDistinct(p);
      assert s[|s| - 1] !in p;
      assert p + [s[|s| - 1]] == s;
    }
  }

  /** Counting over a concatenation. */
  lemma {:induction false} CountAppend<T>(s: seq<T>, t: seq<T>, x: T)
    ensures Count(s + t, x) == Count(s, x) + Count(t, x)
    decreases |t|
  {
    if t != [] {
      var t' := t[..|t| - 1];
      assert (s + t)[..|s + t| - 1] == s + t';
      CountAppend(s, t', x);
    } else {
      assert s + t == s;
    }
  }

  /** Extending a prefix by one element adds one occurrence of that element and none of any other. */
  lemma CountStep<T>(s: seq<T>, n: nat, x: T)
    requires n < |s|
    ensures Count(s[..n + 1], x) == Count(s[..n], x) + (if s[n] == x then 1 else 0)
  {
    assert s[..n + 1][..n] == s[..n];
  }

  /** Extending a prefix of a list without repetitions by one element adds a new member. */
  lemma DistinctStep<T>(s: seq<T>, n: nat)
    requires n < |s| && Distinct(s)
    ensures s[n] !in s[..n]
    ensures s[..n + 1] == s[..n] + [s[n]]
  {
    assert s[..n + 1] == s[..n] + [s[n]];
  }

  /** A list without repetitions has as many elements as it has members. */
  lemma {:induction false} DistinctCardinality<T>(s: seq<T>)
    requires Distinct(s)
    ensures |set x | x in s| == |s|
  {
    if s != [] {
      var p, last := s[..|s| - 1], s[|s| - 1];
      assert Distinct(p);
      DistinctCardinality(p);
      assert last !in p;
      assert (set x | x in s) == (set x | x in p) + {last};
    }
  }

  /** Storing under a new key adds exactly that key. */
  lemma InsertKeys<K, V>(m: map<K, V>, keys: set<K>, k: K, v: V)
    requires m.Keys == keys
    ensures m[k := v].Keys == keys + {k}
    ensures k !in keys ==> |m[k := v]| == |keys| + 1
  {
  }

  /** Storing twice under one key keeps the second value. */
  lemma OverwriteTwice<K, V>(m: map<K, V>, k: K, a: V, b: V)
    ensures m[k := a][k := b] == m[k := b]
  {
  }
}
