/** Options, lookups, the last step of a history, and counting in sets. */
module Basics {

  datatype Option<+T> = None | Some(value: T)

  ghost function At<K, V>(m: map<K, V>, k: K): Option<V> {
    if k in m then Some(m[k]) else None
  }

  /** What a map of sets holds under a key. */
  ghost function Under<K, V>(m: map<K, set<V>>, k: K): set<V> {
    if k in m then m[k] else {}
  }

  ghost function Before<T>(ops: seq<T>): seq<T>
    requires ops != []
  {
    ops[..|ops| - 1]
  }

  ghost function Last<T>(ops: seq<T>): T
    requires ops != []
  {
    ops[|ops| - 1]
  }

  ghost predicate NoRepeats<T>(s: seq<T>) {
    forall i, j | 0 <= i < j < |s| :: s[i] != s[j]
  }

  ghost function Members<P>(s: seq<P>): set<P> {
    set p | p in s
  }

  lemma {:induction false} SubsetCount<T>(a: set<T>, b: set<T>)
    requires a <= b
    ensures |a| <= |b|
  {
    if a != {} {
      var x :| x in a;
      SubsetCount(a - {x}, b - {x});
    }
  }

  lemma SubsetOfEqualSize<T>(a: set<T>, b: set<T>)
    requires a <= b && |a| == |b|
    ensures a == b
  {
    assert b == a + (b - a);
  }

  lemma Pick<T>(s: set<T>) returns (x: T)
    requires 1 <= |s|
    ensures x in s
  {
    x :| x in s;
  }

  /** Where the last element of a sequence is in a permutation of it. */
  lemma PositionOfLast<T>(s: seq<T>, t: seq<T>) returns (k: nat)
    requires s != [] && multiset(s) == multiset(t)
    ensures k < |t| && t[k] == Last(s)
    ensures multiset(Before(s)) == multiset(t[..k] + t[k + 1..])
  {
    var x := Last(s);
    assert s == Before(s) + [x];
    assert x in multiset(t);
    k :| 0 <= k < |t| && t[k] == x;
    WithoutPosition(t, k);
  }

  lemma WithoutPosition<T>(t: seq<T>, k: nat)
    requires k < |t|
    ensures multiset(t[..k] + t[k + 1..]) == multiset(t) - multiset{t[k]}
  {
    assert t == t[..k] + [t[k]] + t[k + 1..];
  }

  lemma TakeOneMore<T>(a: seq<T>, s: seq<T>, n: nat)
    requires n < |s|
    ensures a + s[..n + 1] == a + s[..n] + [s[n]]
    ensures s[..n + 1] == s[..n] + [s[n]]
  {
  }

  lemma Reassociate<T>(a: seq<T>, b: seq<T>, c: seq<T>)
    ensures a + (b + c) == a + b + c
  {
  }

  lemma BeforeOfConcat<T>(a: seq<T>, b: seq<T>)
    requires b != []
    ensures Before(a + b) == a + Before(b)
  {
  }

  /** A sequence is what comes before its last element, and that. */
  lemma Rejoin<T>(s: seq<T>)
    requires s != []
    ensures s == Before(s) + [Last(s)]
    ensures Last(s) in s
    ensures forall x | x in Before(s) :: x in s
    ensures forall x | x in s :: x in Before(s) || x == Last(s)
  {
  }

  lemma MembersEmpty<T>(s: seq<T>)
    ensures Members(s) == {} <==> s == []
  {
    if s != [] {
      assert s[0] in Members(s);
    }
  }

  lemma MembersRejoin<T>(s: seq<T>)
    requires s != []
    ensures Members(s) == Members(Before(s)) + {Last(s)}
    ensures NoRepeats(s) ==> NoRepeats(Before(s)) && Last(s) !in Members(Before(s))
  {
    Rejoin(s);
  }
}
