/** The recency list of the LRU cache: keys ordered from most to least
    recently used, without duplicates. */
module Recency {

  /** No key occurs twice. */
  ghost predicate Distinct<K>(s: seq<K>)
  {
    forall i, j :: 0 <= i < j < |s| ==> s[i] != s[j]
  }

  /** The position of a key that occurs in the list. */
  function IndexOf<K(==)>(s: seq<K>, k: K): (i: nat)
    requires k in s
    ensures i < |s| && s[i] == k
    ensures forall j :: 0 <= j < i ==> s[j] != k
  {
    if s[0] == k then 0 else 1 + IndexOf(s[1..], k)
  }

  /** The list with every occurrence of `k` taken out, the others in order. */
  function Without<K(==)>(s: seq<K>, k: K): (r: seq<K>)
    ensures forall x :: x in r ==> x in s && x != k
    ensures forall x :: x in s && x != k ==> x in r
    ensures k !in s ==> r == s
    ensures Distinct(s) ==> Distinct(r)
    ensures Distinct(s) && k in s ==> |r| == |s| - 1
  {
    if s == [] then []
    else if s[0] == k then Without(s[1..], k)
    else
      var t := Without(s[1..], k);
      assert Distinct(s) ==> s[0] !in s[1..] && Distinct(s[1..]);
      assert s[0] !in t && Distinct(t) ==> Distinct([s[0]] + t) by {
        DistinctCons(s[0], t);
      }
      [s[0]] + t
  }

  /** Putting a new key in front of a duplicate-free list keeps it so. */
  lemma DistinctCons<K>(a: K, t: seq<K>)
    ensures a !in t && Distinct(t) ==> Distinct([a] + t)
  {
    if a !in t && Distinct(t) {
      var u := [a] + t;
      forall i, j | 0 <= i < j < |u| ensures u[i] != u[j] {
        assert u[j] == t[j - 1];
        if i > 0 { assert u[i] == t[i - 1]; }
      }
    }
  }

  /** Touching `k`: it moves to the front (or is inserted there), and when
      that makes the list longer than `cap` the tail is cut off. */
  function Promote<K(==)>(s: seq<K>, k: K, cap: nat): (r: seq<K>)
    ensures forall x :: x in r ==> x == k || x in s
    ensures |r| <= cap
    ensures cap > 0 ==> r != [] && r[0] == k
    ensures Distinct(s) ==> Distinct(r)
  {
    var t := [k] + Without(s, k);
    assert Distinct(s) ==> Distinct(t) by {
      DistinctCons(k, Without(s, k));
    }
    if |t| <= cap then t else t[..cap]
  }

  /** Removing a key at a known position splices the list around it. */
  lemma {:induction false} WithoutAt<K>(s: seq<K>, i: nat)
    requires Distinct(s) && i < |s|
    ensures Without(s, s[i]) == s[..i] + s[i + 1..]
  {
    var k := s[i];
    var t := s[1..];
    assert s == [s[0]] + t;
    if i == 0 {
      assert k !in t;
    } else {
      assert t[i - 1] == k;
      DistinctTail(s);
      WithoutAt(t, i - 1);
      SpliceCons(s[0], t, i - 1);
    }
  }

  /** The tail of a duplicate-free list is duplicate-free. */
  lemma DistinctTail<K>(s: seq<K>)
    requires Distinct(s) && s != []
    ensures Distinct(s[1..])
  {
    forall a, b | 0 <= a < b < |s| - 1 ensures s[1..][a] != s[1..][b] {
      assert s[1..][a] == s[a + 1] && s[1..][b] == s[b + 1];
    }
  }

  /** Splicing out position `i` of `t` and then consing `a` is splicing out
      position `i + 1` of `[a] + t`. */
  lemma SpliceCons<K>(a: K, t: seq<K>, i: nat)
    requires i < |t|
    ensures [a] + (t[..i] + t[i + 1..]) == ([a] + t)[..i + 1] + ([a] + t)[i + 2..]
  {
    assert ([a] + t)[..i + 1] == [a] + t[..i];
    assert ([a] + t)[i + 2..] == t[i + 1..];
  }

  /** Promotion is strict least-recently-used replacement: a key that is
      already listed, or a new key while there is room, goes to the front
      and nothing leaves; a new key in a full list goes to the front and
      exactly the last (least recently used) key leaves. That the list
      stays duplicate-free and within `cap` is part of `Promote`'s own
      contract. */
  lemma PromoteIsLru<K>(s: seq<K>, k: K, cap: nat)
    requires Distinct(s) && |s| <= cap
    ensures cap > 0 && (k in s || |s| < cap) ==> Promote(s, k, cap) == [k] + Without(s, k)
    ensures cap > 0 && k !in s && |s| == cap ==>
      Promote(s, k, cap) == [k] + s[..cap - 1] && s[cap - 1] !in Promote(s, k, cap)
  {
    if cap > 0 && k !in s && |s| == cap {
      PromoteMiss(s, k, cap);
      DropLast(s);
    }
  }

  /** Touching a listed key splices it out and puts it in front. */
  lemma PromoteHit<K>(s: seq<K>, i: nat, cap: nat)
    requires Distinct(s) && |s| <= cap && i < |s|
    ensures Promote(s, s[i], cap) == [s[i]] + (s[..i] + s[i + 1..])
  {
    WithoutAt(s, i);
  }

  /** Touching a new key puts it in front, and drops the last key when the
      list is full. */
  lemma PromoteMiss<K>(s: seq<K>, k: K, cap: nat)
    requires |s| <= cap && k !in s && cap > 0
    ensures |s| < cap ==> Promote(s, k, cap) == [k] + s
    ensures |s| == cap ==> Promote(s, k, cap) == [k] + s[..|s| - 1]
  {
  }

  /** Dropping the last key of a duplicate-free list removes exactly that key. */
  lemma DropLast<K>(s: seq<K>)
    requires Distinct(s) && s != []
    ensures forall x :: x in s[..|s| - 1] <==> x in s && x != s[|s| - 1]
  {
    forall x | x in s && x != s[|s| - 1] ensures x in s[..|s| - 1] {
      var j := IndexOf(s, x);
      assert s[..|s| - 1][j] == x;
    }
  }
}
