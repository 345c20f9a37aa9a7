/**
  Deletion from an unordered array by moving the last element into the gap.
  The hash buckets, the channel member lists and the invite lists all delete this way.
*/
module Sequences {

  ghost predicate NoDuplicates<T>(s: seq<T>) {
    forall i, j :: 0 <= i < j < |s| ==> s[i] != s[j]
  }

  lemma AppendDistinct<T>(s: seq<T>, x: T)
    requires NoDuplicates(s) && x !in s
    ensures NoDuplicates(s + [x])
  {
  }

  function SwapDelete<T>(s: seq<T>, i: nat): (r: seq<T>)
    requires i < |s|
  {
    s[i := s[|s| - 1]][..|s| - 1]
  }

  // Exactly the element at the deleted position leaves the array.
  lemma SwapDeleteRemovesOne<T>(s: seq<T>, i: nat)
    requires i < |s|
    ensures multiset(SwapDelete(s, i)) == multiset(s) - multiset{s[i]}
  {
    var n := |s| - 1;
    assert s == s[..n] + [s[n]];
    if i < n {
      var t := s[..n];
      assert SwapDelete(s, i) == t[i := s[n]];
      assert multiset(t[i := s[n]]) == multiset(t) - multiset{t[i]} + multiset{s[n]};
    } else {
      assert SwapDelete(s, i) == s[..n];
    }
  }

  // A set that `f` injects into another is no larger.
  lemma {:induction false} InjectionBound<S, T>(s: set<S>, t: set<T>, f: S -> T)
    requires forall x :: x in s ==> f(x) in t
    requires forall x, y :: x in s && y in s && f(x) == f(y) ==> x == y
    ensures |s| <= |t|
  {
    if s != {} {
      var x :| x in s;
      InjectionBound(s - {x}, t - {f(x)}, f);
    }
  }

  lemma FoldBound(s: set<int>, t: set<int>, h: int)
    requires forall i :: i in s ==> (if i < h then i else i - h) in t
    ensures |s| <= 2 * |t|
  {
    var low := set i | i in s && i < h;
    InjectionBound(low, t, i => i);
    InjectionBound(s - low, t, i => i - h);
    assert |low| + |s - low| == |s|;
  }

  lemma SubsetBound<T>(s: set<T>, t: set<T>)
    requires s <= t
    ensures |s| <= |t|
  {
    assert t == s + (t - s);
  }

  lemma {:induction false} InjectiveImage<S, T>(s: set<S>, f: S -> T)
    requires forall x, y :: x in s && y in s && f(x) == f(y) ==> x == y
    ensures |set x | x in s :: f(x)| == |s|
  {
    if s != {} {
      var x :| x in s;
      InjectiveImage(s - {x}, f);
      assert (set y | y in s :: f(y)) == (set y | y in s - {x} :: f(y)) + {f(x)};
    }
  }

  lemma {:induction false} DistinctElements<T>(s: seq<T>)
    requires NoDuplicates(s)
    ensures |set x | x in s| == |s|
  {
    if s != [] {
      var n := |s| - 1;
      DistinctElements(s[..n]);
      assert (set x | x in s) == (set x | x in s[..n]) + {s[n]};
    }
  }

  // What is left after deleting at `i`, element by element.
  lemma SwapDeleteElements<T>(s: seq<T>, i: nat)
    requires i < |s| && NoDuplicates(s)
    ensures NoDuplicates(SwapDelete(s, i))
    ensures forall x :: x in SwapDelete(s, i) <==> x in s && x != s[i]
  {
    var r := SwapDelete(s, i);
    forall x | x in s && x != s[i] ensures x in r {
      var j :| 0 <= j < |s| && s[j] == x;
      assert r[if j == |s| - 1 then i else j] == x;
    }
  }

  lemma AddedValue<K, V>(m: map<K, V>, k: K, v: V)
    requires k !in m
    ensures m[k := v].Values == m.Values + {v}
  {
    assert k in m[k := v];
    forall x | x in m.Values ensures x in m[k := v].Values {
      var q :| q in m && m[q] == x;
      assert q in m[k := v];
    }
  }

  lemma RemovedValue<K, V>(m: map<K, V>, k: K)
    requires k in m && forall q :: q in m && m[q] == m[k] ==> q == k
    ensures (m - {k}).Values == m.Values - {m[k]}
  {
    forall x | x in m.Values - {m[k]} ensures x in (m - {k}).Values {
      var q :| q in m && m[q] == x;
      assert q in m - {k};
    }
  }
}
