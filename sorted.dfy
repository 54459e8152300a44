/** Facts about strictly increasing sequences of integers: the shape of the
    values a run container enumerates and of an array container's content. */
module Sorted {

  ghost predicate Increasing(s: seq<int>)
  {
    forall i, j :: 0 <= i < j < |s| ==> s[i] < s[j]
  }

  /** How many elements of `s` are at most `x`. */
  ghost function CountAtMost(s: seq<int>, x: int): nat
  {
    if s == [] then 0 else (if s[0] <= x then 1 else 0) + CountAtMost(s[1..], x)
  }

  lemma {:induction false} CountAtMostConcat(a: seq<int>, b: seq<int>, x: int)
    ensures CountAtMost(a + b, x) == CountAtMost(a, x) + CountAtMost(b, x)
  {
    if a == [] {
      assert a + b == b;
    } else {
      assert (a + b)[1..] == a[1..] + b;
      CountAtMostConcat(a[1..], b, x);
    }
  }

  lemma {:induction false} CountAtMostAll(s: seq<int>, x: int)
    requires forall i :: 0 <= i < |s| ==> s[i] <= x
    ensures CountAtMost(s, x) == |s|
  {
    if s != [] {
      CountAtMostAll(s[1..], x);
    }
  }

  lemma {:induction false} CountAtMostNone(s: seq<int>, x: int)
    requires forall i :: 0 <= i < |s| ==> x < s[i]
    ensures CountAtMost(s, x) == 0
  {
    if s != [] {
      CountAtMostNone(s[1..], x);
    }
  }

  /** In an increasing sequence the element at position `i` has exactly
      `i + 1` elements at most itself: selecting the rank-th value undoes rank. */
  lemma RankOfElement(s: seq<int>, i: int)
    requires Increasing(s) && 0 <= i < |s|
    ensures CountAtMost(s, s[i]) == i + 1
  {
    var a, b := s[..i + 1], s[i + 1..];
    assert s == a + b;
    forall k | 0 <= k < |a| ensures a[k] <= s[i] {
      assert a[k] == s[k];
    }
    forall k | 0 <= k < |b| ensures s[i] < b[k] {
      assert b[k] == s[i + 1 + k];
    }
    CountAtMostConcat(a, b, s[i]);
    CountAtMostAll(a, s[i]);
    CountAtMostNone(b, s[i]);
  }

  /** An increasing sequence lists a set without repetition. */
  lemma {:induction false} DistinctSize(s: seq<int>)
    requires Increasing(s)
    ensures |set v | v in s| == |s|
  {
    if s == [] {
      assert (set v | v in s) == {};
    } else {
      DistinctSize(s[1..]);
      assert (set v | v in s) == {s[0]} + (set v | v in s[1..]);
      assert s[0] !in (set v | v in s[1..]);
    }
  }

  /** The count of `CountAtMost` is the size of the set of elements at most `x`. */
  lemma {:induction false} CountAtMostIsSetSize(s: seq<int>, x: int)
    requires Increasing(s)
    ensures CountAtMost(s, x) == |set v | v in s && v <= x|
  {
    if s == [] {
      assert (set v | v in s && v <= x) == {};
    } else {
      CountAtMostIsSetSize(s[1..], x);
      var rest := set v | v in s[1..] && v <= x;
      assert s[0] !in rest;
      if s[0] <= x {
        assert (set v | v in s && v <= x) == {s[0]} + rest;
      } else {
        assert (set v | v in s && v <= x) == rest;
      }
    }
  }

  /** The elements of `x` that belong to `t`, in the order of `x`. */
  ghost function KeepIn(x: seq<int>, t: set<int>): (r: seq<int>)
    ensures |r| <= |x|
  {
    if x == [] then [] else (if x[0] in t then [x[0]] else []) + KeepIn(x[1..], t)
  }

  /** Filtering keeps exactly the elements of `x` that are in `t`. */
  lemma {:induction false} KeepInMembers(x: seq<int>, t: set<int>)
    ensures forall v :: v in KeepIn(x, t) <==> v in x && v in t
  {
    if x != [] {
      KeepInMembers(x[1..], t);
      assert x == [x[0]] + x[1..];
    }
  }

  lemma {:induction false} KeepInConcat(a: seq<int>, b: seq<int>, t: set<int>)
    ensures KeepIn(a + b, t) == KeepIn(a, t) + KeepIn(b, t)
  {
    if a == [] {
      assert a + b == b;
    } else {
      assert (a + b)[0] == a[0] && (a + b)[1..] == a[1..] + b;
      KeepInConcat(a[1..], b, t);
      var head := if a[0] in t then [a[0]] else [];
      assert KeepIn(a + b, t) == head + (KeepIn(a[1..], t) + KeepIn(b, t));
      assert KeepIn(a, t) == head + KeepIn(a[1..], t);
    }
  }

  /** Filtering keeps a sequence increasing. */
  lemma {:induction false} KeepInIncreasing(x: seq<int>, t: set<int>)
    requires Increasing(x)
    ensures Increasing(KeepIn(x, t))
  {
    if x != [] {
      KeepInIncreasing(x[1..], t);
      KeepInMembers(x[1..], t);
      var r := KeepIn(x[1..], t);
      forall v | v in r ensures x[0] < v {
        var j :| 0 <= j < |x[1..]| && x[1..][j] == v;
        assert x[1 + j] == v;
      }
      var head := if x[0] in t then [x[0]] else [];
      assert KeepIn(x, t) == head + r;
      forall i, j | 0 <= i < j < |head + r| ensures (head + r)[i] < (head + r)[j] {
        if i < |head| {
          assert (head + r)[j] in r;
        }
      }
    }
  }

  /** Filtering keeps nothing of a sequence none of whose elements is in `t`. */
  lemma KeepInNone(x: seq<int>, t: set<int>)
    requires forall i :: 0 <= i < |x| ==> x[i] !in t
    ensures KeepIn(x, t) == []
  {
  }

  /** The head of an increasing sequence is its least element, and the tail
      holds the elements above it. */
  lemma HeadLeast(s: seq<int>)
    requires Increasing(s) && s != []
    ensures forall v :: v in s ==> s[0] <= v
    ensures forall v :: v in s[1..] <==> v in s && s[0] < v
  {
    forall v | v in s ensures s[0] <= v {
      var i :| 0 <= i < |s| && s[i] == v;
    }
    forall v ensures v in s[1..] <==> v in s && s[0] < v {
      if v in s && s[0] < v {
        var i :| 0 <= i < |s| && s[i] == v;
        assert s[1..][i - 1] == v;
      }
    }
  }

  /** An increasing sequence is determined by the set of its elements. */
  lemma {:induction false} IncreasingUnique(s: seq<int>, t: seq<int>)
    requires Increasing(s) && Increasing(t)
    requires forall v :: v in s <==> v in t
    ensures s == t
  {
    if s != [] {
      assert s[0] in s;
    }
    if t != [] {
      assert t[0] in t;
    }
    if s != [] && t != [] {
      HeadLeast(s);
      HeadLeast(t);
      assert s[0] == t[0];
      IncreasingUnique(s[1..], t[1..]);
      assert s == [s[0]] + s[1..] && t == [t[0]] + t[1..];
    }
  }

  /** Extending the prefix over values outside `t` keeps nothing more. */
  lemma KeepSkip(x: seq<int>, a: int, r: int, t: set<int>)
    requires 0 <= a <= r <= |x|
    requires forall i :: a <= i < r ==> x[i] !in t
    ensures KeepIn(x[..r], t) == KeepIn(x[..a], t)
  {
    assert x[..r] == x[..a] + x[a..r];
    KeepInConcat(x[..a], x[a..r], t);
    KeepInNone(x[a..r], t);
  }

  /** Extending the prefix by one value keeps it exactly when it is in `t`. */
  lemma KeepStep(x: seq<int>, a: int, t: set<int>)
    requires 0 <= a < |x|
    ensures KeepIn(x[..a + 1], t) == KeepIn(x[..a], t) + (if x[a] in t then [x[a]] else [])
  {
    assert x[..a + 1] == x[..a] + [x[a]];
    KeepInConcat(x[..a], [x[a]], t);
    assert [x[a]][1..] == [];
  }
}
