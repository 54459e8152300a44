/** The abstract meaning of a run table: a sequence of runs (start,
    length-minus-one) stands for the set of 16-bit values it covers.  The
    canonical form keeps runs inside 0..65535, sorted, non-overlapping and
    non-adjacent; every mutation of the container must keep it. */
module Runs {
  import opened Shorts
  import opened Sorted

  /** The values `start`, `start + 1`, ..., `start + len`; `len` is the
      stored length minus one. */
  datatype Run = Run(start: U16, len: U16)

  /** The last value of a run. */
  function End(r: Run): int
  {
    r.start + r.len
  }

  predicate InRun(r: Run, v: int)
  {
    r.start <= v <= End(r)
  }

  /** The values of one run, ascending. */
  ghost function Span(r: Run): seq<int>
  {
    seq(r.len + 1, i => r.start + i)
  }

  /** The values a run table stands for, in run order. */
  ghost function Values(rs: seq<Run>): seq<int>
  {
    if rs == [] then [] else Span(rs[0]) + Values(rs[1..])
  }

  ghost function Elements(rs: seq<Run>): set<int>
  {
    set v | v in Values(rs)
  }

  /** The sum of (length-minus-one + 1) over all runs. */
  ghost function Cardinality(rs: seq<Run>): nat
  {
    if rs == [] then 0 else rs[0].len + 1 + Cardinality(rs[1..])
  }

  /** `lo <= v < hi` as a named term, which a `forall` statement over the
      members of an interval can hang on (see ReplaceElements). */
  predicate Between(lo: int, v: int, hi: int)
  {
    lo <= v < hi
  }

  /** The half-open range [lo, hi).  The bound is written out for Dafny to
      see that the set is finite; `Between` repeats it as the named term. */
  ghost function Interval(lo: int, hi: int): set<int>
  {
    set v | lo <= v < hi && Between(lo, v, hi)
  }

  /** Runs end inside the 16-bit range, and each run ends at least two
      values before any later one starts: sorted, non-overlapping and
      non-adjacent. */
  ghost predicate Canonical(rs: seq<Run>)
  {
    && (forall i :: 0 <= i < |rs| ==> End(rs[i]) <= 0xFFFF)
    && (forall i, j :: 0 <= i < j < |rs| ==> End(rs[i]) + 1 < rs[j].start)
  }

  // ---------------------------------------------------------------------
  // Values and Elements of concatenations and single runs

  lemma SpanMember(r: Run, v: int)
    ensures v in Span(r) <==> InRun(r, v)
  {
    if InRun(r, v) {
      assert Span(r)[v - r.start] == v;
    }
  }

  lemma {:induction false} ValuesConcat(a: seq<Run>, b: seq<Run>)
    ensures Values(a + b) == Values(a) + Values(b)
  {
    if a == [] {
      assert a + b == b;
    } else {
      assert (a + b)[1..] == a[1..] + b;
      ValuesConcat(a[1..], b);
    }
  }

  lemma ElementsConcat(a: seq<Run>, b: seq<Run>)
    ensures Elements(a + b) == Elements(a) + Elements(b)
  {
    ValuesConcat(a, b);
  }

  lemma ElementsConcat3(a: seq<Run>, m: seq<Run>, c: seq<Run>)
    ensures Elements(a + m + c) == Elements(a) + Elements(m) + Elements(c)
  {
    ElementsConcat(a, m);
    ElementsConcat(a + m, c);
  }

  /** A single run stands for the interval of values it spans. */
  lemma RunElements(r: Run)
    ensures Elements([r]) == Interval(r.start, End(r) + 1)
  {
    assert Values([r]) == Span(r) by {
      assert [r][1..] == [];
    }
    forall v ensures v in Elements([r]) <==> v in Interval(r.start, End(r) + 1) {
      SpanMember(r, v);
    }
  }

  /** A value is stored exactly when some run covers it. */
  lemma {:induction false} ValuesMember(rs: seq<Run>, v: int)
    ensures v in Values(rs) <==> exists i :: 0 <= i < |rs| && InRun(rs[i], v)
  {
    if rs != [] {
      ValuesMember(rs[1..], v);
      SpanMember(rs[0], v);
      if exists i :: 0 <= i < |rs| && InRun(rs[i], v) {
        var i :| 0 <= i < |rs| && InRun(rs[i], v);
        if i > 0 {
          assert InRun(rs[1..][i - 1], v);
        }
      }
      if exists i :: 0 <= i < |rs[1..]| && InRun(rs[1..][i], v) {
        var i :| 0 <= i < |rs[1..]| && InRun(rs[1..][i], v);
        assert InRun(rs[i + 1], v);
      }
    }
  }

  lemma ElementsMember(rs: seq<Run>, v: int)
    ensures v in Elements(rs) <==> exists i :: 0 <= i < |rs| && InRun(rs[i], v)
  {
    ValuesMember(rs, v);
  }

  /** Every value of runs lying within [lo, hi] lies within [lo, hi]. */
  lemma ElementsWithin(ms: seq<Run>, lo: int, hi: int)
    requires forall i :: 0 <= i < |ms| ==> lo <= ms[i].start && End(ms[i]) <= hi
    ensures Elements(ms) <= Interval(lo, hi + 1)
  {
    forall v | v in Elements(ms) ensures lo <= v <= hi {
      ElementsMember(ms, v);
    }
  }

  lemma ElementsWithinSlice(rs: seq<Run>, i0: int, j0: int, lo: int, hi: int)
    requires 0 <= i0 <= j0 <= |rs|
    requires forall i :: i0 <= i < j0 ==> lo <= rs[i].start && End(rs[i]) <= hi
    ensures Elements(rs[i0..j0]) <= Interval(lo, hi + 1)
  {
    var m := rs[i0..j0];
    forall i | 0 <= i < |m| ensures lo <= m[i].start && End(m[i]) <= hi {
      assert m[i] == rs[i0 + i];
    }
    ElementsWithin(m, lo, hi);
  }

  /** `getCardinality`'s sum is the number of values enumerated. */
  lemma {:induction false} CardinalityLength(rs: seq<Run>)
    ensures |Values(rs)| == Cardinality(rs)
  {
    if rs != [] {
      CardinalityLength(rs[1..]);
    }
  }

  lemma CardinalityConcat(a: seq<Run>, b: seq<Run>)
    ensures Cardinality(a + b) == Cardinality(a) + Cardinality(b)
  {
    ValuesConcat(a, b);
    CardinalityLength(a);
    CardinalityLength(b);
    CardinalityLength(a + b);
  }

  /** One run more in a prefix adds that run's values. */
  lemma CardinalityStep(rs: seq<Run>, k: int)
    requires 0 <= k < |rs|
    ensures Cardinality(rs[..k + 1]) == Cardinality(rs[..k]) + rs[k].len + 1
  {
    assert rs[..k + 1] == rs[..k] + [rs[k]];
    CardinalityConcat(rs[..k], [rs[k]]);
    assert [rs[k]][1..] == [];
  }

  /** The value at position `Cardinality(rs[..k]) + d` of the enumeration is
      the `d`-th value of run `k`: the position an iterator or `select`
      reaches after `k` whole runs and `d` more steps. */
  lemma ValuesAt(rs: seq<Run>, k: int, d: int)
    requires 0 <= k < |rs| && 0 <= d <= rs[k].len
    ensures |Values(rs)| == Cardinality(rs)
    ensures Cardinality(rs[..k]) + d < |Values(rs)|
    ensures Values(rs)[Cardinality(rs[..k]) + d] == rs[k].start + d
  {
    assert rs == rs[..k] + ([rs[k]] + rs[k + 1..]);
    assert ([rs[k]] + rs[k + 1..])[1..] == rs[k + 1..];
    ValuesConcat(rs[..k], [rs[k]] + rs[k + 1..]);
    CardinalityLength(rs[..k]);
    CardinalityLength(rs);
  }

  /** The walk of `select(j)` stops at run `k` once the values before it
      number at most `j` and those up to its end more than `j`: the value of
      rank `j + 1` is then `start + (j - offset)` of run `k`. */
  lemma SelectIn(rs: seq<Run>, k: int, offset: int, j: int)
    requires Canonical(rs) && 0 <= k < |rs| && offset == Cardinality(rs[..k])
    requires k > 0 ==> offset <= j
    requires j < offset + rs[k].len + 1
    ensures |Values(rs)| == Cardinality(rs)
    ensures j < 0 ==> k == 0 && offset == 0
    ensures 0 <= j ==> offset <= j && j < Cardinality(rs)
    ensures 0 <= j ==> Values(rs)[j] == rs[k].start + (j - offset) <= 0xFFFF
    ensures 0 <= j ==> CountAtMost(Values(rs), rs[k].start + (j - offset)) == j + 1
  {
    CardinalityLength(rs);
    if k == 0 {
      assert rs[..k] == [];
    }
    if 0 <= j {
      ValuesAt(rs, k, j - offset);
      ValuesIncreasing(rs);
      RankOfElement(Values(rs), j);
    }
  }

  // ---------------------------------------------------------------------
  // Canonical form

  lemma CanonicalSlice(rs: seq<Run>, i: int, j: int)
    requires Canonical(rs) && 0 <= i <= j <= |rs|
    ensures Canonical(rs[i..j])
  {
    var s := rs[i..j];
    forall k, l | 0 <= k < l < |s| ensures End(s[k]) + 1 < s[l].start {
      assert s[k] == rs[i + k] && s[l] == rs[i + l];
    }
  }

  /** Two canonical tables join into a canonical one exactly when the last
      run of the first ends at least two values before the second starts. */
  lemma CanonicalConcat(a: seq<Run>, b: seq<Run>)
    requires Canonical(a) && Canonical(b)
    requires a != [] && b != [] ==> End(a[|a| - 1]) + 1 < b[0].start
    ensures Canonical(a + b)
  {
    var s := a + b;
    forall k, l | 0 <= k < l < |s| ensures End(s[k]) + 1 < s[l].start {
      if l < |a| {
        assert s[k] == a[k] && s[l] == a[l];
      } else if |a| <= k {
        assert s[k] == b[k - |a|] && s[l] == b[l - |a|];
      } else {
        assert s[k] == a[k] && s[l] == b[l - |a|];
        assert End(a[k]) <= End(a[|a| - 1]) && b[0].start <= b[l - |a|].start;
      }
    }
  }

  /** Around run `k`, the values of the earlier runs lie more than one below
      its start and those of the later runs more than one above its end. */
  lemma ElementsAround(rs: seq<Run>, k: int)
    requires Canonical(rs) && 0 <= k < |rs|
    ensures forall v :: v in Elements(rs[..k]) ==> v + 1 < rs[k].start
    ensures forall v :: v in Elements(rs[k..][1..]) ==> End(rs[k]) + 1 < v
  {
    forall v | v in Elements(rs[..k]) ensures v + 1 < rs[k].start {
      ElementsMember(rs[..k], v);
      var i :| 0 <= i < k && InRun(rs[..k][i], v);
    }
    assert rs[k..][1..] == rs[k + 1..];
    forall v | v in Elements(rs[k..][1..]) ensures End(rs[k]) + 1 < v {
      ElementsMember(rs[k + 1..], v);
      var i :| 0 <= i < |rs| - k - 1 && InRun(rs[k + 1..][i], v);
    }
  }

  /** A canonical table enumerates its values in strictly increasing order,
      so its Elements are exactly Values without repetition. */
  lemma {:induction false} ValuesIncreasing(rs: seq<Run>)
    requires Canonical(rs)
    ensures Increasing(Values(rs))
  {
    if rs != [] {
      CanonicalSlice(rs, 1, |rs|);
      ValuesIncreasing(rs[1..]);
      ElementsAround(rs, 0);
      assert rs[0..][1..] == rs[1..];
      var s := Span(rs[0]);
      var t := Values(rs[1..]);
      assert Values(rs) == s + t;
      forall i, j | 0 <= i < j < |s + t| ensures (s + t)[i] < (s + t)[j] {
        if i < |s| && j >= |s| {
          assert (s + t)[j] in Elements(rs[1..]);
        }
      }
    }
  }

  /** The sum `getCardinality` folds is the number of distinct values. */
  lemma ElementsCardinality(rs: seq<Run>)
    requires Canonical(rs)
    ensures |Elements(rs)| == Cardinality(rs)
  {
    ValuesIncreasing(rs);
    DistinctSize(Values(rs));
    CardinalityLength(rs);
  }

  /** Canonical tables hold only 16-bit values. */
  lemma ElementsInRange(rs: seq<Run>)
    requires Canonical(rs)
    ensures Elements(rs) <= Interval(0, 0x1_0000)
  {
    ElementsWithin(rs, 0, 0xFFFF);
  }

  /** If `p` is the last run starting at or before `x` (-1 if none), then `x`
      is stored exactly when run `p` covers it: the decision `contains`,
      `add` and `remove` make after the binary search. */
  lemma Locate(rs: seq<Run>, p: int, x: int)
    requires Canonical(rs) && -1 <= p < |rs|
    requires forall i :: 0 <= i <= p ==> rs[i].start <= x
    requires forall i :: p < i < |rs| ==> x < rs[i].start
    ensures x in Elements(rs) <==> p >= 0 && InRun(rs[p], x)
  {
    ElementsMember(rs, x);
    if x in Elements(rs) {
      var i :| 0 <= i < |rs| && InRun(rs[i], x);
      if i < p {
      }
    }
  }

  /** The canonical form of a set is unique: equal enumerations come from
      equal run tables.  So comparing run by run decides set equality. */
  lemma {:induction false} CanonicalUnique(a: seq<Run>, b: seq<Run>)
    requires Canonical(a) && Canonical(b) && Values(a) == Values(b)
    ensures a == b
    decreases |a|
  {
    if a != [] && b != [] {
      SameFirstRun(a, b);
      CanonicalSlice(a, 1, |a|);
      CanonicalSlice(b, 1, |b|);
      CanonicalUnique(a[1..], b[1..]);
      assert a == [a[0]] + a[1..] && b == [b[0]] + b[1..];
    } else {
      CardinalityLength(a);
      CardinalityLength(b);
    }
  }

  /** Two canonical tables with the same enumeration start with the same
      run, and enumerate the same values after it. */
  lemma SameFirstRun(a: seq<Run>, b: seq<Run>)
    requires Canonical(a) && Canonical(b) && Values(a) == Values(b)
    requires a != [] && b != []
    ensures a[0] == b[0] && Values(a[1..]) == Values(b[1..])
  {
    var sa, sb := Span(a[0]), Span(b[0]);
    assert Values(a) == sa + Values(a[1..]);
    assert Values(b) == sb + Values(b[1..]);
    assert a[0].start == b[0].start by {
      assert Values(a)[0] == a[0].start && Values(b)[0] == b[0].start;
    }
    CardinalityLength(a[1..]);
    CardinalityLength(b[1..]);
    if a[0].len < b[0].len {
      FirstAfterRun(a);
      assert false;
    } else if b[0].len < a[0].len {
      FirstAfterRun(b);
      assert false;
    }
    assert sa == sb;
    assert Values(a[1..]) == Values(a)[|sa|..] == Values(b)[|sb|..] == Values(b[1..]);
  }

  /** The value enumerated right after the first run is the next run's start,
      which leaves a gap; or there is none. */
  lemma FirstAfterRun(rs: seq<Run>)
    requires Canonical(rs) && rs != []
    ensures |Values(rs)| > rs[0].len + 1 ==>
      |rs| > 1 && Values(rs)[rs[0].len + 1] == rs[1].start > End(rs[0]) + 1
    ensures |rs| == 1 ==> |Values(rs)| == rs[0].len + 1
  {
    assert Values(rs) == Span(rs[0]) + Values(rs[1..]);
    if |rs| > 1 {
      assert Values(rs[1..]) == Span(rs[1]) + Values(rs[2..]);
    } else {
      assert rs[1..] == [];
    }
  }

  // ---------------------------------------------------------------------
  // Splicing

  /** Overwriting run `i` is splicing a one-run table in its place. */
  lemma UpdateSplice(rs: seq<Run>, i: int, r: Run)
    requires 0 <= i < |rs|
    ensures rs[i := r] == rs[..i] + [r] + rs[i + 1..]
  {
  }

  /** Overwriting run `i` and then closing run `i + 1` splices one run in
      place of the two. */
  lemma UpdateCloseSplice(rs: seq<Run>, i: int, r: Run)
    requires 0 <= i && i + 1 < |rs|
    ensures rs[i := r][..i + 1] + rs[i := r][i + 2..] == rs[..i] + [r] + rs[i + 2..]
  {
    assert rs[i := r][..i + 1] == rs[..i] + [r];
    assert rs[i := r][i + 2..] == rs[i + 2..];
  }

  /** Overwriting, twice, the run a splice put in the middle. */
  lemma SpliceUpdate(a: seq<Run>, g: Run, c: seq<Run>, x: Run, r: Run)
    ensures (a + [g] + c)[|a| := x][|a| := r] == a + [r] + c
  {
  }

  /** Overwriting run `i` and then putting a run in after it splices two
      runs in its place. */
  lemma SplitSplice(rs: seq<Run>, i: int, lo: Run, hi: Run)
    requires 0 <= i < |rs|
    ensures rs[i := lo][..i + 1] + [hi] + rs[i := lo][i + 1..] == rs[..i] + [lo, hi] + rs[i + 1..]
  {
    assert rs[i := lo][..i + 1] == rs[..i] + [lo];
    assert rs[i := lo][i + 1..] == rs[i + 1..];
  }

  lemma SplitThree(rs: seq<Run>, i: int, j: int)
    requires 0 <= i <= j <= |rs|
    ensures rs == rs[..i] + rs[i..j] + rs[j..]
  {
  }

  /** Replacing runs `b+1 .. e` by one run [value, value + length] that
      covers them, reaches down to `begin` and up to `end - 1` only through
      stored values, and keeps a gap to its neighbours, adds exactly
      [begin, end) and keeps the table canonical.  This is the shape of every
      insertion: `add(k)` (with [k, k+1)) and `iadd(begin, end)`. */
  lemma MergeRange(rs: seq<Run>, b: int, e: int, value: U16, length: U16, begin: int, end: int)
    requires Canonical(rs) && -1 <= b <= e < |rs|
    requires value <= begin < end <= value + length + 1 <= 0x1_0000
    requires Interval(value, begin) <= Elements(rs)
    requires Interval(end, value + length + 1) <= Elements(rs)
    requires forall i :: b < i <= e ==> value <= rs[i].start && End(rs[i]) <= value + length
    requires b >= 0 ==> End(rs[b]) + 1 < value
    requires e + 1 < |rs| ==> value + length + 1 < rs[e + 1].start
    ensures Canonical(rs[..b + 1] + [Run(value, length)] + rs[e + 1..])
    ensures Elements(rs[..b + 1] + [Run(value, length)] + rs[e + 1..]) == Elements(rs) + Interval(begin, end)
  {
    CanonicalReplace(rs, b, e, [Run(value, length)]);
    MergeElements(rs, b, e, value, length, begin, end);
  }

  /** The set half of MergeRange. */
  lemma MergeElements(rs: seq<Run>, b: int, e: int, value: U16, length: U16, begin: int, end: int)
    requires -1 <= b <= e < |rs|
    requires value <= begin < end <= value + length + 1
    requires Interval(value, begin) <= Elements(rs)
    requires Interval(end, value + length + 1) <= Elements(rs)
    requires forall i :: b < i <= e ==> value <= rs[i].start && End(rs[i]) <= value + length
    ensures Elements(rs[..b + 1] + [Run(value, length)] + rs[e + 1..]) == Elements(rs) + Interval(begin, end)
  {
    var a, m, c := rs[..b + 1], rs[b + 1..e + 1], rs[e + 1..];
    ElementsWithinSlice(rs, b + 1, e + 1, value, value + length);
    SplitThree(rs, b + 1, e + 1);
    ReplaceElements(rs, a, m, c, Run(value, length), begin, end);
  }

  /** The set reasoning of MergeRange: a run that covers the middle runs and
      extends them only by [begin, end) and by values stored elsewhere. */
  lemma ReplaceElements(rs: seq<Run>, a: seq<Run>, m: seq<Run>, c: seq<Run>, r: Run, begin: int, end: int)
    requires rs == a + m + c
    requires r.start <= begin < end <= End(r) + 1
    requires Elements(m) <= Interval(r.start, End(r) + 1)
    requires Interval(r.start, begin) <= Elements(rs)
    requires Interval(end, End(r) + 1) <= Elements(rs)
    ensures Elements(a + [r] + c) == Elements(rs) + Interval(begin, end)
  {
    ElementsConcat3(a, m, c);
    ElementsConcat3(a, [r], c);
    RunElements(r);
    var old_, new_ := Elements(rs), Elements(a + [r] + c);
    forall v ensures v in new_ <==> v in old_ || Between(begin, v, end) {
      if v in Interval(r.start, End(r) + 1) {
        if v < begin {
          assert v in Interval(r.start, begin);
        } else if end <= v {
          assert v in Interval(end, End(r) + 1);
        }
      }
    }
  }

  /** Replacing runs `b+1 .. e` by canonical runs that keep a gap to the
      neighbours keeps the table canonical. */
  lemma CanonicalReplace(rs: seq<Run>, b: int, e: int, ms: seq<Run>)
    requires Canonical(rs) && -1 <= b <= e < |rs| && Canonical(ms)
    requires b >= 0 && ms != [] ==> End(rs[b]) + 1 < ms[0].start
    requires e + 1 < |rs| && ms != [] ==> End(ms[|ms| - 1]) + 1 < rs[e + 1].start
    requires b >= 0 && e + 1 < |rs| && ms == [] ==> End(rs[b]) + 1 < rs[e + 1].start
    ensures Canonical(rs[..b + 1] + ms + rs[e + 1..])
  {
    var a, c := rs[..b + 1], rs[e + 1..];
    CanonicalSlice(rs, 0, b + 1);
    CanonicalSlice(rs, e + 1, |rs|);
    CanonicalConcat(a, ms);
    if a + ms != [] && c != [] {
      assert (a + ms)[|a + ms| - 1] == if ms != [] then ms[|ms| - 1] else rs[b];
    }
    CanonicalConcat(a + ms, c);
  }

  /** Replacing the run that holds `x` by runs within it that hold all of its
      values but `x` removes exactly `x` and keeps the table canonical: the
      shape of every branch of `remove(x)` that finds `x`. */
  lemma RemoveFromRun(rs: seq<Run>, i: int, ms: seq<Run>, x: int)
    requires Canonical(rs) && 0 <= i < |rs| && InRun(rs[i], x)
    requires Canonical(ms)
    requires forall j :: 0 <= j < |ms| ==> rs[i].start <= ms[j].start && End(ms[j]) <= End(rs[i])
    requires Elements(ms) == Interval(rs[i].start, End(rs[i]) + 1) - {x}
    ensures Canonical(rs[..i] + ms + rs[i + 1..])
    ensures Elements(rs[..i] + ms + rs[i + 1..]) == Elements(rs) - {x}
  {
    RemovedElements(rs, i, ms, x);
    if ms != [] {
      assert rs[i].start <= ms[0].start && End(ms[|ms| - 1]) <= End(rs[i]);
    }
    if i > 0 && i + 1 < |rs| {
      assert End(rs[i - 1]) + 1 < rs[i + 1].start;
    }
    CanonicalReplace(rs, i - 1, i, ms);
  }

  /** Replacing the run that holds `x` by runs holding the rest of its
      values removes exactly `x`. */
  lemma RemovedElements(rs: seq<Run>, i: int, ms: seq<Run>, x: int)
    requires Canonical(rs) && 0 <= i < |rs| && InRun(rs[i], x)
    requires Elements(ms) == Interval(rs[i].start, End(rs[i]) + 1) - {x}
    ensures Elements(rs[..i] + ms + rs[i + 1..]) == Elements(rs) - {x}
  {
    var a, c := rs[..i], rs[i + 1..];
    assert rs == a + [rs[i]] + c;
    ElementsConcat3(a, [rs[i]], c);
    ElementsConcat3(a, ms, c);
    RunElements(rs[i]);
    ElementsAround(rs, i);
    assert rs[i..][1..] == c;
  }

  // ---------------------------------------------------------------------
  // Queries

  /** All the values of run `i` are stored. */
  lemma RunInElements(rs: seq<Run>, i: int)
    requires 0 <= i < |rs|
    ensures Interval(rs[i].start, End(rs[i]) + 1) <= Elements(rs)
  {
    forall v | v in Interval(rs[i].start, End(rs[i]) + 1) ensures v in Elements(rs) {
      ElementsMember(rs, v);
      assert InRun(rs[i], v);
    }
  }

  /** A value strictly between run `r - 1` and run `r` is not stored. */
  lemma Gap(rs: seq<Run>, r: int, v: int)
    requires Canonical(rs) && 0 <= r <= |rs|
    requires r > 0 ==> End(rs[r - 1]) < v
    requires r < |rs| ==> v < rs[r].start
    ensures v !in Elements(rs)
  {
    forall i | 0 <= i <= r - 1 ensures rs[i].start <= v {
      assert rs[i].start <= End(rs[r - 1]);
    }
    Locate(rs, r - 1, v);
  }

  /** How many values of one run are at most `x`. */
  lemma CountSpan(r: Run, x: int)
    ensures CountAtMost(Span(r), x) ==
      if x < r.start then 0 else if x <= End(r) then x - r.start + 1 else r.len + 1
  {
    var s := Span(r);
    if x < r.start {
      CountAtMostNone(s, x);
    } else if x <= End(r) {
      var d := x - r.start + 1;
      assert s == s[..d] + s[d..];
      CountAtMostConcat(s[..d], s[d..], x);
      CountAtMostAll(s[..d], x);
      CountAtMostNone(s[d..], x);
    } else {
      CountAtMostAll(s, x);
    }
  }

  /** The number of stored values at most `x`, when every run before `k`
      ends below `x` and run `k` (if any) starts above `x` or covers it: the
      value `rank(x)` returns from inside its loop at run `k`. */
  lemma RankAt(rs: seq<Run>, k: int, x: int)
    requires Canonical(rs) && 0 <= k <= |rs|
    requires forall i :: 0 <= i < k ==> End(rs[i]) < x
    requires k < |rs| ==> x < rs[k].start || InRun(rs[k], x)
    ensures CountAtMost(Values(rs), x) ==
      Cardinality(rs[..k]) + (if k < |rs| && InRun(rs[k], x) then x - rs[k].start + 1 else 0)
  {
    var a, c := rs[..k], rs[k..];
    assert rs == a + c;
    ValuesConcat(a, c);
    CountAtMostConcat(Values(a), Values(c), x);
    forall i | 0 <= i < |Values(a)| ensures Values(a)[i] <= x {
      ValuesMember(a, Values(a)[i]);
    }
    CountAtMostAll(Values(a), x);
    CardinalityLength(a);
    if k < |rs| {
      assert Values(c) == Span(rs[k]) + Values(c[1..]);
      CountAtMostConcat(Span(rs[k]), Values(c[1..]), x);
      CountSpan(rs[k], x);
      ElementsAround(rs, k);
      forall i | 0 <= i < |Values(c[1..])| ensures x < Values(c[1..])[i] {
        assert Values(c[1..])[i] in Elements(rs[k..][1..]);
      }
      CountAtMostNone(Values(c[1..]), x);
    } else {
      assert c == [];
    }
  }

  /** Selecting the value of rank `rank(x)` gives back `x`: for a stored
      `x`, position `CountAtMost(Values(rs), x) - 1` of the values holds `x`. */
  lemma SelectOfRank(rs: seq<Run>, x: int)
    requires Canonical(rs) && x in Elements(rs)
    ensures 1 <= CountAtMost(Values(rs), x) <= |Values(rs)|
    ensures Values(rs)[CountAtMost(Values(rs), x) - 1] == x
  {
    var s := Values(rs);
    ValuesIncreasing(rs);
    var i :| 0 <= i < |s| && s[i] == x;
    RankOfElement(s, i);
  }

  /** Two canonical tables are equal exactly when they store the same set. */
  lemma SameElements(a: seq<Run>, b: seq<Run>)
    requires Canonical(a) && Canonical(b)
    ensures a == b <==> Elements(a) == Elements(b)
  {
    if Elements(a) == Elements(b) {
      ValuesIncreasing(a);
      ValuesIncreasing(b);
      forall v ensures v in Values(a) <==> v in Values(b) {
        assert v in Values(a) <==> v in Elements(a);
        assert v in Values(b) <==> v in Elements(b);
      }
      IncreasingUnique(Values(a), Values(b));
      CanonicalUnique(a, b);
    }
  }

  // ---------------------------------------------------------------------
  // The branches of add(k)

  /** Every start at or before `p` is at most `x`, every later start is
      above `x`: `p` is the run `contains`, `add` and `remove` look at. */
  ghost predicate Preceding(rs: seq<Run>, p: int, x: int)
  {
    && -1 <= p < |rs|
    && (forall i :: 0 <= i <= p ==> rs[i].start <= x)
    && (forall i :: p < i < |rs| ==> x < rs[i].start)
  }

  lemma Singleton(k: int)
    ensures Interval(k, k + 1) == {k}
  {
    assert k in Interval(k, k + 1);
  }

  /** `k` closes the gap between runs `i` and `i + 1`: the two become one. */
  lemma AddFuse(rs: seq<Run>, i: int, k: U16)
    requires Canonical(rs) && 0 <= i && i + 1 < |rs|
    requires k == End(rs[i]) + 1 && rs[i + 1].start == k + 1
    ensures Canonical(rs[..i] + [Run(rs[i].start, End(rs[i + 1]) - rs[i].start)] + rs[i + 2..])
    ensures Elements(rs[..i] + [Run(rs[i].start, End(rs[i + 1]) - rs[i].start)] + rs[i + 2..]) == Elements(rs) + {k}
  {
    RunInElements(rs, i);
    RunInElements(rs, i + 1);
    Singleton(k);
    var merged := Run(rs[i].start, End(rs[i + 1]) - rs[i].start);
    MergeRange(rs, i - 1, i + 1, merged.start, merged.len, k, k + 1);
    assert rs[..i - 1 + 1] + [merged] + rs[i + 1 + 1..] == rs[..i] + [merged] + rs[i + 2..];
  }

  /** `k` is just after run `i` and not just before the next one: run `i`
      grows by one. */
  lemma AddExtendEnd(rs: seq<Run>, i: int, k: U16)
    requires Canonical(rs) && 0 <= i < |rs|
    requires k == End(rs[i]) + 1 <= 0xFFFF
    requires i + 1 < |rs| ==> rs[i + 1].start != k + 1
    ensures Canonical(rs[..i] + [Run(rs[i].start, rs[i].len + 1)] + rs[i + 1..])
    ensures Elements(rs[..i] + [Run(rs[i].start, rs[i].len + 1)] + rs[i + 1..]) == Elements(rs) + {k}
  {
    RunInElements(rs, i);
    Singleton(k);
    var grown := Run(rs[i].start, rs[i].len + 1);
    MergeRange(rs, i - 1, i, grown.start, grown.len, k, k + 1);
    assert rs[..i - 1 + 1] + [grown] + rs[i + 1..] == rs[..i] + [grown] + rs[i + 1..];
  }

  /** `k` is just before run `j` and apart from run `j - 1` (if any): run
      `j` starts one earlier. */
  lemma AddPrepend(rs: seq<Run>, j: int, k: U16)
    requires Canonical(rs) && 0 <= j < |rs|
    requires j > 0 ==> End(rs[j - 1]) + 1 < k
    requires rs[j].start == k + 1
    ensures Canonical(rs[..j] + [Run(k, rs[j].len + 1)] + rs[j + 1..])
    ensures Elements(rs[..j] + [Run(k, rs[j].len + 1)] + rs[j + 1..]) == Elements(rs) + {k}
  {
    RunInElements(rs, j);
    Singleton(k);
    var grown := Run(k, rs[j].len + 1);
    MergeRange(rs, j - 1, j, grown.start, grown.len, k, k + 1);
    assert rs[..j - 1 + 1] + [grown] + rs[j + 1..] == rs[..j] + [grown] + rs[j + 1..];
  }

  /** `k` touches no run: a singleton run goes in after run `i`. */
  lemma AddInsert(rs: seq<Run>, i: int, k: U16)
    requires Canonical(rs) && -1 <= i < |rs|
    requires i >= 0 ==> End(rs[i]) + 1 < k
    requires i + 1 < |rs| ==> k + 1 < rs[i + 1].start
    ensures Canonical(rs[..i + 1] + [Run(k, 0)] + rs[i + 1..])
    ensures Elements(rs[..i + 1] + [Run(k, 0)] + rs[i + 1..]) == Elements(rs) + {k}
  {
    Singleton(k);
    MergeRange(rs, i, i, k, 0, k, k + 1);
  }

  // ---------------------------------------------------------------------
  // The four shapes of remove(x) for a stored x

  /** A singleton run holding `x` is closed. */
  lemma RemoveSingleton(rs: seq<Run>, i: int)
    requires Canonical(rs) && 0 <= i < |rs| && rs[i].len == 0
    ensures Canonical(rs[..i] + rs[i + 1..])
    ensures Elements(rs[..i] + rs[i + 1..]) == Elements(rs) - {rs[i].start}
  {
    var none: seq<Run> := [];
    assert Elements(none) == {} by {
      assert Values(none) == [];
    }
    RunElements(rs[i]);
    Singleton(rs[i].start);
    RemoveFromRun(rs, i, none, rs[i].start);
    assert rs[..i] + none + rs[i + 1..] == rs[..i] + rs[i + 1..];
  }

  /** A longer run starting at `x` starts one later. */
  lemma RemoveStart(rs: seq<Run>, i: int)
    requires Canonical(rs) && 0 <= i < |rs| && 0 < rs[i].len
    ensures rs[i].start < 0xFFFF
    ensures Canonical(rs[..i] + [Run(rs[i].start + 1, rs[i].len - 1)] + rs[i + 1..])
    ensures Elements(rs[..i] + [Run(rs[i].start + 1, rs[i].len - 1)] + rs[i + 1..]) == Elements(rs) - {rs[i].start}
  {
    var r := rs[i];
    assert End(r) <= 0xFFFF;
    var m := Run(r.start + 1, r.len - 1);
    RunElements(r);
    RunElements(m);
    assert Elements([m]) == Interval(r.start, End(r) + 1) - {r.start};
    RemoveFromRun(rs, i, [m], r.start);
  }

  /** A longer run ending at `x` ends one earlier. */
  lemma RemoveEnd(rs: seq<Run>, i: int)
    requires Canonical(rs) && 0 <= i < |rs| && 0 < rs[i].len
    ensures Canonical(rs[..i] + [Run(rs[i].start, rs[i].len - 1)] + rs[i + 1..])
    ensures Elements(rs[..i] + [Run(rs[i].start, rs[i].len - 1)] + rs[i + 1..]) == Elements(rs) - {End(rs[i])}
  {
    var r := rs[i];
    var m := Run(r.start, r.len - 1);
    RunElements(r);
    RunElements(m);
    assert Elements([m]) == Interval(r.start, End(r) + 1) - {End(r)};
    RemoveFromRun(rs, i, [m], End(r));
  }

  /** A run holding `x` strictly inside breaks in two around `x`. */
  lemma RemoveSplit(rs: seq<Run>, i: int, x: U16)
    requires Canonical(rs) && 0 <= i < |rs| && rs[i].start < x < End(rs[i])
    ensures Canonical(rs[..i] + [Run(rs[i].start, x - rs[i].start - 1), Run(x + 1, End(rs[i]) - x - 1)] + rs[i + 1..])
    ensures Elements(rs[..i] + [Run(rs[i].start, x - rs[i].start - 1), Run(x + 1, End(rs[i]) - x - 1)] + rs[i + 1..])
      == Elements(rs) - {x}
  {
    var r := rs[i];
    assert End(r) <= 0xFFFF;
    var lo, hi := Run(r.start, x - r.start - 1), Run(x + 1, End(r) - x - 1);
    RunElements(r);
    RunElements(lo);
    RunElements(hi);
    ElementsConcat([lo], [hi]);
    assert [lo] + [hi] == [lo, hi];
    assert Elements([lo, hi]) == Interval(r.start, End(r) + 1) - {x};
    RemoveFromRun(rs, i, [lo, hi], x);
  }

  // ---------------------------------------------------------------------
  // The range merge of iadd(begin, end)

  /** Searching a larger value finds a later (or the same) preceding run. */
  lemma PrecedingMonotone(rs: seq<Run>, p: int, x: int, q: int, y: int)
    requires Canonical(rs) && Preceding(rs, p, x) && Preceding(rs, q, y) && x <= y
    ensures p <= q
  {
    if p >= 0 {
      assert rs[p].start <= x;
    }
  }

  /** The lower end of `iadd`: from `p`, the last run starting at or before
      `begin`, the new run starts where run `p` does when `begin` is in it or
      just past it (and run `p` is absorbed), and at `begin` otherwise. */
  ghost predicate LowerMerge(rs: seq<Run>, p: int, begin: int, b: int, value: int)
  {
    && -1 <= p < |rs|
    && if p >= 0 && begin - rs[p].start <= rs[p].len + 1 then b == p - 1 && value == rs[p].start
       else b == p && value == begin
  }

  /** The upper end of `iadd`: from `q`, the last run starting at or before
      `end - 1`, the new run reaches the end of run `q` when that lies beyond
      `end - 1`, and takes in the next run when it starts exactly at `end`;
      `top` is one past the new run. */
  ghost predicate UpperMerge(rs: seq<Run>, q: int, end: int, e: int, top: int)
  {
    && -1 <= q < |rs|
    && if q + 1 < |rs| && rs[q + 1].start == end then e == q + 1 && top == Reach(rs, q, end) + rs[q + 1].len + 1
       else e == q && top == Reach(rs, q, end)
  }

  /** One past the end of run `q` when that lies beyond `end - 1`, else `end`. */
  ghost function Reach(rs: seq<Run>, q: int, end: int): int
    requires -1 <= q < |rs|
  {
    if q >= 0 && end - 1 - rs[q].start < rs[q].len then End(rs[q]) + 1 else end
  }

  /** What `Reach` covers: stored values from `end` on, past every run up to
      `q`, and not beyond the next run's start, which it meets only when it
      is `end` itself. */
  lemma ReachBounds(rs: seq<Run>, q: int, end: int)
    requires Canonical(rs) && 0 < end <= 0x1_0000 && Preceding(rs, q, end - 1)
    ensures end <= Reach(rs, q, end) <= 0x1_0000
    ensures Interval(end, Reach(rs, q, end)) <= Elements(rs)
    ensures forall i :: 0 <= i <= q ==> End(rs[i]) < Reach(rs, q, end)
    ensures q + 1 < |rs| ==> Reach(rs, q, end) <= rs[q + 1].start
    ensures q + 1 < |rs| && Reach(rs, q, end) == rs[q + 1].start ==> Reach(rs, q, end) == end
  {
    var reach := Reach(rs, q, end);
    if reach != end {
      RunInElements(rs, q);
    }
    forall i | 0 <= i <= q ensures End(rs[i]) < reach {
      if i < q {
        assert End(rs[i]) + 1 < rs[q].start;
      }
    }
    if q + 1 < |rs| && q >= 0 {
      assert End(rs[q]) + 1 < rs[q + 1].start;
    }
  }

  lemma LowerEnd(rs: seq<Run>, p: int, begin: int, b: int, value: int)
    requires Canonical(rs) && 0 <= begin && Preceding(rs, p, begin) && LowerMerge(rs, p, begin, b, value)
    ensures -1 <= b <= p && 0 <= value <= begin
    ensures Interval(value, begin) <= Elements(rs)
    ensures b >= 0 ==> End(rs[b]) + 1 < value
    ensures forall i :: b < i < |rs| ==> value <= rs[i].start
  {
    if b < p {
      RunInElements(rs, p);
      forall i | b < i < |rs| ensures value <= rs[i].start {
        if p < i {
          assert End(rs[p]) + 1 < rs[i].start;
        }
      }
    } else {
      forall v | v in Interval(value, begin) ensures false {
      }
      if p >= 0 {
        assert rs[p].start <= begin;
      }
    }
  }

  lemma UpperEnd(rs: seq<Run>, q: int, end: int, e: int, top: int)
    requires Canonical(rs) && 0 < end <= 0x1_0000
    requires Preceding(rs, q, end - 1) && UpperMerge(rs, q, end, e, top)
    ensures q <= e < |rs| && end <= top <= 0x1_0000
    ensures Interval(end, top) <= Elements(rs)
    ensures forall i :: 0 <= i <= e ==> End(rs[i]) < top
    ensures e + 1 < |rs| ==> top < rs[e + 1].start
  {
    ReachBounds(rs, q, end);
    if q + 1 < |rs| && rs[q + 1].start == end {
      RunInElements(rs, q + 1);
      if e + 1 < |rs| {
        assert End(rs[e]) + 1 < rs[e + 1].start;
      }
    } else if q + 1 < |rs| {
      assert Reach(rs, q, end) < rs[q + 1].start;
    }
  }

  /** `iadd(begin, end)` on tables: the new run [value, value + length]
      replaces runs `b + 1 .. e`, and the table stays canonical and gains
      [begin, end). */
  lemma RangeMerge(rs: seq<Run>, p: int, q: int, begin: int, end: int, b: int, e: int, value: int, length: int)
    requires Canonical(rs) && 0 <= begin < end <= 0x1_0000
    requires Preceding(rs, p, begin) && Preceding(rs, q, end - 1)
    requires LowerMerge(rs, p, begin, b, value) && UpperMerge(rs, q, end, e, value + length + 1)
    ensures -1 <= b <= e < |rs| && 0 <= value <= 0xFFFF && 0 <= length <= 0xFFFF
    ensures Canonical(rs[..b + 1] + [Run(value, length)] + rs[e + 1..])
    ensures Elements(rs[..b + 1] + [Run(value, length)] + rs[e + 1..]) == Elements(rs) + Interval(begin, end)
  {
    PrecedingMonotone(rs, p, begin, q, end - 1);
    LowerEnd(rs, p, begin, b, value);
    UpperEnd(rs, q, end, e, value + length + 1);
    forall i | b < i <= e ensures value <= rs[i].start && End(rs[i]) <= value + length {
    }
    MergeRange(rs, b, e, value, length, begin, end);
  }

  // ---------------------------------------------------------------------
  // The two-cursor walk of and(ArrayContainer)

  /** Values of `x` from `a` up to `r`, all above the end of run `k - 1`
      and below the start of run `k`, are not stored. */
  lemma KeepPastGap(rs: seq<Run>, x: seq<int>, a: int, r: int, k: int)
    requires Canonical(rs) && Increasing(x) && 0 <= a <= r <= |x| && 0 <= k <= |rs|
    requires a < r && k > 0 ==> End(rs[k - 1]) < x[a]
    requires k < |rs| && a < r ==> x[a] < rs[k].start
    requires k < |rs| ==> forall i :: a < i < r ==> x[i] < rs[k].start
    ensures KeepIn(x[..r], Elements(rs)) == KeepIn(x[..a], Elements(rs))
  {
    forall i | a <= i < r ensures x[i] !in Elements(rs) {
      if k > 0 {
        assert End(rs[k - 1]) < x[i] by {
          assert i == a || x[a] < x[i];
        }
      }
      Gap(rs, k, x[i]);
    }
    KeepSkip(x, a, r, Elements(rs));
  }

  /** A value of `x` inside run `k` is kept. */
  lemma KeepInRun(rs: seq<Run>, x: seq<int>, a: int, k: int)
    requires 0 <= a < |x| && 0 <= k < |rs| && InRun(rs[k], x[a])
    ensures KeepIn(x[..a + 1], Elements(rs)) == KeepIn(x[..a], Elements(rs)) + [x[a]]
  {
    ElementsMember(rs, x[a]);
    KeepStep(x, a, Elements(rs));
  }
}
