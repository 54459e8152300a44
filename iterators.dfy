/** The two iterators of a run container, as small state machines over a
    run index `pos` and an offset `le` inside that run.  The forward one
    yields the stored values in ascending order, the reverse one in
    descending order, and each stops after exactly the cardinality. */
module RunIterators {
  import opened Shorts
  import opened Runs
  import opened RunContainers

  /** One run split at `k`: the values before run `k`, those of run `k`,
      and those after it. */
  lemma CardinalityAround(rs: seq<Run>, k: int)
    requires 0 <= k < |rs|
    ensures Cardinality(rs) == Cardinality(rs[..k]) + rs[k].len + 1 + Cardinality(rs[k + 1..])
    ensures Cardinality(rs[..k + 1]) == Cardinality(rs[..k]) + rs[k].len + 1
  {
    assert rs == rs[..k] + [rs[k]] + rs[k + 1..];
    assert rs[..k + 1] == rs[..k] + [rs[k]];
    CardinalityConcat(rs[..k] + [rs[k]], rs[k + 1..]);
    CardinalityConcat(rs[..k], [rs[k]]);
    assert Cardinality([rs[k]]) == rs[k].len + 1 by {
      assert [rs[k]][1..] == [];
    }
  }

  // -----------------------------------------------------------------------
  // The forward walk

  /** A forward position: offset `le` inside live run `pos`, or just past
      the last run. */
  ghost predicate ForwardAt(rs: seq<Run>, pos: int, le: int)
  {
    && 0 <= pos <= |rs|
    && (pos < |rs| ==> 0 <= le <= rs[pos].len)
    && (pos == |rs| ==> le == 0)
  }

  /** How many values a forward walk at that position has passed. */
  ghost function ForwardCount(rs: seq<Run>, pos: int, le: int): int
    requires ForwardAt(rs, pos, le)
  {
    Cardinality(rs[..pos]) + le
  }

  /** The forward walk stays within the values, and is short of their end
      exactly while `pos` is a live run. */
  lemma ForwardRange(rs: seq<Run>, pos: int, le: int)
    requires ForwardAt(rs, pos, le)
    ensures 0 <= ForwardCount(rs, pos, le) <= Cardinality(rs)
    ensures ForwardCount(rs, pos, le) < Cardinality(rs) <==> pos < |rs|
  {
    if pos < |rs| {
      CardinalityAround(rs, pos);
    } else {
      assert rs[..pos] == rs;
    }
  }

  /** One forward step: the value at the walk's position is `start + le` of
      run `pos`, and the next position, in the run or at the start of the
      next run, has passed one value more. */
  lemma ForwardNext(rs: seq<Run>, pos: int, le: int)
    requires ForwardAt(rs, pos, le) && ForwardCount(rs, pos, le) < Cardinality(rs)
    ensures pos < |rs|
    ensures |Values(rs)| == Cardinality(rs)
    ensures Values(rs)[ForwardCount(rs, pos, le)] == rs[pos].start + le
    ensures le + 1 <= rs[pos].len ==>
      ForwardAt(rs, pos, le + 1) && ForwardCount(rs, pos, le + 1) == ForwardCount(rs, pos, le) + 1
    ensures le + 1 > rs[pos].len ==>
      ForwardAt(rs, pos + 1, 0) && ForwardCount(rs, pos + 1, 0) == ForwardCount(rs, pos, le) + 1
  {
    ForwardRange(rs, pos, le);
    CardinalityAround(rs, pos);
    ValuesAt(rs, pos, le);
  }

  // -----------------------------------------------------------------------
  // The reverse walk

  /** A reverse position: offset `le` down from the end of live run `pos`,
      or just before the first run. */
  ghost predicate ReverseAt(rs: seq<Run>, pos: int, le: int)
  {
    && -1 <= pos < |rs|
    && (pos >= 0 ==> 0 <= le <= rs[pos].len)
    && (pos == -1 ==> le == 0)
  }

  /** How many values a reverse walk at that position has passed, counted
      from the top. */
  ghost function ReverseCount(rs: seq<Run>, pos: int, le: int): int
    requires ReverseAt(rs, pos, le)
  {
    Cardinality(rs) - Cardinality(rs[..pos + 1]) + le
  }

  /** The reverse walk stays within the values, and is short of their start
      exactly while `pos` is a live run. */
  lemma ReverseRange(rs: seq<Run>, pos: int, le: int)
    requires ReverseAt(rs, pos, le)
    ensures 0 <= ReverseCount(rs, pos, le) <= Cardinality(rs)
    ensures ReverseCount(rs, pos, le) < Cardinality(rs) <==> pos >= 0
  {
    if pos >= 0 {
      CardinalityAround(rs, pos);
    } else {
      assert rs[..pos + 1] == [];
    }
  }

  /** One reverse step: the value with `ReverseCount` values above it is
      `End - le` of run `pos`, and the next position, in the run or at the
      end of the run before, has passed one value more. */
  lemma ReverseNext(rs: seq<Run>, pos: int, le: int)
    requires ReverseAt(rs, pos, le) && ReverseCount(rs, pos, le) < Cardinality(rs)
    ensures 0 <= pos
    ensures |Values(rs)| == Cardinality(rs)
    ensures 0 <= ReverseCount(rs, pos, le)
    ensures Values(rs)[Cardinality(rs) - 1 - ReverseCount(rs, pos, le)] == End(rs[pos]) - le
    ensures le + 1 <= rs[pos].len ==>
      ReverseAt(rs, pos, le + 1) && ReverseCount(rs, pos, le + 1) == ReverseCount(rs, pos, le) + 1
    ensures le + 1 > rs[pos].len ==>
      ReverseAt(rs, pos - 1, 0) && ReverseCount(rs, pos - 1, 0) == ReverseCount(rs, pos, le) + 1
  {
    ReverseRange(rs, pos, le);
    CardinalityAround(rs, pos);
    assert rs[..pos - 1 + 1] == rs[..pos];
    ValuesAt(rs, pos, rs[pos].len - le);
  }

  /** `RunContainerShortIterator`. */
  class ForwardIterator {
    var pos: int
    var le: int
    var parent: RunContainer

    /** `pos` is a live run and `le` an offset inside it, or the walk is
        past the last run. */
    ghost predicate Valid()
      reads this, parent, parent.valueslength
    {
      parent.Valid() && ForwardAt(parent.Table(), pos, le)
    }

    /** How many values the iterator has yielded. */
    ghost function Index(): int
      reads this, parent, parent.valueslength
      requires Valid()
    {
      ForwardCount(parent.Table(), pos, le)
    }

    /** `RunContainerShortIterator(p)`, which calls `wrap(p)`. */
    constructor (p: RunContainer)
      requires p.Valid()
      ensures Valid() && parent == p && Index() == 0
    {
      parent := p;
      pos := 0;
      le := 0;
      assert p.Table()[..0] == [];
    }

    /** `wrap(p)`: start over on `p`. */
    method Wrap(p: RunContainer)
      requires p.Valid()
      modifies this
      ensures Valid() && parent == p && Index() == 0
    {
      parent := p;
      pos := 0;
      le := 0;
      assert p.Table()[..0] == [];
    }

    /** `hasNext()`: some value is left. */
    method HasNext() returns (b: bool)
      requires Valid()
      ensures 0 <= Index() <= Cardinality(parent.Table())
      ensures b <==> Index() < Cardinality(parent.Table())
    {
      ForwardRange(parent.Table(), pos, le);
      if pos < parent.nbrruns {
        var l := parent.GetLength(pos);
        b := le <= l;
      } else {
        b := false;
      }
    }

    /** `next()`: the value of rank `Index() + 1`, then one step on. */
    method Next() returns (ans: U16)
      requires Valid() && Index() < Cardinality(parent.Table())
      modifies this
      ensures Valid() && parent == old(parent)
      ensures Index() == old(Index()) + 1
      ensures |Values(parent.Table())| == Cardinality(parent.Table())
      ensures ans == Values(parent.Table())[old(Index())]
    {
      ghost var rs := parent.Table();
      ForwardNext(rs, pos, le);
      var v := parent.GetValue(pos);
      SignedSum(v, le);
      ans := ToShort(Signed(v) + le);
      le := le + 1;
      var l := parent.GetLength(pos);
      if le > l {
        pos := pos + 1;
        le := 0;
      }
      assert parent.Table() == rs;
    }
  }

  /** `ReverseRunContainerShortIterator`. */
  class ReverseIterator {
    var pos: int
    var le: int
    var parent: RunContainer

    /** `pos` is a live run and `le` an offset down from its end, or the
        walk is before the first run. */
    ghost predicate Valid()
      reads this, parent, parent.valueslength
    {
      parent.Valid() && ReverseAt(parent.Table(), pos, le)
    }

    /** How many values the iterator has yielded, counted from the top. */
    ghost function RevIndex(): int
      reads this, parent, parent.valueslength
      requires Valid()
    {
      ReverseCount(parent.Table(), pos, le)
    }

    /** `ReverseRunContainerShortIterator(p)`, which calls `wrap(p)`. */
    constructor (p: RunContainer)
      requires p.Valid()
      ensures Valid() && parent == p && RevIndex() == 0
    {
      parent := p;
      pos := p.nbrruns - 1;
      le := 0;
      assert p.Table()[..p.nbrruns] == p.Table();
    }

    /** `wrap(p)`: start over on `p`. */
    method Wrap(p: RunContainer)
      requires p.Valid()
      modifies this
      ensures Valid() && parent == p && RevIndex() == 0
    {
      parent := p;
      pos := p.nbrruns - 1;
      le := 0;
      assert p.Table()[..p.nbrruns] == p.Table();
    }

    /** `hasNext()`: some value is left. */
    method HasNext() returns (b: bool)
      requires Valid()
      ensures 0 <= RevIndex() <= Cardinality(parent.Table())
      ensures b <==> RevIndex() < Cardinality(parent.Table())
    {
      ReverseRange(parent.Table(), pos, le);
      if pos >= 0 {
        var l := parent.GetLength(pos);
        b := le <= l;
      } else {
        b := false;
      }
    }

    /** `next()`: the value with `RevIndex()` values above it, then one
        step down. */
    method Next() returns (ans: U16)
      requires Valid() && RevIndex() < Cardinality(parent.Table())
      modifies this
      ensures Valid() && parent == old(parent)
      ensures RevIndex() == old(RevIndex()) + 1
      ensures 0 <= old(RevIndex()) && |Values(parent.Table())| == Cardinality(parent.Table())
      ensures ans == Values(parent.Table())[Cardinality(parent.Table()) - 1 - old(RevIndex())]
    {
      ghost var rs := parent.Table();
      ReverseNext(rs, pos, le);
      var v := parent.GetValue(pos);
      var l := parent.GetLength(pos);
      assert Signed(v) + l - le == Signed(v) + (l - le);
      SignedSum(v, l - le);
      ans := ToShort(Signed(v) + l - le);
      le := le + 1;
      if le > l {
        pos := pos - 1;
        le := 0;
      }
      assert parent.Table() == rs;
    }
  }
}
