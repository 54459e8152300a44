/** The run container: a 16-bit set kept as runs of consecutive values in
    one interleaved array `valueslength` (start of run i at slot 2i, its
    length minus one at slot 2i+1), of which the first `nbrruns` runs are
    live.  Every mutation splices the array in place and keeps the runs
    canonical (see module Runs). */
module RunContainers {
  import opened Shorts
  import opened Sorted
  import opened Outcomes
  import opened Runs
  import opened RunFormat
  import opened ArrayOps

  /** Runs a fresh container has room for. */
  const DEFAULT_INIT_SIZE := 4

  /** The first `n` runs of an interleaved array. */
  ghost function RunsOf(a: seq<U16>, n: nat): (rs: seq<Run>)
    requires 2 * n <= |a|
    ensures |rs| == n
    ensures forall i :: 0 <= i < n ==> rs[i] == Run(a[2 * i], a[2 * i + 1])
  {
    seq(n, i requires 0 <= i < n => Run(a[2 * i], a[2 * i + 1]))
  }

  /** The live words of the array are the table laid out. */
  lemma FlattenRunsOf(a: seq<U16>, n: nat)
    requires 2 * n <= |a|
    ensures Flatten(RunsOf(a, n)) == a[..2 * n]
  {
    var rs := RunsOf(a, n);
    var ws := Flatten(rs);
    forall k | 0 <= k < 2 * n ensures ws[k] == a[k] {
      var i := k / 2;
      if k % 2 == 0 {
        assert k == 2 * i && ws[2 * i] == rs[i].start;
      } else {
        assert k == 2 * i + 1 && ws[2 * i + 1] == rs[i].len;
      }
    }
  }

  /** `copyValuesLength(s, srcIndex, d, dstIndex, length)` as a splice of
      words, read word by word. */
  lemma SpliceWords(s: seq<U16>, d: seq<U16>, r: seq<U16>, srcIndex: int, dstIndex: int, length: int)
    requires 0 <= srcIndex && 0 <= dstIndex && 0 <= length
    requires 2 * (srcIndex + length) <= |s| && 2 * (dstIndex + length) <= |d|
    requires r == d[..2 * dstIndex] + s[2 * srcIndex..2 * (srcIndex + length)] + d[2 * (dstIndex + length)..]
    ensures |r| == |d|
    ensures forall k {:trigger r[k]} :: 0 <= k < |r| ==>
      r[k] == if 2 * dstIndex <= k < 2 * (dstIndex + length) then s[k - 2 * dstIndex + 2 * srcIndex] else d[k]
  {
  }

  /** The array after `makeRoomAtIndex`'s copy: runs from `index` on moved up
      by one. */
  lemma ShiftUp(a: seq<U16>, b: seq<U16>, n: nat, index: int)
    requires 2 * (n + 1) <= |a| && 0 <= index <= n
    requires b == a[..2 * (index + 1)] + a[2 * index..2 * (index + (n - index))] + a[2 * (index + 1 + (n - index))..]
    ensures RunsOf(b, n + 1) == RunsOf(a, n)[..index] + [RunsOf(b, n + 1)[index]] + RunsOf(a, n)[index..]
  {
    SpliceWords(a, a, b, index, index + 1, n - index);
    var rs, t := RunsOf(a, n), RunsOf(b, n + 1);
    forall j | 0 <= j <= n ensures t[j] == (rs[..index] + [t[index]] + rs[index..])[j] {
      if j > index {
        assert b[2 * j] == a[2 * (j - 1)] && b[2 * j + 1] == a[2 * (j - 1) + 1];
      } else if j < index {
        assert b[2 * j] == a[2 * j] && b[2 * j + 1] == a[2 * j + 1];
      }
    }
  }

  /** The array after `recoverRoomAtIndex`'s copy: runs after `index` moved
      down by one. */
  lemma ShiftDown(a: seq<U16>, b: seq<U16>, n: nat, index: int)
    requires 2 * n <= |a| && 0 <= index < n
    requires b == a[..2 * index] + a[2 * (index + 1)..2 * (index + 1 + (n - index - 1))] + a[2 * (index + (n - index - 1))..]
    ensures RunsOf(b, n - 1) == RunsOf(a, n)[..index] + RunsOf(a, n)[index + 1..]
  {
    SpliceWords(a, a, b, index + 1, index, n - index - 1);
    var rs, t := RunsOf(a, n), RunsOf(b, n - 1);
    forall j | 0 <= j < n - 1 ensures t[j] == (rs[..index] + rs[index + 1..])[j] {
      if j >= index {
        assert b[2 * j] == a[2 * (j + 1)] && b[2 * j + 1] == a[2 * (j + 1) + 1];
      } else {
        assert b[2 * j] == a[2 * j] && b[2 * j + 1] == a[2 * j + 1];
      }
    }
  }

  /** The array `iadd` builds holds runs `0 .. b` of `a`, the merged run,
      then runs `e + 1 ..` of `a`. */
  lemma MergedRuns(a: seq<U16>, v: seq<U16>, n: nat, b: int, e: int, value: U16, length: U16)
    requires 2 * n <= |a| && -1 <= b <= e < n && |v| == 2 * (n - (e - (b + 1)))
    requires forall k :: 0 <= k < 2 * (b + 1) ==> v[k] == a[k]
    requires v[2 * (b + 1)] == value && v[2 * (b + 1) + 1] == length
    requires forall k :: 2 * (b + 2) <= k < |v| ==> v[k] == a[k + 2 * (e - b - 1)]
    ensures RunsOf(v, n - (e - (b + 1))) == RunsOf(a, n)[..b + 1] + [Run(value, length)] + RunsOf(a, n)[e + 1..]
  {
    var rs, t := RunsOf(a, n), RunsOf(v, n - (e - (b + 1)));
    var want := rs[..b + 1] + [Run(value, length)] + rs[e + 1..];
    forall i | 0 <= i < |t| ensures t[i] == want[i] {
      if i <= b {
        assert v[2 * i] == a[2 * i] && v[2 * i + 1] == a[2 * i + 1];
      } else if i > b + 1 {
        var j := i + e - b - 1;
        assert v[2 * i] == a[2 * j] && v[2 * i + 1] == a[2 * j + 1];
      }
    }
  }

  /** The array `iadd` builds from the zeroed `z`: runs `0 .. b` of `a`
      copied in place (`c1`), runs from `e + 1` on copied down after one
      free run (`c2`), then that run written. */
  lemma MergedArray(a: seq<U16>, z: seq<U16>, c1: seq<U16>, c2: seq<U16>, v: seq<U16>,
                    n: nat, b: int, e: int, value: U16, length: U16)
    requires 2 * n <= |a| && -1 <= b <= e < n && |z| == 2 * (n - (e - (b + 1)))
    requires c1 == z[..2 * 0] + a[2 * 0..2 * (0 + (b + 1))] + z[2 * (0 + (b + 1))..]
    requires e + 1 < n ==>
      c2 == c1[..2 * (b + 2)] + a[2 * (e + 1)..2 * (e + 1 + (n - 1 - e))] + c1[2 * (b + 2 + (n - 1 - e))..]
    requires e + 1 >= n ==> c2 == c1
    requires v == c2[2 * (b + 1) := value][2 * (b + 1) + 1 := length]
    ensures |v| == 2 * (n - (e - (b + 1)))
    ensures RunsOf(v, n - (e - (b + 1))) == RunsOf(a, n)[..b + 1] + [Run(value, length)] + RunsOf(a, n)[e + 1..]
  {
    MergedWords(a, z, c1, c2, v, n, b, e, value, length);
    MergedRuns(a, v, n, b, e, value, length);
  }

  /** The words of that array: the head in place, the new run's two words,
      and the tail moved down past the merged runs. */
  lemma MergedWords(a: seq<U16>, z: seq<U16>, c1: seq<U16>, c2: seq<U16>, v: seq<U16>,
                    n: nat, b: int, e: int, value: U16, length: U16)
    requires 2 * n <= |a| && -1 <= b <= e < n && |z| == 2 * (n - (e - (b + 1)))
    requires c1 == z[..2 * 0] + a[2 * 0..2 * (0 + (b + 1))] + z[2 * (0 + (b + 1))..]
    requires e + 1 < n ==>
      c2 == c1[..2 * (b + 2)] + a[2 * (e + 1)..2 * (e + 1 + (n - 1 - e))] + c1[2 * (b + 2 + (n - 1 - e))..]
    requires e + 1 >= n ==> c2 == c1
    requires v == c2[2 * (b + 1) := value][2 * (b + 1) + 1 := length]
    ensures |v| == 2 * (n - (e - (b + 1)))
    ensures forall k :: 0 <= k < 2 * (b + 1) ==> v[k] == a[k]
    ensures v[2 * (b + 1)] == value && v[2 * (b + 1) + 1] == length
    ensures forall k :: 2 * (b + 2) <= k < |v| ==> v[k] == a[k + 2 * (e - b - 1)]
  {
    SpliceWords(a, z, c1, 0, 0, b + 1);
    if e + 1 < n {
      SpliceWords(a, c1, c2, e + 1, b + 2, n - 1 - e);
    }
    forall k | 0 <= k < 2 * (b + 1) ensures v[k] == a[k] {
      assert c2[k] == c1[k] == a[k];
    }
    forall k | 2 * (b + 2) <= k < |v| ensures v[k] == a[k + 2 * (e - b - 1)] {
      assert c2[k] == a[k + 2 * (e - b - 1)];
    }
  }

  /** Reading the words of the table one by one after the count gives the
      table `Parse` reads. */
  lemma ParsedWords(bytes: seq<Byte>, a: seq<U16>, n: nat)
    requires |bytes| >= 2 && n == ParseCount(bytes) && 2 * n <= |a| && 2 + 2 * (2 * n) <= |bytes|
    requires forall j :: 0 <= j < 2 * n ==> a[j] == WordOf(bytes[2 + 2 * j], bytes[3 + 2 * j])
    ensures Parse(bytes).Success? && RunsOf(a, n) == Parse(bytes).value
  {
    forall i | 0 <= i < n ensures RunsOf(a, n)[i] == Parse(bytes).value[i] {
      assert a[2 * i] == WordOf(bytes[2 + 2 * (2 * i)], bytes[3 + 2 * (2 * i)]);
      assert a[2 * i + 1] == WordOf(bytes[2 + 2 * (2 * i + 1)], bytes[3 + 2 * (2 * i + 1)]);
    }
  }

  // -----------------------------------------------------------------------
  // Growth of the buffer

  /** The buffer length `increaseCapacity` moves to. */
  function NewCapacity(length: nat): (c: nat)
    ensures length < c
  {
    if length == 0 then DEFAULT_INIT_SIZE
    else if length < 64 then length * 2
    else if length < 1024 then length * 3 / 2
    else length * 5 / 4
  }

  /** When `makeRoomAtIndex` must grow the buffer: one more run does not fit. */
  predicate NeedsGrowth(length: nat, n: nat)
  {
    2 * n + 2 > length
  }

  /** The test RunContainer.java:642 makes instead: the buffer is exactly full. */
  predicate FullAsWritten(length: nat, n: nat)
  {
    2 * n == length
  }

  /** One growth step always makes room for one more run. */
  lemma GrowthSuffices(length: nat, n: nat)
    requires 2 * n <= length
    ensures 2 * n + 2 <= NewCapacity(length)
  {
  }

  /** On an even buffer length the source's test is the right one. */
  lemma FullAsWrittenOnEven(length: nat, n: nat)
    requires 2 * n <= length && length % 2 == 0
    ensures FullAsWritten(length, n) <==> NeedsGrowth(length, n)
  {
  }

  /** The buffer length after `times` growth steps. */
  function Grown(length: nat, times: nat): nat
    decreases times
  {
    if times == 0 then length else Grown(NewCapacity(length), times - 1)
  }

  /** From the default buffer of 8 slots the growth rule reaches 729 slots
      after nine steps.  With 364 runs such a buffer has one slot left, the
      source's test does not fire, and the copy that shifts the runs up by
      one needs a destination window ending at slot 730: `System.arraycopy`
      rejects it with an `IndexOutOfBoundsException`, so `add` fails on a
      valid container. */
  lemma OddCapacityCounterexample()
    ensures Grown(2 * DEFAULT_INIT_SIZE, 9) == 729
    ensures 2 * 364 <= 729 && !FullAsWritten(729, 364) && NeedsGrowth(729, 364)
    ensures 2 * (364 + 1) > 729
  {
    assert Grown(486, 1) == 729;
    assert Grown(324, 2) == 729;
    assert Grown(216, 3) == 729;
    assert Grown(144, 4) == 729;
    assert Grown(96, 5) == 729;
    assert Grown(64, 6) == 729;
    assert Grown(32, 7) == 729;
    assert Grown(16, 8) == 729;
  }

  /** The sign-extended comparison RunContainer.java:134 makes between the
      first run's start and `k + 1`. */
  predicate ExtendsFirstRunAsWritten(first: U16, k: U16)
  {
    Signed(first) == Signed(k) + 1
  }

  /** The comparison the unsigned sibling test at RunContainer.java:123
      makes: the first run starts right after `k`. */
  predicate ExtendsFirstRun(first: U16, k: U16)
  {
    first == k + 1
  }

  /** For a first run starting above `k` (the only case the test sees) the
      two tests agree except for k = 32767 in front of a run at 32768, where
      the signed test misses the extension. */
  lemma ExtendsFirstRunDiffers(first: U16, k: U16)
    requires k < first
    ensures ExtendsFirstRunAsWritten(first, k) ==> ExtendsFirstRun(first, k)
    ensures ExtendsFirstRun(first, k) && !ExtendsFirstRunAsWritten(first, k) <==> k == 0x7FFF && first == 0x8000
  {
  }

  /** Following the signed test on k = 32767 with a first run at 32768, `add`
      inserts the singleton {32767} right before it: two adjacent runs, no
      longer canonical. */
  lemma ExtendsFirstRunCounterexample(len: U16)
    requires 0x8000 + len <= 0xFFFF
    ensures !ExtendsFirstRunAsWritten(0x8000, 0x7FFF)
    ensures Canonical([Run(0x8000, len)])
    ensures !Canonical([Run(0x7FFF, 0), Run(0x8000, len)])
  {
    var two := [Run(0x7FFF, 0), Run(0x8000, len)];
    assert End(two[0]) + 1 == two[1].start;
    var one := [Run(0x8000, len)];
    assert End(one[0]) <= 0xFFFF;
  }

  class RunContainer {
    var valueslength: array<U16>
    var nbrruns: nat

    /** The live runs fit in the buffer. */
    ghost predicate WellFormed()
      reads this
    {
      2 * nbrruns <= valueslength.Length
    }

    /** The live runs. */
    ghost function Table(): seq<Run>
      reads this, valueslength
      requires WellFormed()
    {
      RunsOf(valueslength[..], nbrruns)
    }

    /** The set the container stands for. */
    ghost function Content(): set<int>
      reads this, valueslength
      requires WellFormed()
    {
      Elements(Table())
    }

    ghost predicate Valid()
      reads this, valueslength
    {
      WellFormed() && Canonical(Table())
    }

    /** `RunContainer()`: empty, with room for DEFAULT_INIT_SIZE runs. */
    constructor ()
      ensures Valid() && Table() == [] && Content() == {}
      ensures fresh(valueslength) && valueslength.Length == 2 * DEFAULT_INIT_SIZE
    {
      valueslength := new U16[2 * DEFAULT_INIT_SIZE](_ => 0);
      nbrruns := 0;
    }

    /** `RunContainer(capacity)`: empty, with room for `capacity` runs. */
    constructor WithCapacity(capacity: nat)
      ensures Valid() && Table() == [] && Content() == {}
      ensures fresh(valueslength) && valueslength.Length == 2 * capacity
    {
      valueslength := new U16[2 * capacity](_ => 0);
      nbrruns := 0;
    }

    /** The private `RunContainer(nbrruns, valueslength)`: takes a copy of
        the buffer. */
    constructor FromArray(n: nat, a: array<U16>)
      requires 2 * n <= a.Length
      ensures WellFormed() && nbrruns == n
      ensures fresh(valueslength) && valueslength[..] == a[..]
      ensures Table() == RunsOf(a[..], n)
    {
      var b := CopyOf(a, a.Length);
      assert b[..] == a[..];
      valueslength := b;
      nbrruns := n;
    }

    // ---------------------------------------------------------------------
    // Reading and writing one slot

    method GetValue(index: int) returns (v: U16)
      requires WellFormed() && 0 <= index < nbrruns
      ensures v == Table()[index].start
    {
      v := valueslength[2 * index];
    }

    method GetLength(index: int) returns (l: U16)
      requires WellFormed() && 0 <= index < nbrruns
      ensures l == Table()[index].len
    {
      l := valueslength[2 * index + 1];
    }

    /** The static `setValue(valueslength, index, v)`. */
    static method SetValueIn(a: array<U16>, index: int, v: U16)
      requires 0 <= index && 2 * index < a.Length
      modifies a
      ensures a[..] == old(a[..])[2 * index := v]
    {
      a[2 * index] := v;
    }

    /** The static `setLength(valueslength, index, v)`. */
    static method SetLengthIn(a: array<U16>, index: int, v: U16)
      requires 0 <= index && 2 * index + 1 < a.Length
      modifies a
      ensures a[..] == old(a[..])[2 * index + 1 := v]
    {
      a[2 * index + 1] := v;
    }

    method SetValue(index: int, v: U16)
      requires WellFormed() && 0 <= index < nbrruns
      modifies valueslength
      ensures WellFormed() && Table() == old(Table())[index := Run(v, old(Table())[index].len)]
    {
      SetValueIn(valueslength, index, v);
      assert Table() == old(Table())[index := Run(v, old(Table())[index].len)];
    }

    method SetLength(index: int, l: U16)
      requires WellFormed() && 0 <= index < nbrruns
      modifies valueslength
      ensures WellFormed() && Table() == old(Table())[index := Run(old(Table())[index].start, l)]
    {
      SetLengthIn(valueslength, index, l);
      assert Table() == old(Table())[index := Run(old(Table())[index].start, l)];
    }

    /** `valueslength[2*index]++` on a `short`: wraps at 2^16. */
    method IncrementValue(index: int)
      requires WellFormed() && 0 <= index < nbrruns
      modifies valueslength
      ensures WellFormed()
      ensures Table() == old(Table())[index := Run(ToShort(old(Table())[index].start + 1), old(Table())[index].len)]
    {
      var v := GetValue(index);
      SetValue(index, ToShort(v as int + 1));
    }

    method DecrementValue(index: int)
      requires WellFormed() && 0 <= index < nbrruns
      modifies valueslength
      ensures WellFormed()
      ensures Table() == old(Table())[index := Run(ToShort(old(Table())[index].start - 1), old(Table())[index].len)]
    {
      var v := GetValue(index);
      SetValue(index, ToShort(v as int - 1));
    }

    method IncrementLength(index: int)
      requires WellFormed() && 0 <= index < nbrruns
      modifies valueslength
      ensures WellFormed()
      ensures Table() == old(Table())[index := Run(old(Table())[index].start, ToShort(old(Table())[index].len + 1))]
    {
      var l := GetLength(index);
      SetLength(index, ToShort(l as int + 1));
    }

    method DecrementLength(index: int)
      requires WellFormed() && 0 <= index < nbrruns
      modifies valueslength
      ensures WellFormed()
      ensures Table() == old(Table())[index := Run(old(Table())[index].start, ToShort(old(Table())[index].len - 1))]
    {
      var l := GetLength(index);
      SetLength(index, ToShort(l as int - 1));
    }

    // ---------------------------------------------------------------------
    // Moving runs

    /** `copyValuesLength`: `System.arraycopy` of `length` whole runs. */
    static method CopyValuesLength(src: array<U16>, srcIndex: int, dst: array<U16>, dstIndex: int, length: int)
      requires 0 <= srcIndex && 0 <= dstIndex && 0 <= length
      requires 2 * (srcIndex + length) <= src.Length && 2 * (dstIndex + length) <= dst.Length
      modifies dst
      ensures dst[..] == old(dst[..])[..2 * dstIndex] + old(src[..])[2 * srcIndex..2 * (srcIndex + length)]
        + old(dst[..])[2 * (dstIndex + length)..]
    {
      ArrayCopy(src, 2 * srcIndex, dst, 2 * dstIndex, 2 * length);
    }

    /** `increaseCapacity`: a fresh, larger buffer holding the same runs. */
    method IncreaseCapacity()
      requires WellFormed()
      modifies this
      ensures WellFormed() && nbrruns == old(nbrruns)
      ensures fresh(valueslength) && valueslength.Length == NewCapacity(old(valueslength.Length))
      ensures Table() == old(Table())
    {
      var newCapacity := NewCapacity(valueslength.Length);
      var nv := new U16[newCapacity](_ => 0);
      ArrayCopy(valueslength, 0, nv, 0, 2 * nbrruns);
      valueslength := nv;
      forall i | 0 <= i < nbrruns ensures Table()[i] == old(Table())[i] {
        assert nv[2 * i] == old(valueslength[2 * i]) && nv[2 * i + 1] == old(valueslength[2 * i + 1]);
      }
    }

    /** `makeRoomAtIndex`: opens a gap at run `index` by shifting the runs
        from there up by one, growing the buffer first when one more run
        does not fit (the corrected test of NeedsGrowth).  The run left at
        `index` is whatever the slot held; the caller overwrites it. */
    method MakeRoomAtIndex(index: int)
      requires WellFormed() && 0 <= index <= nbrruns
      modifies this, valueslength
      ensures WellFormed() && nbrruns == old(nbrruns) + 1
      ensures valueslength == old(valueslength) || fresh(valueslength)
      ensures Table() == old(Table())[..index] + [Table()[index]] + old(Table())[index..]
    {
      if NeedsGrowth(valueslength.Length, nbrruns) {
        GrowthSuffices(valueslength.Length, nbrruns);
        IncreaseCapacity();
      }
      OpenRoom(index);
    }

    /** The copy of `makeRoomAtIndex` once one more run fits: runs from
        `index` on move up by one. */
    method OpenRoom(index: int)
      requires WellFormed() && 0 <= index <= nbrruns && 2 * (nbrruns + 1) <= valueslength.Length
      modifies this, valueslength
      ensures WellFormed() && nbrruns == old(nbrruns) + 1 && valueslength == old(valueslength)
      ensures Table() == old(Table())[..index] + [Table()[index]] + old(Table())[index..]
    {
      var n := nbrruns;
      ghost var a := valueslength[..];
      CopyValuesLength(valueslength, index, valueslength, index + 1, n - index);
      ShiftUp(a, valueslength[..], n, index);
      nbrruns := n + 1;
    }

    /** `recoverRoomAtIndex`: closes run `index` by shifting the later runs
        down by one. */
    method RecoverRoomAtIndex(index: int)
      requires WellFormed() && 0 <= index < nbrruns
      modifies this, valueslength
      ensures WellFormed() && nbrruns == old(nbrruns) - 1 && valueslength == old(valueslength)
      ensures Table() == old(Table())[..index] + old(Table())[index + 1..]
    {
      var n := nbrruns;
      ghost var a := valueslength[..];
      CopyValuesLength(valueslength, index + 1, valueslength, index, n - index - 1);
      ShiftDown(a, valueslength[..], n, index);
      nbrruns := n - 1;
    }

    // ---------------------------------------------------------------------
    // Search

    /** `unsignedInterleavedBinarySearch(array, begin, end, k)` over the
        starts of runs begin .. end-1: the index of a run starting at `k`,
        or -(p+1) where p is the first run starting above `k`. */
    static method UnsignedInterleavedBinarySearch(arr: array<U16>, begin: int, end: int, k: U16) returns (r: int)
      requires 0 <= begin <= end && 2 * end <= arr.Length
      ensures r >= 0 ==> begin <= r < end && RunsOf(arr[..], end)[r].start == k
      ensures r < 0 ==> begin <= -(r + 1) <= end
      ensures StartsIncreasing(RunsOf(arr[..], end), begin) && r < 0 ==>
        && (forall i :: begin <= i < -(r + 1) ==> RunsOf(arr[..], end)[i].start < k)
        && (forall i :: -(r + 1) <= i < end ==> k < RunsOf(arr[..], end)[i].start)
    {
      ghost var rs := RunsOf(arr[..], end);
      var low := begin;
      var high := end - 1;
      while low <= high
        invariant begin <= low <= high + 1 <= end
        invariant StartsIncreasing(rs, begin) ==>
          && (forall i :: begin <= i < low ==> rs[i].start < k)
          && (forall i :: high < i < end ==> k < rs[i].start)
      {
        var middleIndex := (low + high) / 2;
        var middleValue := arr[2 * middleIndex];
        assert middleValue == rs[middleIndex].start;
        if middleValue < k {
          low := middleIndex + 1;
        } else if middleValue > k {
          high := middleIndex - 1;
        } else {
          return middleIndex;
        }
      }
      return -(low + 1);
    }

    /** The run `contains`, `add` and `remove` look at, from the search. */
    method Search(x: U16) returns (found: bool, p: int)
      requires Valid()
      ensures Preceding(Table(), p, x)
      ensures found <==> p >= 0 && Table()[p].start == x
    {
      ghost var rs := Table();
      assert StartsIncreasing(rs, 0);
      var index := UnsignedInterleavedBinarySearch(valueslength, 0, nbrruns, x);
      if index >= 0 {
        found, p := true, index;
        forall i | 0 <= i <= p ensures rs[i].start <= x {
          assert i == p || rs[i].start < rs[p].start;
        }
        forall i | p < i < |rs| ensures x < rs[i].start {
          assert rs[p].start < rs[i].start;
        }
      } else {
        found, p := false, -index - 2;
      }
    }

    // ---------------------------------------------------------------------
    // Membership and single-value mutations

    /** `contains(x)`. */
    method Contains(x: U16) returns (b: bool)
      requires Valid()
      ensures b <==> x in Content()
      ensures b <==> exists i :: 0 <= i < |Table()| && InRun(Table()[i], x)
    {
      ghost var rs := Table();
      ElementsMember(rs, x);
      var found, index := Search(x);
      if found {
        assert InRun(rs[index], x);
        return true;
      }
      Locate(rs, index, x);
      if index != -1 {
        var v := GetValue(index);
        var le := GetLength(index);
        var offset := x - v;
        if offset <= le {
          return true;
        }
      }
      return false;
    }

    /** `add(k)`: fuses with, extends or prepends to a neighbouring run, or
        inserts a singleton; leaves the table alone when `k` is stored.  The
        extension of the first run uses the unsigned test ExtendsFirstRun
        (the source's signed test is ExtendsFirstRunAsWritten). */
    method Add(k: U16)
      requires Valid()
      modifies this, valueslength
      ensures Valid() && Content() == old(Content()) + {k}
      ensures k in old(Content()) ==> Table() == old(Table())
      ensures valueslength == old(valueslength) || fresh(valueslength)
    {
      ghost var rs := Table();
      var found, index := Search(k);
      Locate(rs, index, k);
      if found {
        return;
      }
      if index >= 0 {
        var v := GetValue(index);
        var le := GetLength(index);
        var offset := k - v;
        if offset <= le {
          return;
        }
        if offset == le + 1 {
          if index + 1 < nbrruns {
            var v1 := GetValue(index + 1);
            if v1 == k + 1 {
              FuseRuns(index, k);
              return;
            }
          }
          ExtendRunEnd(index, k);
          return;
        }
        if index + 1 < nbrruns {
          var v1 := GetValue(index + 1);
          if v1 == k + 1 {
            PrependToRun(index + 1, k);
            return;
          }
        }
      }
      if index == -1 {
        if 0 < nbrruns {
          var v0 := GetValue(0);
          if ExtendsFirstRun(v0, k) {
            ExtendFirstRun(k);
            return;
          }
        }
      }
      InsertRun(index, k);
    }

    /** `add`, `k` closing the gap between runs `index` and `index + 1`: run
        `index` absorbs `k` and the next run, which is then closed. */
    method FuseRuns(index: int, k: U16)
      requires Valid() && 0 <= index && index + 1 < nbrruns
      requires k == End(Table()[index]) + 1 && Table()[index + 1].start == k + 1
      modifies this, valueslength
      ensures Valid() && Content() == old(Content()) + {k}
      ensures valueslength == old(valueslength)
    {
      ghost var rs := Table();
      var v := GetValue(index);
      var v1 := GetValue(index + 1);
      var l1 := GetLength(index + 1);
      CastCongruent(Signed(v1) + Signed(l1) - Signed(v), v1 + l1 - v);
      CloseInto(index, ToShort(Signed(v1) + Signed(l1) - Signed(v)));
      assert Table() == rs[..index] + [Run(rs[index].start, End(rs[index + 1]) - rs[index].start)] + rs[index + 2..];
      AddFuse(rs, index, k);
    }

    /** `setLength(index, l)` followed by `recoverRoomAtIndex(index + 1)`:
        run `index`, now of length `l`, takes the place of it and the next. */
    method CloseInto(index: int, l: U16)
      requires WellFormed() && 0 <= index && index + 1 < nbrruns
      modifies this, valueslength
      ensures WellFormed()
      ensures Table() == old(Table())[..index] + [Run(old(Table())[index].start, l)] + old(Table())[index + 2..]
      ensures valueslength == old(valueslength)
    {
      ghost var rs := Table();
      SetLength(index, l);
      UpdateCloseSplice(rs, index, Run(rs[index].start, l));
      RecoverRoomAtIndex(index + 1);
    }

    /** `add`, `k` just after run `index` and not just before the next one:
        `incrementLength(index)`. */
    method ExtendRunEnd(index: int, k: U16)
      requires Valid() && 0 <= index < nbrruns
      requires k == End(Table()[index]) + 1
      requires index + 1 < nbrruns ==> Table()[index + 1].start != k + 1
      modifies this, valueslength
      ensures Valid() && Content() == old(Content()) + {k}
      ensures valueslength == old(valueslength)
    {
      ghost var rs := Table();
      AddExtendEnd(rs, index, k);
      IncrementLength(index);
      UpdateSplice(rs, index, Run(rs[index].start, rs[index].len + 1));
      assert Table() == rs[..index] + [Run(rs[index].start, rs[index].len + 1)] + rs[index + 1..];
    }

    /** `add`, `k` just before run `index` and apart from the run before:
        run `index` starts at `k` and grows by one. */
    method PrependToRun(index: int, k: U16)
      requires Valid() && 0 <= index < nbrruns
      requires Table()[index].start == k + 1
      requires index > 0 ==> End(Table()[index - 1]) + 1 < k
      modifies this, valueslength
      ensures Valid() && Content() == old(Content()) + {k}
      ensures valueslength == old(valueslength)
    {
      ghost var rs := Table();
      AddPrepend(rs, index, k);
      var l := GetLength(index);
      SetValue(index, k);
      CastCongruent(Signed(l) + 1, l as int + 1);
      SetLength(index, ToShort(Signed(l) + 1));
      UpdateSplice(rs, index, Run(k, l + 1));
      assert Table() == rs[..index] + [Run(k, l + 1)] + rs[index + 1..];
    }

    /** `add`, `k` just before the first run and below every run:
        `incrementLength(0); decrementValue(0)`. */
    method ExtendFirstRun(k: U16)
      requires Valid() && 0 < nbrruns
      requires ExtendsFirstRun(Table()[0].start, k)
      modifies this, valueslength
      ensures Valid() && Content() == old(Content()) + {k}
      ensures valueslength == old(valueslength)
    {
      ghost var rs := Table();
      AddPrepend(rs, 0, k);
      IncrementLength(0);
      DecrementValue(0);
      UpdateSplice(rs, 0, Run(k, rs[0].len + 1));
      assert Table() == rs[..0] + [Run(k, rs[0].len + 1)] + rs[1..];
    }

    /** `add`, `k` touching no run: a singleton goes in after run `index`. */
    method InsertRun(index: int, k: U16)
      requires Valid() && -1 <= index < nbrruns
      requires index >= 0 ==> End(Table()[index]) + 1 < k
      requires index + 1 < nbrruns ==> k + 1 < Table()[index + 1].start
      modifies this, valueslength
      ensures Valid() && Content() == old(Content()) + {k}
      ensures valueslength == old(valueslength) || fresh(valueslength)
    {
      ghost var rs := Table();
      PutRun(index + 1, k, 0);
      AddInsert(rs, index, k);
    }

    /** `makeRoomAtIndex(index)` followed by `setValue(index, v)` and
        `setLength(index, l)`: run `Run(v, l)` goes in at `index`. */
    method PutRun(index: int, v: U16, l: U16)
      requires WellFormed() && 0 <= index <= nbrruns
      modifies this, valueslength
      ensures WellFormed() && Table() == old(Table())[..index] + [Run(v, l)] + old(Table())[index..]
      ensures valueslength == old(valueslength) || fresh(valueslength)
    {
      ghost var rs := Table();
      MakeRoomAtIndex(index);
      ghost var g := Table()[index];
      SetValue(index, v);
      SetLength(index, l);
      SpliceUpdate(rs[..index], g, rs[index..], Run(v, g.len), Run(v, l));
    }

    /** `remove(x)`: closes a singleton run, shifts a run's start, splits a
        run in two or shortens a run's end; leaves the table alone when `x`
        is not stored. */
    method Remove(x: U16)
      requires Valid()
      modifies this, valueslength
      ensures Valid() && Content() == old(Content()) - {x}
      ensures x !in old(Content()) ==> Table() == old(Table())
      ensures valueslength == old(valueslength) || fresh(valueslength)
    {
      ghost var rs := Table();
      var found, index := Search(x);
      Locate(rs, index, x);
      if found {
        var le := GetLength(index);
        if le == 0 {
          CloseRun(index);
        } else {
          ShiftRunStart(index);
        }
        return;
      }
      if 0 <= index < nbrruns {
        var v := GetValue(index);
        var le := GetLength(index);
        var offset := x - v;
        if offset < le {
          SplitRun(index, x);
        } else if offset == le {
          ShortenRunEnd(index);
        }
      }
    }

    /** `remove`, `x` is a singleton run: `recoverRoomAtIndex(index)`. */
    method CloseRun(index: int)
      requires Valid() && 0 <= index < nbrruns && Table()[index].len == 0
      modifies this, valueslength
      ensures Valid() && Content() == old(Content()) - {old(Table())[index].start}
      ensures valueslength == old(valueslength)
    {
      ghost var rs := Table();
      RecoverRoomAtIndex(index);
      RemoveSingleton(rs, index);
    }

    /** `remove`, `x` starts a longer run: `incrementValue(index);
        decrementLength(index)`. */
    method ShiftRunStart(index: int)
      requires Valid() && 0 <= index < nbrruns && 0 < Table()[index].len
      modifies this, valueslength
      ensures Valid() && Content() == old(Content()) - {old(Table())[index].start}
      ensures valueslength == old(valueslength)
    {
      ghost var rs := Table();
      RemoveStart(rs, index);
      IncrementValue(index);
      DecrementLength(index);
      ghost var r := Run(rs[index].start + 1, rs[index].len - 1);
      SpliceUpdate(rs[..index], rs[index], rs[index + 1..], Run(r.start, rs[index].len), r);
      assert rs == rs[..index] + [rs[index]] + rs[index + 1..];
      assert Table() == rs[..index] + [r] + rs[index + 1..];
    }

    /** `remove`, `x` ends a longer run: `decrementLength(index)`. */
    method ShortenRunEnd(index: int)
      requires Valid() && 0 <= index < nbrruns && 0 < Table()[index].len
      modifies this, valueslength
      ensures Valid() && Content() == old(Content()) - {End(old(Table())[index])}
      ensures valueslength == old(valueslength)
    {
      ghost var rs := Table();
      DecrementLength(index);
      UpdateSplice(rs, index, Run(rs[index].start, rs[index].len - 1));
      assert Table() == rs[..index] + [Run(rs[index].start, rs[index].len - 1)] + rs[index + 1..];
      RemoveEnd(rs, index);
    }

    /** `remove`, `x` strictly inside run `index`: the run ends before `x`
        and a new run after it holds the rest. */
    method SplitRun(index: int, x: U16)
      requires Valid() && 0 <= index < nbrruns
      requires Table()[index].start < x < End(Table()[index])
      modifies this, valueslength
      ensures Valid() && Content() == old(Content()) - {x}
      ensures valueslength == old(valueslength) || fresh(valueslength)
    {
      ghost var rs := Table();
      var v := GetValue(index);
      var le := GetLength(index);
      var offset := x - v;
      SetLength(index, ToShort(offset - 1));
      ghost var mid := Table();
      PutRun(index + 1, ToShort(x as int + 1), ToShort(le - offset - 1));
      ghost var lo, hi := Run(v, offset - 1), Run(x + 1, le - offset - 1);
      SplitSplice(rs, index, lo, hi);
      assert Table() == rs[..index] + [lo, hi] + rs[index + 1..];
      RemoveSplit(rs, index, x);
    }

    // ---------------------------------------------------------------------
    // Range addition

    /** `iadd(begin, end)`: a new container holding [begin, end) as well;
        the receiver is left as it is.  The new run starts in the run
        holding `begin` or just after it, and ends in the run holding
        `end - 1` or in the run starting at `end`; the runs in between are
        dropped. */
    method IAdd(begin: int, end: int) returns (rc: RunContainer)
      requires Valid() && 0 <= begin < end <= 0x1_0000
      ensures fresh(rc) && fresh(rc.valueslength) && rc.Valid()
      ensures rc.Content() == Content() + Interval(begin, end)
      ensures rc.valueslength.Length == 2 * rc.nbrruns
    {
      ghost var rs := Table();
      var p, bIndex, value := MergeStart(begin);
      var length := end - value - 1;
      var q, eIndex, extra := MergeEnd(end);
      length := length + extra;
      RangeMerge(rs, p, q, begin, end, bIndex, eIndex, value, length);
      rc := CopyMerged(bIndex, eIndex, ToShort(value), ToShort(length));
    }

    /** The lower end of `iadd`: the search for `begin`, then run `bIndex`
        is absorbed when `begin` lies in it or just past it. */
    method MergeStart(begin: int) returns (p: int, bIndex: int, value: int)
      requires Valid() && 0 <= begin < 0x1_0000
      ensures Preceding(Table(), p, begin) && LowerMerge(Table(), p, begin, bIndex, value)
    {
      var found;
      found, bIndex := Search(ToShort(begin));
      p := bIndex;
      value := begin;
      if bIndex >= 0 {
        var bValue := GetValue(bIndex);
        var bOffset := begin - bValue;
        var bLength := GetLength(bIndex);
        if bOffset <= bLength + 1 {
          bIndex := bIndex - 1;
          value := bValue;
        }
      }
    }

    /** The upper end of `iadd`: the search for `end - 1`, then the new run
        reaches the end of run `eIndex` when that lies beyond `end - 1`, and
        takes in the next run when it starts at `end`.  `extra` is how far
        past `end - 1` the new run reaches. */
    method MergeEnd(end: int) returns (q: int, eIndex: int, extra: int)
      requires Valid() && 0 < end <= 0x1_0000
      ensures Preceding(Table(), q, end - 1) && UpperMerge(Table(), q, end, eIndex, end + extra)
    {
      var found;
      found, eIndex := Search(ToShort(end - 1));
      q := eIndex;
      extra := 0;
      if eIndex == -1 {
        var neIndex := eIndex + 1;
        if neIndex < nbrruns {
          var neValue := GetValue(neIndex);
          if neValue == end {
            eIndex := eIndex + 1;
            var neLength := GetLength(neIndex);
            extra := extra + neLength + 1;
          }
        }
      } else {
        var eValue := GetValue(eIndex);
        var eOffset := (end - 1) - eValue;
        var eLength := GetLength(eIndex);
        if eOffset < eLength {
          extra := extra + eLength - eOffset;
        }
        var neIndex := eIndex + 1;
        if neIndex < nbrruns {
          var neValue := GetValue(neIndex);
          if neValue == end {
            eIndex := eIndex + 1;
            var neLength := GetLength(neIndex);
            extra := extra + neLength + 1;
          }
        }
      }
    }

    /** The buffer `iadd` fills: runs `0 .. b` of `src`, the merged run, and
        runs from `e + 1` on, in a fresh array of exactly that many runs. */
    static method MergedCopy(src: array<U16>, nr: nat, b: int, e: int, value: U16, length: U16)
      returns (nv: array<U16>)
      requires 2 * nr <= src.Length && -1 <= b <= e < nr
      ensures fresh(nv) && nv.Length == 2 * (nr - (e - (b + 1)))
      ensures RunsOf(nv[..], nr - (e - (b + 1))) == RunsOf(src[..], nr)[..b + 1] + [Run(value, length)] + RunsOf(src[..], nr)[e + 1..]
    {
      ghost var w := src[..];
      var n := nr - (e - (b + 1));
      nv := new U16[2 * n](_ => 0);
      ghost var z := nv[..];
      CopyValuesLength(src, 0, nv, 0, b + 1);
      ghost var c1 := nv[..];
      assert c1 == z[..2 * 0] + w[2 * 0..2 * (0 + (b + 1))] + z[2 * (0 + (b + 1))..];
      assert src[..] == w;
      ghost var c2 := c1;
      if e + 1 < nr {
        CopyValuesLength(src, e + 1, nv, b + 2, nr - 1 - e);
        c2 := nv[..];
        assert c2 == c1[..2 * (b + 2)] + w[2 * (e + 1)..2 * (e + 1 + (nr - 1 - e))] + c1[2 * (b + 2 + (nr - 1 - e))..];
        assert src[..] == w;
      }
      SetValueIn(nv, b + 1, value);
      SetLengthIn(nv, b + 1, length);
      assert src[..] == w;
      MergedArray(w, z, c1, c2, nv[..], nr, b, e, value, length);
    }

    /** The end of `iadd`: a buffer of exactly the new runs, runs `0 .. b`,
        then Run(value, length), then runs `e + 1 ..`. */
    method CopyMerged(b: int, e: int, value: U16, length: U16) returns (rc: RunContainer)
      requires WellFormed() && -1 <= b <= e < nbrruns
      ensures fresh(rc) && fresh(rc.valueslength) && rc.WellFormed()
      ensures rc.valueslength.Length == 2 * rc.nbrruns
      ensures rc.Table() == Table()[..b + 1] + [Run(value, length)] + Table()[e + 1..]
    {
      var n := nbrruns - (e - (b + 1));
      var nv := MergedCopy(valueslength, nbrruns, b, e, value, length);
      rc := new RunContainer.FromArray(n, nv);
    }

    /** `add(begin, end)`: `iadd` on a clone. */
    method AddRange(begin: int, end: int) returns (rc: RunContainer)
      requires Valid() && 0 <= begin < end <= 0x1_0000
      ensures fresh(rc) && rc.Valid()
      ensures rc.Content() == Content() + Interval(begin, end)
      ensures rc.valueslength.Length == 2 * rc.nbrruns
    {
      var c := Clone();
      rc := c.IAdd(begin, end);
    }

    // ---------------------------------------------------------------------
    // Whole-container operations

    /** `flip(x)`: `remove(x)` when `x` is stored, `add(x)` otherwise. */
    method Flip(x: U16)
      requires Valid()
      modifies this, valueslength
      ensures Valid()
      ensures x in Content() <==> x !in old(Content())
      ensures Content() - {x} == old(Content()) - {x}
      ensures valueslength == old(valueslength) || fresh(valueslength)
    {
      var b := Contains(x);
      if b {
        Remove(x);
      } else {
        Add(x);
      }
    }

    /** `clear()`: no runs; the buffer is kept. */
    method Clear()
      requires WellFormed()
      modifies this
      ensures Valid() && Table() == [] && Content() == {}
      ensures valueslength == old(valueslength)
    {
      nbrruns := 0;
    }

    /** `clone()`: a container of its own over a copy of the whole buffer. */
    method Clone() returns (rc: RunContainer)
      requires WellFormed()
      ensures fresh(rc) && fresh(rc.valueslength)
      ensures rc.WellFormed() && rc.Table() == Table()
      ensures rc.valueslength[..] == valueslength[..]
    {
      rc := new RunContainer.FromArray(nbrruns, valueslength);
    }

    /** `trim()`: shrinks the buffer to exactly the live runs. */
    method Trim()
      requires WellFormed()
      modifies this
      ensures WellFormed() && Table() == old(Table()) && nbrruns == old(nbrruns)
      ensures valueslength.Length == 2 * nbrruns
      ensures valueslength == old(valueslength) || fresh(valueslength)
    {
      if valueslength.Length == 2 * nbrruns {
        return;
      }
      var nv := CopyOf(valueslength, 2 * nbrruns);
      assert forall k :: 0 <= k < 2 * nbrruns ==> nv[k] == valueslength[k];
      valueslength := nv;
      assert Table() == old(Table());
    }

    // ---------------------------------------------------------------------
    // Counting and ranking

    /** `getCardinality()`: the sum of the run lengths, which for a valid
        container is the number of values stored. */
    method GetCardinality() returns (sum: int)
      requires WellFormed()
      ensures sum == Cardinality(Table())
      ensures Valid() ==> sum == |Content()|
    {
      ghost var rs := Table();
      sum := 0;
      var k := 0;
      while k < nbrruns
        invariant 0 <= k <= nbrruns
        invariant sum == Cardinality(rs[..k])
      {
        var l := GetLength(k);
        CardinalityStep(rs, k);
        sum := sum + l + 1;
        k := k + 1;
      }
      assert rs[..k] == rs;
      if Valid() {
        ElementsCardinality(rs);
      }
    }

    /** `getArraySizeInBytes()`: the size of what `writeArray` emits. */
    method GetArraySizeInBytes() returns (n: int)
      requires WellFormed()
      ensures n == |Serialize(Table())|
    {
      n := 2 + 4 * nbrruns;
    }

    /** `rank(x)` with the test `value + length >= x`, i.e. `x` in the run:
        the number of stored values at most `x`.  The source's test is one
        wider; see RankAsWritten. */
    method Rank(x: U16) returns (answer: int)
      requires Valid()
      ensures answer == CountAtMost(Values(Table()), x)
      ensures answer == |set v | v in Content() && v <= x|
    {
      ghost var rs := Table();
      ValuesIncreasing(rs);
      CountAtMostIsSetSize(Values(rs), x);
      assert (set v | v in Content() && v <= x) == (set v | v in Values(rs) && v <= x);
      answer := 0;
      var k := 0;
      while k < nbrruns
        invariant 0 <= k <= nbrruns
        invariant answer == Cardinality(rs[..k])
        invariant forall i :: 0 <= i < k ==> End(rs[i]) < x
      {
        var value := GetValue(k);
        var length := GetLength(k);
        if x < value {
          RankAt(rs, k, x);
          return;
        } else if value + length >= x {
          RankAt(rs, k, x);
          answer := answer + x - value + 1;
          return;
        }
        CardinalityStep(rs, k);
        answer := answer + length + 1;
        k := k + 1;
      }
      RankAt(rs, k, x);
    }

    /** `rank(x)` as written at RunContainer.java:436, `value + length + 1 >= x`:
        one too many exactly when `x` is one past the end of a run. */
    method RankAsWritten(x: U16) returns (answer: int)
      requires Valid()
      ensures answer == CountAtMost(Values(Table()), x) + (if OnePastRun(Table(), x) then 1 else 0)
    {
      ghost var rs := Table();
      answer := 0;
      var k := 0;
      while k < nbrruns
        invariant 0 <= k <= nbrruns
        invariant answer == Cardinality(rs[..k])
        invariant forall i :: 0 <= i < k ==> End(rs[i]) + 1 < x
      {
        var value := GetValue(k);
        var length := GetLength(k);
        if x < value {
          RankAt(rs, k, x);
          NotOnePastRun(rs, k, x);
          return;
        } else if value + length + 1 >= x {
          if value + length + 1 == x {
            RankAt(rs, k + 1, x);
            CardinalityStep(rs, k);
            assert OnePastRun(rs, x) by {
              assert End(rs[k]) + 1 == x;
            }
          } else {
            RankAt(rs, k, x);
            NotOnePastRun(rs, k, x);
          }
          answer := answer + x - value + 1;
          return;
        }
        CardinalityStep(rs, k);
        answer := answer + length + 1;
        k := k + 1;
      }
      RankAt(rs, k, x);
      NotOnePastRun(rs, k, x);
    }

    /** `select(j)`: the value of rank `j + 1`; `IllegalArgument` when `j` is
        at least the cardinality.  A negative `j` lands in the first run and
        comes back as `(short)(start + j)`. */
    method Select(j: int) returns (r: Result<U16>)
      requires Valid()
      ensures |Values(Table())| == Cardinality(Table())
      ensures 0 <= j < Cardinality(Table()) ==>
        r.Success? && r.value == Values(Table())[j] && CountAtMost(Values(Table()), r.value) == j + 1
      ensures j >= Cardinality(Table()) ==> r == Failure(IllegalArgument)
      ensures j < 0 ==> r == if nbrruns == 0 then Failure(IllegalArgument) else Success(ToShort(Table()[0].start + j))
    {
      ghost var rs := Table();
      CardinalityLength(rs);
      var offset := 0;
      var k := 0;
      while k < nbrruns
        invariant 0 <= k <= nbrruns
        invariant offset == Cardinality(rs[..k])
        invariant k > 0 ==> offset <= j
      {
        var l := GetLength(k);
        var nextOffset := offset + l + 1;
        if nextOffset > j {
          var v := GetValue(k);
          SelectIn(rs, k, offset, j);
          CastCongruent(Signed(v) + (j - offset), v + (j - offset));
          r := Success(ToShort(Signed(v) + (j - offset)));
          return;
        }
        CardinalityStep(rs, k);
        offset := nextOffset;
        k := k + 1;
      }
      assert rs[..k] == rs;
      r := Failure(IllegalArgument);
    }

    // ---------------------------------------------------------------------
    // Intersection with an array container

    /** `content[cardinality] = v` on the array an intersection fills. */
    static method PutAt(content: array<U16>, cardinality: int, v: U16)
      requires 0 <= cardinality < content.Length
      modifies content
      ensures content[..cardinality + 1] == old(content[..cardinality]) + [v]
    {
      content[cardinality] := v;
      assert content[..cardinality + 1] == old(content[..cardinality]) + [v];
    }

    /** `and(ArrayContainer x)` for the sorted values `x` of an array
        container: a new array container, of capacity `|x|`, holding the
        values of `x` that are stored here, in order.  A cursor walks the
        runs and one the values, skipping ahead with `advanceUntil`. */
    method And(x: seq<U16>) returns (content: array<U16>, cardinality: int)
      requires Valid() && Increasing(x)
      ensures fresh(content) && content.Length == |x| && 0 <= cardinality <= |x|
      ensures content[..cardinality] == KeepIn(x, Content())
      ensures Increasing(content[..cardinality])
    {
      ghost var rs := Table();
      ghost var t := Elements(rs);
      content := new U16[|x|](_ => 0);
      cardinality := 0;
      var rlepos := 0;
      var arraypos := 0;
      while arraypos < |x| && rlepos < nbrruns
        invariant 0 <= arraypos <= |x| && 0 <= rlepos <= nbrruns
        invariant 0 <= cardinality <= arraypos
        invariant content[..cardinality] == KeepIn(x[..arraypos], t)
        invariant rlepos > 0 && arraypos < |x| ==> End(rs[rlepos - 1]) < x[arraypos]
        decreases |x| - arraypos + nbrruns - rlepos
      {
        var value := GetValue(rlepos);
        var length := GetLength(rlepos);
        if value as int + length as int < x[arraypos] {
          rlepos := rlepos + 1;
        } else if value > x[arraypos] {
          var next := AdvanceUntil(x, arraypos, |x|, value);
          KeepPastGap(rs, x, arraypos, next, rlepos);
          if next < |x| {
            assert x[arraypos] < x[next];
          }
          arraypos := next;
        } else {
          KeepInRun(rs, x, arraypos, rlepos);
          PutAt(content, cardinality, x[arraypos]);
          cardinality := cardinality + 1;
          arraypos := arraypos + 1;
          if arraypos < |x| && rlepos > 0 {
            assert x[arraypos - 1] < x[arraypos];
          }
        }
      }
      KeepPastGap(rs, x, arraypos, |x|, rlepos);
      assert x[..|x|] == x;
      KeepInIncreasing(x, t);
    }

    // ---------------------------------------------------------------------
    // Serialization

    /** `writeArray(out)`: the run count cast to `short`, then the live
        words of the buffer, each low byte first. */
    method WriteArray() returns (bytes: seq<Byte>)
      requires WellFormed()
      ensures bytes == Serialize(Table())
      ensures |bytes| == 2 + 4 * nbrruns
    {
      bytes := WordBytes(ToShort(nbrruns));
      var k := 0;
      while k < 2 * nbrruns
        invariant 0 <= k <= 2 * nbrruns
        invariant bytes == WordBytes(ToShort(nbrruns)) + Encode(valueslength[..k])
      {
        EncodeSnoc(valueslength[..], k);
        bytes := bytes + WordBytes(valueslength[k]);
        k := k + 1;
      }
      FlattenRunsOf(valueslength[..], nbrruns);
      assert valueslength[..k] == valueslength[..][..2 * nbrruns];
    }

    /** `deserialize(in)` from the bytes `bytes`, reading the count
        unsigned (the source's signed read is ParseCountAsWritten).  The
        buffer is replaced only when it has fewer than `2 * count` slots.
        `false` stands for the `EOFException` of input that ends inside the
        table; the count and the words read so far, those whose two bytes
        are present, are then already stored. */
    method Deserialize(bytes: seq<Byte>) returns (ok: bool)
      requires WellFormed()
      modifies this, valueslength
      ensures WellFormed()
      ensures ok <==> Parse(bytes).Success?
      ensures ok ==> Table() == Parse(bytes).value
      ensures ok && Canonical(Parse(bytes).value) ==> Valid() && Content() == Elements(Parse(bytes).value)
      ensures |bytes| < 2 ==> nbrruns == old(nbrruns) && valueslength == old(valueslength) && valueslength[..] == old(valueslength[..])
      ensures |bytes| >= 2 ==> nbrruns == ParseCount(bytes)
      ensures |bytes| >= 2 && 2 * nbrruns <= old(valueslength.Length) ==> valueslength == old(valueslength)
      ensures |bytes| >= 2 && old(valueslength.Length) < 2 * nbrruns ==> fresh(valueslength) && valueslength.Length == 2 * nbrruns
      ensures valueslength == old(valueslength) || fresh(valueslength)
      ensures forall j :: 0 <= j < 2 * nbrruns && 3 + 2 * j < |bytes| ==> valueslength[j] == WordOf(bytes[2 + 2 * j], bytes[3 + 2 * j])
    {
      if |bytes| < 2 {
        return false;
      }
      nbrruns := WordOf(bytes[0], bytes[1]);
      assert nbrruns == ParseCount(bytes);
      if valueslength.Length < 2 * nbrruns {
        valueslength := new U16[2 * nbrruns](_ => 0);
      }
      var k := 0;
      while k < 2 * nbrruns
        invariant 0 <= k <= 2 * nbrruns <= valueslength.Length
        invariant 2 + 2 * k <= |bytes|
        modifies valueslength
        invariant forall j :: 0 <= j < k ==> valueslength[j] == WordOf(bytes[2 + 2 * j], bytes[3 + 2 * j])
      {
        if |bytes| < 4 + 2 * k {
          return false;
        }
        valueslength[k] := WordOf(bytes[2 + 2 * k], bytes[3 + 2 * k]);
        k := k + 1;
      }
      ParsedWords(bytes, valueslength[..], nbrruns);
      return true;
    }

    // ---------------------------------------------------------------------
    // Equality

    /** `equals` against another run container: same count, then the same
        start and length run by run. */
    method Equals(other: RunContainer) returns (b: bool)
      requires WellFormed() && other.WellFormed()
      ensures b <==> Table() == other.Table()
      ensures Valid() && other.Valid() ==> (b <==> Content() == other.Content())
    {
      ghost var t, u := Table(), other.Table();
      if Valid() && other.Valid() {
        SameElements(t, u);
      }
      if other.nbrruns != nbrruns {
        return false;
      }
      var i := 0;
      while i < nbrruns
        invariant 0 <= i <= nbrruns
        invariant forall j :: 0 <= j < i ==> t[j] == u[j]
      {
        var v0 := GetValue(i);
        var v1 := other.GetValue(i);
        if v0 != v1 {
          return false;
        }
        var l0 := GetLength(i);
        var l1 := other.GetLength(i);
        if l0 != l1 {
          return false;
        }
        i := i + 1;
      }
      assert t == u;
      return true;
    }
  }

  /** Some run ends just before `x`. */
  ghost predicate OnePastRun(rs: seq<Run>, x: int)
  {
    exists i :: 0 <= i < |rs| && End(rs[i]) + 1 == x
  }

  /** Below run `k`, every run ending at least two before `x`, and `x` not
      past run `k`'s end: no run ends just before `x`. */
  lemma NotOnePastRun(rs: seq<Run>, k: int, x: int)
    requires Canonical(rs) && 0 <= k <= |rs|
    requires forall i :: 0 <= i < k ==> End(rs[i]) + 1 < x
    requires k < |rs| ==> x <= End(rs[k])
    ensures !OnePastRun(rs, x)
  {
    forall i | 0 <= i < |rs| ensures End(rs[i]) + 1 != x {
      if k < i {
        assert End(rs[k]) + 1 < rs[i].start;
      }
    }
  }

  /** The overcount of RankAsWritten happens: with the one run 1..5, the
      value 6 has five stored values at most it. */
  lemma RankOvercountCounterexample()
    ensures CountAtMost(Values([Run(1, 4)]), 6) == 5 && OnePastRun([Run(1, 4)], 6)
  {
    var rs := [Run(1, 4)];
    assert End(rs[0]) + 1 == 6;
    RankAt(rs, 1, 6);
    assert rs[..1] == rs;
    assert Cardinality(rs) == 5 by {
      assert rs[1..] == [];
    }
  }

  /** `iadd` with `begin == end`, which `IAdd` excludes, on the empty
      container with begin = end = 1.  Whatever the two searches return
      (`Preceding`), the merge of `MergeStart` and `MergeEnd` (`LowerMerge`,
      `UpperMerge`) keeps the start 1 and adds nothing past `end`, so the
      length `end - value - 1 + extra` is -1, stored as 65535, and the table
      `CopyMerged` builds, the run 1..65536, is not canonical. */
  lemma EmptyRangeCounterexample(p: int, b: int, value: int, q: int, e: int, extra: int)
    requires Preceding([], p, 1) && LowerMerge([], p, 1, b, value)
    requires Preceding([], q, 1 - 1) && UpperMerge([], q, 1, e, 1 + extra)
    ensures b == -1 && e == -1 && value == 1 && extra == 0
    ensures ToShort(1 - value - 1 + extra) == 0xFFFF
    ensures !Canonical([][..b + 1] + [Run(ToShort(value), ToShort(1 - value - 1 + extra))] + [][e + 1..])
  {
    var rs: seq<Run> := [][..b + 1] + [Run(ToShort(value), ToShort(1 - value - 1 + extra))] + [][e + 1..];
    assert rs == [Run(1, 0xFFFF)];
    assert End(rs[0]) > 0xFFFF;
  }

  /** The same merge with `begin == end` need not break the table: on the one
      run 0..10 with begin = end = 5, the run absorbs both ends (`value` 0,
      `extra` 6, length 10) and `CopyMerged` rebuilds the same canonical
      table. */
  lemma EmptyRangeInsideRun(p: int, b: int, value: int, q: int, e: int, extra: int)
    requires Preceding([Run(0, 10)], p, 5) && LowerMerge([Run(0, 10)], p, 5, b, value)
    requires Preceding([Run(0, 10)], q, 5 - 1) && UpperMerge([Run(0, 10)], q, 5, e, 5 + extra)
    ensures b == -1 && e == 0 && value == 0 && 5 - value - 1 + extra == 10
    ensures [Run(0, 10)][..b + 1] + [Run(ToShort(value), ToShort(5 - value - 1 + extra))] + [Run(0, 10)][e + 1..] == [Run(0, 10)]
    ensures Canonical([Run(0, 10)])
  {
    var rs := [Run(0, 10)];
    assert p == 0 && q == 0;
    assert Reach(rs, q, 5) == 11;
  }

  /** The starts of runs from `begin` on increase. */
  ghost predicate StartsIncreasing(rs: seq<Run>, begin: int)
  {
    forall i, j :: 0 <= i && begin <= i < j < |rs| ==> rs[i].start < rs[j].start
  }
}
