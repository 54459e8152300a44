/** The serialized form of a run container (`writeArray` / `deserialize`):
    the number of runs, then each run's start and length-minus-one, every
    one a 16-bit word written low byte first. */
module RunFormat {
  import opened Shorts
  import opened Outcomes
  import opened Runs

  /** The interleaved layout of `valueslength`: start, length, start, ... */
  function Flatten(rs: seq<Run>): (ws: seq<U16>)
    ensures |ws| == 2 * |rs|
    ensures forall i :: 0 <= i < |rs| ==> ws[2 * i] == rs[i].start && ws[2 * i + 1] == rs[i].len
  {
    if rs == [] then [] else Flatten(rs[..|rs| - 1]) + [rs[|rs| - 1].start, rs[|rs| - 1].len]
  }

  /** The words one after the other, each low byte first. */
  function Encode(ws: seq<U16>): (bs: seq<Byte>)
    ensures |bs| == 2 * |ws|
    ensures forall i :: 0 <= i < |ws| ==> bs[2 * i] == WordBytes(ws[i])[0] && bs[2 * i + 1] == WordBytes(ws[i])[1]
  {
    if ws == [] then [] else Encode(ws[..|ws| - 1]) + WordBytes(ws[|ws| - 1])
  }

  /** Encoding one word more appends its two bytes. */
  lemma EncodeSnoc(ws: seq<U16>, k: int)
    requires 0 <= k < |ws|
    ensures Encode(ws[..k + 1]) == Encode(ws[..k]) + WordBytes(ws[k])
  {
    assert ws[..k + 1][..k] == ws[..k];
  }

  /** What `writeArray` emits for a table: the count cast to `short`, then
      the table's words. */
  function Serialize(rs: seq<Run>): (bs: seq<Byte>)
    ensures |bs| == 2 + 4 * |rs|
  {
    WordBytes(ToShort(|rs|)) + Encode(Flatten(rs))
  }

  /** The run count as `deserialize` should read it: unsigned. */
  function ParseCount(bytes: seq<Byte>): (count: U16)
    requires |bytes| >= 2
    ensures WordBytes(count) == bytes[..2]
  {
    WordOf(bytes[0], bytes[1])
  }

  /** The run count as `deserialize` reads it at RunContainer.java:232:
      `Short.reverseBytes(in.readShort())` assigned to an `int`, which
      sign-extends every count from 32768 up to a negative number. */
  function ParseCountAsWritten(bytes: seq<Byte>): (count: int)
    requires |bytes| >= 2
    ensures count < 0 <==> 0x8000 <= ParseCount(bytes)
    ensures ToShort(count) == ParseCount(bytes)
  {
    Signed(WordOf(bytes[0], bytes[1]))
  }

  /** Reading a table back: the unsigned count, then that many runs; input
      that ends early is `EndOfInput`, bytes after the table are left. */
  function Parse(bytes: seq<Byte>): (r: Result<seq<Run>>)
    ensures r.Success? <==> |bytes| >= 2 && |bytes| >= 2 + 4 * ParseCount(bytes)
    ensures r.Success? ==> |r.value| == ParseCount(bytes)
  {
    if |bytes| < 2 then Failure(EndOfInput)
    else
      var count := ParseCount(bytes);
      if |bytes| < 2 + 4 * count then Failure(EndOfInput)
      else Success(seq(count, i requires 0 <= i < count =>
        Run(WordOf(bytes[2 + 4 * i], bytes[3 + 4 * i]), WordOf(bytes[4 + 4 * i], bytes[5 + 4 * i]))))
  }

  /** The bytes of run `i` in a serialized table. */
  lemma SerializeAt(rs: seq<Run>, i: int)
    requires 0 <= i < |rs|
    ensures Serialize(rs)[2 + 4 * i] == WordBytes(rs[i].start)[0]
    ensures Serialize(rs)[3 + 4 * i] == WordBytes(rs[i].start)[1]
    ensures Serialize(rs)[4 + 4 * i] == WordBytes(rs[i].len)[0]
    ensures Serialize(rs)[5 + 4 * i] == WordBytes(rs[i].len)[1]
  {
    var ws := Flatten(rs);
    var bs := Encode(ws);
    assert Serialize(rs)[2 + 4 * i] == bs[2 * (2 * i)] && Serialize(rs)[3 + 4 * i] == bs[2 * (2 * i) + 1];
    assert Serialize(rs)[4 + 4 * i] == bs[2 * (2 * i + 1)] && Serialize(rs)[5 + 4 * i] == bs[2 * (2 * i + 1) + 1];
  }

  /** Reading back what was written gives the same table, whenever the count
      fits in 16 bits. */
  lemma ParseSerialize(rs: seq<Run>)
    requires |rs| < 0x1_0000
    ensures Parse(Serialize(rs)) == Success(rs)
  {
    var bs := Serialize(rs);
    assert ParseCount(bs) == |rs| by {
      assert bs[..2] == WordBytes(ToShort(|rs|));
      assert WordBytes(ParseCount(bs)) == WordBytes(|rs|);
    }
    var r := Parse(bs).value;
    forall i | 0 <= i < |rs| ensures r[i] == rs[i] {
      SerializeAt(rs, i);
      WordOfBytes(rs[i].start);
      WordOfBytes(rs[i].len);
    }
    assert r == rs;
  }

  /** Whatever `Parse` accepts is exactly the serialization of what it
      returns, followed by the bytes it did not read. */
  lemma SerializeParse(bytes: seq<Byte>)
    requires Parse(bytes).Success?
    ensures Serialize(Parse(bytes).value) == bytes[..2 + 4 * |Parse(bytes).value|]
  {
    var rs := Parse(bytes).value;
    var bs := Serialize(rs);
    var n := |rs|;
    assert bs[..2] == bytes[..2] by {
      assert bs[..2] == WordBytes(ToShort(n));
    }
    forall k | 0 <= k < 2 + 4 * n ensures bs[k] == bytes[k] {
      if k < 2 {
        assert bs[k] == bs[..2][k];
      } else {
        var i := (k - 2) / 4;
        ParsedRunBytes(bytes, i);
        assert k == 2 + 4 * i || k == 3 + 4 * i || k == 4 + 4 * i || k == 5 + 4 * i;
      }
    }
  }

  /** The four bytes of run `i` written back are the four bytes it was
      read from. */
  lemma ParsedRunBytes(bytes: seq<Byte>, i: int)
    requires Parse(bytes).Success? && 0 <= i < |Parse(bytes).value|
    ensures |Serialize(Parse(bytes).value)| <= |bytes|
    ensures Serialize(Parse(bytes).value)[2 + 4 * i] == bytes[2 + 4 * i]
    ensures Serialize(Parse(bytes).value)[3 + 4 * i] == bytes[3 + 4 * i]
    ensures Serialize(Parse(bytes).value)[4 + 4 * i] == bytes[4 + 4 * i]
    ensures Serialize(Parse(bytes).value)[5 + 4 * i] == bytes[5 + 4 * i]
  {
    var rs := Parse(bytes).value;
    ParseAt(bytes, i);
    SerializeAt(rs, i);
    assert WordBytes(rs[i].start) == [bytes[2 + 4 * i], bytes[3 + 4 * i]];
    assert WordBytes(rs[i].len) == [bytes[4 + 4 * i], bytes[5 + 4 * i]];
  }

  /** Run `i` of a parsed table is read from bytes `2 + 4 * i` to `5 + 4 * i`. */
  lemma ParseAt(bytes: seq<Byte>, i: int)
    requires Parse(bytes).Success? && 0 <= i < |Parse(bytes).value|
    ensures Parse(bytes).value[i] == Run(WordOf(bytes[2 + 4 * i], bytes[3 + 4 * i]), WordOf(bytes[4 + 4 * i], bytes[5 + 4 * i]))
  {
  }

  /** Each run of a canonical table starts at least two values after the
      previous one, so run `j` starts at `2 * j` or later. */
  lemma {:induction false} StartsSpread(rs: seq<Run>, j: int)
    requires Canonical(rs) && 0 <= j < |rs|
    ensures 2 * j <= rs[j].start
  {
    if j > 0 {
      StartsSpread(rs, j - 1);
    }
  }

  /** A canonical table has at most 32768 runs, so its count always fits in
      the 16-bit field unsigned. */
  lemma CanonicalCount(rs: seq<Run>)
    requires Canonical(rs)
    ensures |rs| <= 0x8000
  {
    if rs != [] {
      StartsSpread(rs, |rs| - 1);
    }
  }

  /** Every canonical table survives the round trip. */
  lemma CanonicalRoundTrip(rs: seq<Run>)
    requires Canonical(rs)
    ensures Parse(Serialize(rs)) == Success(rs)
  {
    CanonicalCount(rs);
    ParseSerialize(rs);
  }

  /** The 32768 singletons 0, 2, 4, ..., 65534 form a canonical table whose
      count the sign-extending read turns into -32768. */
  lemma SignedCountCounterexample()
    ensures var rs := seq(0x8000, i requires 0 <= i < 0x8000 => Run(2 * i, 0));
      Canonical(rs) && ParseCountAsWritten(Serialize(rs)) == -0x8000 != |rs|
  {
    var rs := seq(0x8000, i requires 0 <= i < 0x8000 => Run(2 * i, 0));
    var bs := Serialize(rs);
    assert bs[..2] == WordBytes(0x8000);
    assert ParseCount(bs) == 0x8000;
  }
}
