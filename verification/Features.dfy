/** The features a reader driver reports as TLV records: tag, length, value (`CardImpl`
    constructor; PC/SC part 10, values big-endian). */
module Features {
  import opened Wrappers
  import opened Bytes
  import opened Words
  import opened Numbers

  datatype Tlv = Tlv(tag: Byte, value: seq<Byte>)

  /** A record whose value fits the 32-bit word it is collected in. */
  type Record = r: Tlv | |r.value| <= 4 witness Tlv(0, [])

  // ----- One value

  function Wide(b: Byte): bv32 {
    b as bv32
  }

  /** The first `n` bytes, collected with the first one lowest. */
  function Accumulate(value: seq<Byte>, n: nat): bv32
    requires n <= |value| <= 4
  {
    if n == 0 then 0
    else Or(Accumulate(value, n - 1), Shifted(Wide(value[n - 1]), n - 1))
  }

  lemma AccumulateNone(value: seq<Byte>)
    requires |value| <= 4
    ensures Accumulate(value, 0) == 0
  {
  }

  lemma AccumulateNext(value: seq<Byte>, i: nat)
    requires i < |value| <= 4
    ensures Accumulate(value, i + 1) == Or(Accumulate(value, i), Shifted(Wide(value[i]), i))
  {
  }

  function Decoded(value: seq<Byte>): bv32
    requires |value| <= 4
  {
    NetworkToHost(Accumulate(value, |value|))
  }

  /** Byte `i` of a value, as if zero bytes followed it. */
  function At(value: seq<Byte>, i: nat): bv32 {
    if i < |value| then Wide(value[i]) else 0
  }

  lemma AtIsByte(value: seq<Byte>, i: nat)
    ensures At(value, i) < 256
  {
  }

  /** A value of four bytes is decoded big-endian; a shorter one left-justified. */
  lemma DecodedIsBigEndian(value: seq<Byte>)
    requires |value| <= 4
    ensures Decoded(value) == BigEndian(At(value, 0), At(value, 1), At(value, 2), At(value, 3))
  {
    hide NetworkToHost, LittleEndian, BigEndian, Accumulate, At;
    AccumulateBytes(value);
    AtIsByte(value, 0);
    AtIsByte(value, 1);
    AtIsByte(value, 2);
    AtIsByte(value, 3);
    SwapIsBigEndian(At(value, 0), At(value, 1), At(value, 2), At(value, 3));
  }

  /** The number a value stands for: its bytes, with zero bytes after them up to four, are the digits in
      base 256, the first one highest. */
  lemma DecodedNumber(value: seq<Byte>)
    requires |value| <= 4
    ensures
      var four := value + seq(4 - |value|, _ => 0);
      Decoded(value) as int
      == ((four[0] as int * 256 + four[1]) * 256 + four[2]) * 256 + four[3]
  {
    hide Decoded, At, BigEndian, Value;
    DecodedIsBigEndian(value);
    AtNumber(value, 0);
    AtNumber(value, 1);
    AtNumber(value, 2);
    AtNumber(value, 3);
    BigEndianNumber(At(value, 0), At(value, 1), At(value, 2), At(value, 3));
    ValueIs(Decoded(value));
  }

  lemma ValueIs(w: bv32)
    ensures Value(w) == w as int
  {
  }

  lemma AtNumber(value: seq<Byte>, i: nat)
    requires i < 4 && |value| <= 4
    ensures Value(At(value, i)) == (value + seq(4 - |value|, _ => 0))[i]
    ensures At(value, i) < 256
  {
    hide Value;
    AtIsByte(value, i);
    if i < |value| {
      ByteAsWord(value[i]);
    } else {
      ByteAsWord(0);
    }
  }

  lemma AccumulateBytes(value: seq<Byte>)
    requires |value| <= 4
    ensures Accumulate(value, |value|)
         == LittleEndian(At(value, 0), At(value, 1), At(value, 2), At(value, 3))
  {
    hide Or, Shifted, LittleEndian, Wide, Accumulate;
    NoByte();
    AccumulateNone(value);
    if |value| > 0 {
      AccumulateNext(value, 0);
      FirstByte(At(value, 0));
    }
    if |value| > 1 {
      AccumulateNext(value, 1);
      SecondByte(At(value, 0), At(value, 1));
    }
    if |value| > 2 {
      AccumulateNext(value, 2);
      ThirdByte(At(value, 0), At(value, 1), At(value, 2));
    }
    if |value| > 3 {
      AccumulateNext(value, 3);
      FourthByte(At(value, 0), At(value, 1), At(value, 2), At(value, 3));
    }
  }

  // ----- Records and their bytes

  function Serialize(records: seq<Record>): seq<Byte> {
    if records == [] then []
    else [records[0].tag, |records[0].value|] + records[0].value + Serialize(records[1..])
  }

  /** Records that fit, one after the other, to the last byte. */
  predicate WellFormed(bytes: seq<Byte>) {
    bytes == []
    || (|bytes| >= 2
        && bytes[1] <= 4
        && 2 + bytes[1] <= |bytes|
        && WellFormed(bytes[2 + bytes[1]..]))
  }

  function Records(bytes: seq<Byte>): seq<Record>
    requires WellFormed(bytes)
  {
    if bytes == [] then []
    else
      var end := 2 + bytes[1];
      [Tlv(bytes[0], bytes[2..end])] + Records(bytes[end..])
  }

  /** Bytes and records determine each other. */
  lemma {:induction false} SerializeThenParse(records: seq<Record>)
    ensures WellFormed(Serialize(records)) && Records(Serialize(records)) == records
  {
    if records != [] {
      var r := records[0];
      SerializeThenParse(records[1..]);
      RecordInFront(r.tag, |r.value|, r.value, Serialize(records[1..]));
      assert records == [r] + records[1..];
    }
  }

  /** Where things are in a record followed by others. */
  lemma RecordInFront(tag: Byte, n: Byte, value: seq<Byte>, rest: seq<Byte>)
    requires |value| == n
    ensures var bytes := [tag, n] + value + rest;
      && |bytes| >= 2 + n && bytes[0] == tag && bytes[1] == n
      && bytes[2..2 + n] == value && bytes[2 + n..] == rest
  {
  }

  /** The first record of well-formed bytes, byte by byte: its tag, its length, then its value. */
  lemma FirstRecord(tag: Byte, value: seq<Byte>, rest: seq<Byte>)
    requires |value| <= 4
    ensures var bytes := [tag, |value|] + value + rest;
      && (WellFormed(bytes) <==> WellFormed(rest))
      && (WellFormed(rest) ==> Records(bytes) == [Tlv(tag, value)] + Records(rest))
  {
    RecordInFront(tag, |value|, value, rest);
  }

  lemma {:induction false} ParseThenSerialize(bytes: seq<Byte>)
    requires WellFormed(bytes)
    ensures Serialize(Records(bytes)) == bytes
  {
    hide Serialize;
    NothingToSerialize();
    if bytes != [] {
      var end := 2 + bytes[1];
      ParseThenSerialize(bytes[end..]);
      SerializeCons(Tlv(bytes[0], bytes[2..end]), Records(bytes[end..]));
      Reassemble(bytes, end);
    }
  }

  lemma NothingToSerialize()
    ensures Serialize([]) == []
  {
  }

  lemma SerializeCons(first: Record, rest: seq<Record>)
    ensures Serialize([first] + rest) == [first.tag, |first.value|] + first.value + Serialize(rest)
  {
    assert ([first] + rest)[1..] == rest;
  }

  lemma Reassemble(bytes: seq<Byte>, end: nat)
    requires 2 <= end <= |bytes|
    ensures [bytes[0], bytes[1]] + bytes[2..end] + bytes[end..] == bytes
  {
  }

  // ----- The table

  type Table = map<Byte, bv32>

  /** Entering the records in order, each over what is there. */
  function Enter(table: Table, records: seq<Record>): Table
    decreases |records|
  {
    if records == [] then table
    else Enter(table[records[0].tag := Decoded(records[0].value)], records[1..])
  }

  /** `i` is the last record with its tag. */
  predicate IsLast(records: seq<Record>, i: int) {
    && 0 <= i < |records|
    && forall j :: i < j < |records| ==> records[j].tag != records[i].tag
  }

  lemma {:induction false} OtherTagsStay(table: Table, records: seq<Record>, tag: Byte)
    requires forall j :: 0 <= j < |records| ==> records[j].tag != tag
    ensures tag in Enter(table, records) <==> tag in table
    ensures tag in table ==> Enter(table, records)[tag] == table[tag]
    decreases |records|
  {
    if records != [] {
      var entered := table[records[0].tag := Decoded(records[0].value)];
      OtherTagsStay(entered, records[1..], tag);
    }
  }

  /** The last record with a tag gives the tag its value, whatever was there before. */
  lemma {:induction false} LastRecordWins(table: Table, records: seq<Record>, i: int)
    requires IsLast(records, i)
    ensures records[i].tag in Enter(table, records)
    ensures Enter(table, records)[records[i].tag] == Decoded(records[i].value)
    decreases |records|
  {
    var entered, rest := table[records[0].tag := Decoded(records[0].value)], records[1..];
    if i == 0 {
      OtherTagsStay(entered, rest, records[0].tag);
    } else {
      forall j | i - 1 < j < |rest|
        ensures rest[j].tag != rest[i - 1].tag
      {
        assert rest[j] == records[j + 1];
      }
      LastRecordWins(entered, rest, i - 1);
    }
  }

  /** Entering the record at `p`, then those after it. */
  lemma EnterFirst(table: Table, feature: seq<Byte>, p: nat)
    requires p < |feature| && WellFormed(feature[p..])
    ensures
      p + 2 <= |feature| &&
      var value, next := p + 2, p + 2 + feature[p + 1];
      && next <= value + 4 && next <= |feature| && WellFormed(feature[next..])
      && Enter(table, Records(feature[p..]))
         == Enter(table[feature[p] := NetworkToHost(Accumulate(feature[value..next], next - value))],
                  Records(feature[next..]))
  {
    hide NetworkToHost, Accumulate, Enter, Records, WellFormed;
    RecordAt(feature, p);
    var value, next := p + 2, p + 2 + feature[p + 1];
    EnterCons(table, Tlv(feature[p], feature[value..next]), Records(feature[next..]));
  }

  /** The record at `p`, in terms of the whole buffer. */
  lemma RecordAt(feature: seq<Byte>, p: nat)
    requires p < |feature| && WellFormed(feature[p..])
    ensures
      p + 2 <= |feature| &&
      var value, next := p + 2, p + 2 + feature[p + 1];
      && next <= value + 4 && next <= |feature| && WellFormed(feature[next..])
      && Records(feature[p..]) == [Tlv(feature[p], feature[value..next])] + Records(feature[next..])
  {
    var bytes := feature[p..];
    assert bytes[0] == feature[p] && bytes[1] == feature[p + 1];
    var end := 2 + bytes[1];
    assert bytes[end..] == feature[p + end..] && bytes[2..end] == feature[p + 2..p + end];
  }

  lemma EnterCons(table: Table, first: Record, rest: seq<Record>)
    ensures Enter(table, [first] + rest)
         == Enter(table[first.tag := NetworkToHost(Accumulate(first.value, |first.value|))], rest)
  {
    assert ([first] + rest)[1..] == rest;
  }

  /** The table a card connection keeps. */
  class FeatureTable {
    var features: Table

    /** The feature request in `CardImpl`'s constructor. `reply` is what the driver wrote into the
        buffer of 256 bytes, or nothing when the request failed, which is ignored. */
    constructor (reply: Option<seq<Byte>>)
      requires reply.Some? ==> |reply.value| <= 256 && WellFormed(reply.value)
      ensures features == if reply.None? then map[] else Enter(map[], Records(reply.value))
    {
      features := map[];
      new;
      hide Enter, Accumulate, WellFormed, Records, NetworkToHost, Shifted, Or, Wide;
      if reply.Some? {
        var feature, size := reply.value, |reply.value|;
        var p := 0;
        assert feature[0..] == feature;
        while p < size
          invariant p <= size
          invariant WellFormed(feature[p..])
          invariant Enter(features, Records(feature[p..])) == Enter(map[], Records(feature))
        {
          EnterFirst(features, feature, p);
          ghost var start := p + 2;
          var tag := feature[p];
          p := p + 1;
          var value: bv32 := 0;
          var i, len := 0, feature[p];
          p := p + 1;
          ghost var bytes := feature[start..start + len];
          ghost var before := features;
          AccumulateNone(bytes);
          while i < len
            invariant 0 <= i <= len && p == start + i && features == before
            invariant value == Accumulate(bytes, i)
          {
            AccumulateNext(bytes, i);
            value := Or(value, Shifted(Wide(feature[p]), i));
            p := p + 1;
            i := i + 1;
          }
          features := features[tag := NetworkToHost(value)];
        }
        EnterNothing(features);
        assert feature[p..] == [];
      }
    }
  }

  lemma EnterNothing(table: Table)
    ensures WellFormed([]) && Enter(table, Records([])) == table
  {
  }
}
