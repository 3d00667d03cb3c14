/** A reader's status: from the PC/SC state word to a flag set (`flagSetFromReaderState`), from the
    flag set to a string (`Reader::statusString`), and back. */
module ReaderStatus {
  import opened FlagSets
  import EnumTables
  import opened Words

  /** `Reader::Status`: UNAWARE is 0, the eleven states with a bit in the word follow. */
  const UNAWARE := 0
  const STATES := 11
  const SENTINEL := STATES + 1

  /** The state bits of PC/SC, in the order of `Reader::Status`. */
  const PCSC_MASKS: seq<bv32> :=
    [0x1, 0x2, 0x4, 0x8, 0x10, 0x20, 0x40, 0x80, 0x100, 0x200, 0x400]

  /** The masks of the map: one bit each, in any order. */
  predicate AreMasks(masks: seq<bv32>) {
    |masks| == STATES && forall i :: 0 <= i < STATES ==> SingleBit(masks[i])
  }

  // ----- Word to flags

  /** The states among the first `n` whose bit is in the word. */
  ghost function Selected(word: bv32, masks: seq<bv32>, n: nat): (s: set<nat>)
    requires n <= |masks|
    ensures forall i :: i in s <==> 1 <= i <= n && HasBit(word, masks[i - 1])
  {
    if n == 0 then {}
    else Selected(word, masks, n - 1) + if HasBit(word, masks[n - 1]) then {n} else {}
  }

  ghost function FlagsOf(word: bv32, masks: seq<bv32>): set<nat> {
    if word == 0 then {UNAWARE} else Selected(word, masks, |masks|)
  }

  /** State `i` is set iff its bit is in the word. */
  lemma FlagIsBit(word: bv32, masks: seq<bv32>, i: nat, mask: bv32)
    requires |masks| == 11 && 1 <= i <= 11 && masks[i - 1] == mask
    ensures i in FlagsOf(word, masks) <==> word & mask != 0
  {
    hide HasBit;
    BitInWord(word, mask);
  }

  lemma BitInWord(word: bv32, mask: bv32)
    ensures HasBit(word, mask) <==> word & mask != 0
    ensures word == 0 ==> word & mask == 0
  {
  }

  lemma FlagsAreBits(word: bv32, masks: seq<bv32>)
    requires AreMasks(masks)
    ensures forall i :: i in FlagsOf(word, masks) ==> i <= 11
    ensures forall i :: 1 <= i <= 11 ==> (i in FlagsOf(word, masks) <==> HasBit(word, masks[i - 1]))
  {
    hide HasBit, SingleBit;
    forall i | 1 <= i <= 11
      ensures i in FlagsOf(word, masks) <==> HasBit(word, masks[i - 1])
    {
      BitInWord(word, masks[i - 1]);
    }
  }

  /** `flagSetFromReaderState`. */
  method FlagSetFromReaderState(readerState: bv32, masks: seq<bv32>) returns (result: FlagSet)
    requires AreMasks(masks)
    ensures fresh(result) && fresh(result.flags) && result.flags.Length == SENTINEL
    ensures result.Contents() == FlagsOf(readerState, masks)
  {
    hide HasBit, SingleBit;
    if readerState == 0 {
      result := new FlagSet.Of(SENTINEL, UNAWARE);
      return;
    }
    result := new FlagSet(SENTINEL);
    var i := 0;
    while i < STATES
      invariant 0 <= i <= STATES && result.flags.Length == SENTINEL
      invariant fresh(result) && fresh(result.flags)
      invariant result.Contents() == Selected(readerState, masks, i)
    {
      if HasBit(readerState, masks[i]) {
        result.Set(i + 1, true);
      }
      i := i + 1;
    }
  }

  /** The word with the bits of those states. */
  ghost function WordOf(flags: set<nat>, masks: seq<bv32>, n: nat): bv32
    requires n <= |masks|
  {
    if n == 0 then 0
    else Or(WordOf(flags, masks, n - 1), if n in flags then masks[n - 1] else 0)
  }

  /** All bits that stand for a state. */
  ghost function AllBits(masks: seq<bv32>, n: nat): bv32
    requires n <= |masks|
  {
    if n == 0 then 0 else Or(AllBits(masks, n - 1), masks[n - 1])
  }

  /** They include every mask's bit. */
  lemma {:induction false} AllBitsHave(masks: seq<bv32>, n: nat, i: nat)
    requires i < n <= |masks| && SingleBit(masks[i])
    ensures HasBit(AllBits(masks, n), masks[i])
  {
    hide HasBit, SingleBit, Or;
    BitOfEither(AllBits(masks, n - 1), masks[n - 1], masks[i]);
    if i == n - 1 {
      OwnBit(masks[i]);
    } else {
      AllBitsHave(masks, n - 1, i);
    }
  }

  /** The flags of a word give back the word, restricted to the bits that stand for states. */
  lemma {:induction false} WordOfSelected(word: bv32, masks: seq<bv32>, n: nat, flags: set<nat>)
    requires n <= |masks| && forall i :: 0 <= i < n ==> SingleBit(masks[i])
    requires forall i :: 1 <= i <= n ==> (i in flags <==> HasBit(word, masks[i - 1]))
    ensures WordOf(flags, masks, n) == And(word, AllBits(masks, n))
  {
    hide HasBit, SingleBit, And, Or;
    if n == 0 {
      AndZero(word);
    } else {
      WordOfSelected(word, masks, n - 1, flags);
      OneBitOfWord(word, masks[n - 1]);
      AndOverOr(word, AllBits(masks, n - 1), masks[n - 1]);
      assert n in flags <==> HasBit(word, masks[n - 1]);
    }
  }

  lemma WordOfFlags(word: bv32, masks: seq<bv32>)
    requires AreMasks(masks)
    ensures WordOf(FlagsOf(word, masks), masks, STATES) == And(word, AllBits(masks, STATES))
    ensures UNAWARE in FlagsOf(word, masks) <==> word == 0
  {
    if word == 0 {
      NoFlags({UNAWARE}, masks, STATES);
      AndZero(AllBits(masks, STATES));
    } else {
      WordOfSelected(word, masks, STATES, FlagsOf(word, masks));
    }
  }

  lemma {:induction false} NoFlags(flags: set<nat>, masks: seq<bv32>, n: nat)
    requires n <= |masks| && forall i :: i in flags ==> i == UNAWARE
    ensures WordOf(flags, masks, n) == 0
  {
    if n > 0 {
      NoFlags(flags, masks, n - 1);
    }
  }

  lemma PcscMasksAreMasks()
    ensures AreMasks(PCSC_MASKS)
    ensures forall i, j :: 0 <= i < j < STATES ==> PCSC_MASKS[i] < PCSC_MASKS[j]
    ensures PCSC_MASKS[0] == 1 && forall i :: 0 <= i < 10 ==> PCSC_MASKS[i + 1] == PCSC_MASKS[i] << 1
  {
  }

  // ----- Flags to string

  /** `Reader::Status` to the reflection, with its default range. */
  function Status(): EnumTables.Enum {
    EnumTables.Enum(false, -128, 256, (v: int) => UNAWARE <= v <= SENTINEL)
  }

  /** Names an enumeration can have here: one for each value up to the sentinel, different, not
      empty, no commas. */
  predicate AreNames(names: seq<string>) {
    && |names| == SENTINEL + 1
    && (forall i :: 0 <= i < |names| ==> names[i] != [] && ',' !in names[i])
    && forall i, j :: 0 <= i < j < |names| ==> names[i] != names[j]
  }

  /** The reflection finds each status under its own number. */
  lemma StatusName(names: seq<string>, i: nat)
    requires |names| == SENTINEL + 1 && i <= SENTINEL
    ensures |EnumTables.Table(Status())| == |names|
    ensures EnumTables.EnumName(Status(), names, i) == names[i]
  {
    EnumTables.IntervalIsDense(Status(), UNAWARE, SENTINEL, i);
  }

  /** The names of the flags below `n`, in the order of the enumeration. */
  ghost function NamesOf(flags: set<nat>, names: seq<string>, n: nat): seq<string>
    requires n <= |names|
  {
    if n == 0 then []
    else NamesOf(flags, names, n - 1) + if n - 1 in flags then [names[n - 1]] else []
  }

  /** `items` are the names of exactly the set flags, each once, in the order of the enumeration. */
  ghost predicate Lists(items: seq<string>, flags: set<nat>, names: seq<string>) {
    && |items| == |flags|
    && exists order: seq<nat> :: InOrder(order, items, flags, names)
  }

  ghost predicate InOrder(order: seq<nat>, items: seq<string>, flags: set<nat>, names: seq<string>) {
    && |order| == |items|
    && (forall j, k :: 0 <= j < k < |order| ==> order[j] < order[k])
    && (forall j :: 0 <= j < |order| ==>
          order[j] in flags && order[j] < |names| && items[j] == names[order[j]])
  }

  lemma {:induction false} NamesInOrder(flags: set<nat>, names: seq<string>, n: nat) returns (order: seq<nat>)
    requires n <= |names|
    ensures InOrder(order, NamesOf(flags, names, n), flags, names)
    ensures forall j :: 0 <= j < |order| ==> order[j] < n
    ensures |order| == |set i | i in flags && i < n|
  {
    if n == 0 {
      order := [];
      assert (set i | i in flags && i < n) == {};
    } else {
      order := NamesInOrder(flags, names, n - 1);
      var below := set i | i in flags && i < n - 1;
      if n - 1 in flags {
        order := order + [n - 1];
        assert (set i | i in flags && i < n) == below + {n - 1};
      } else {
        assert (set i | i in flags && i < n) == below;
      }
    }
  }

  lemma NamesAreListed(flags: set<nat>, names: seq<string>, n: nat)
    requires n <= |names| && forall i :: i in flags ==> i < n
    ensures Lists(NamesOf(flags, names, n), flags, names)
  {
    var order := NamesInOrder(flags, names, n);
    assert (set i | i in flags && i < n) == flags;
  }

  /** The fold of `statusString`: a comma before every item but the first. */
  function Accumulate(resultStr: string, items: seq<string>): string
    decreases |items|
  {
    if items == [] then resultStr
    else Accumulate(if resultStr == [] then items[0] else resultStr + "," + items[0], items[1..])
  }

  /** `Reader::statusString`. */
  method StatusString(status: FlagSet, names: seq<string>) returns (r: string)
    requires AreNames(names) && status.flags.Length == SENTINEL
    ensures r == Accumulate("", NamesOf(status.Contents(), names, SENTINEL))
    ensures Lists(Split(r), status.Contents(), names)
  {
    var result: seq<string> := [];
    var statusValue := UNAWARE;
    while statusValue < SENTINEL
      invariant 0 <= statusValue <= SENTINEL
      invariant result == NamesOf(status.Contents(), names, statusValue)
    {
      var isSet := status.Get(statusValue);
      if isSet {
        StatusName(names, statusValue);
        result := result + [EnumTables.EnumName(Status(), names, statusValue)];
      }
      statusValue := statusValue + 1;
    }
    r := Accumulate("", result);
    NamesAreListed(status.Contents(), names, SENTINEL);
    NamesOfFlags(status.Contents(), names, SENTINEL);
    SplitOfAccumulate("", result);
    assert [] + result == result;
  }

  /** A comma goes between two items, and nothing before the first. */
  lemma {:induction false} CommaBetween(resultStr: string, items: seq<string>, item: string)
    ensures var s := Accumulate(resultStr, items);
      Accumulate(resultStr, items + [item]) == if s == [] then item else s + "," + item
    decreases |items|
  {
    if items == [] {
      assert Accumulate(resultStr, [item]) == Accumulate(if resultStr == [] then item else resultStr + "," + item, []);
    } else {
      assert (items + [item])[1..] == items[1..] + [item];
      CommaBetween(if resultStr == [] then items[0] else resultStr + "," + items[0], items[1..], item);
    }
  }

  // ----- And back

  /** The pieces between commas; nothing at all for the empty string. */
  function Split(s: string): seq<string> {
    if s == [] then [] else SplitOn(s)
  }

  function SplitOn(s: string): (pieces: seq<string>)
    ensures |pieces| > 0
  {
    if s == [] then [[]]
    else
      var rest := SplitOn(s[1..]);
      if s[0] == ',' then [[]] + rest else [[s[0]] + rest[0]] + rest[1..]
  }

  predicate AreItems(items: seq<string>) {
    forall i :: 0 <= i < |items| ==> items[i] != [] && ',' !in items[i]
  }

  lemma {:induction false} SplitItem(item: string)
    requires ',' !in item
    ensures SplitOn(item) == [item]
  {
    if item != [] {
      assert item[0] in item;
      SplitItem(item[1..]);
      assert [item[0]] + item[1..] == item;
    }
  }

  lemma {:induction false} SplitLast(s: string, item: string)
    requires ',' !in item
    ensures SplitOn(s + "," + item) == SplitOn(s) + [item]
  {
    var all := s + "," + item;
    if s == [] {
      assert all[1..] == item && all[0] == ',';
      SplitItem(item);
    } else {
      assert all[1..] == s[1..] + "," + item && all[0] == s[0];
      SplitLast(s[1..], item);
      var rest := SplitOn(s[1..]);
      assert (rest + [item])[1..] == rest[1..] + [item] && (rest + [item])[0] == rest[0];
    }
  }

  lemma SplitMore(resultStr: string, item: string)
    requires item != [] && ',' !in item
    ensures Split(if resultStr == [] then item else resultStr + "," + item) == Split(resultStr) + [item]
  {
    if resultStr == [] {
      SplitItem(item);
    } else {
      SplitLast(resultStr, item);
    }
  }

  /** Splitting at commas undoes the fold. */
  lemma {:induction false} SplitOfAccumulate(resultStr: string, items: seq<string>)
    requires AreItems(items)
    ensures Split(Accumulate(resultStr, items)) == Split(resultStr) + items
    decreases |items|
  {
    hide Split;
    if items != [] {
      SplitMore(resultStr, items[0]);
      SplitOfAccumulate(if resultStr == [] then items[0] else resultStr + "," + items[0], items[1..]);
      assert Split(resultStr) + [items[0]] + items[1..] == Split(resultStr) + items;
    }
  }

  /** The flags whose names are among the pieces. */
  ghost function FlagsNamed(pieces: seq<string>, names: seq<string>): (s: set<nat>)
    ensures forall i :: i in s <==> 0 <= i < |names| && names[i] in pieces
  {
    set i: nat | 0 <= i < |names| && names[i] in pieces
  }

  lemma {:induction false} NamesOfFlags(flags: set<nat>, names: seq<string>, n: nat)
    requires AreNames(names) && n <= SENTINEL
    ensures AreItems(NamesOf(flags, names, n))
    ensures forall i :: 0 <= i < |names| ==> (names[i] in NamesOf(flags, names, n) <==> i < n && i in flags)
  {
    if n > 0 {
      NamesOfFlags(flags, names, n - 1);
    }
  }

  /** The status round trip: the string of a reader's status determines its flags; with masks of
      one bit each, also the state word up to the bits that stand for no state; and the name of
      UNAWARE is in it iff the word is zero. */
  lemma StatusRoundTrip(word: bv32, masks: seq<bv32>, names: seq<string>)
    requires AreMasks(masks) && AreNames(names)
    ensures
      var flags := FlagsOf(word, masks);
      var pieces := Split(Accumulate("", NamesOf(flags, names, SENTINEL)));
      && FlagsNamed(pieces, names) == flags
      && WordOf(FlagsNamed(pieces, names), masks, STATES) == And(word, AllBits(masks, STATES))
      && (names[0] in pieces <==> word == 0)
      && (forall i :: 1 <= i <= 11 ==> (names[i] in pieces <==> HasBit(word, masks[i - 1])))
  {
    hide Accumulate, NamesOf, WordOf, AllBits, And, FlagsOf;
    var flags := FlagsOf(word, masks);
    var items := NamesOf(flags, names, SENTINEL);
    NamesOfFlags(flags, names, SENTINEL);
    SplitOfAccumulate("", items);
    WordOfFlags(word, masks);
    FlagsAreBits(word, masks);
    assert [] + items == items;
  }
}
