/** The reflection tables of magic_enum: finding the enumerators in a range, the dense shortcut that
    replaces the table by arithmetic, and lookup both ways. */
module EnumTables {
  import opened Wrappers
  import opened Search
  import HashSwitch

  /** An enumeration as the reflection sees it: whether it is a set of flags, the range it looks
      at, and which values have a name. For flags slot `i` stands for bit `i + min`. */
  datatype Enum = Enum(flags: bool, min: int, size: nat, named: int -> bool) {
    predicate Ok() {
      size > 0 && (flags ==> min >= 0)
    }
  }

  function Pow2(n: nat): nat {
    if n == 0 then 1 else 2 * Pow2(n - 1)
  }

  function Log2(value: int): nat {
    if value <= 1 then 0 else 1 + Log2(value / 2)
  }

  /** `log2`. */
  method ComputeLog2(value: int) returns (ret: nat)
    ensures ret == Log2(value)
  {
    var v := value;
    ret := 0;
    while v > 1
      invariant ret + Log2(v) == Log2(value)
      decreases v
    {
      v := v / 2;
      ret := ret + 1;
    }
  }

  lemma {:induction false} Log2OfPow2(n: nat)
    ensures Log2(Pow2(n)) == n && Pow2(n) >= 1
  {
    if n > 0 {
      Log2OfPow2(n - 1);
    }
  }

  lemma {:induction false} Pow2Ascends(m: nat, n: nat)
    requires m < n
    ensures Pow2(m) < Pow2(n)
    decreases n
  {
    Log2OfPow2(n - 1);
    if m < n - 1 {
      Pow2Ascends(m, n - 1);
    }
  }

  /** What makes these the powers of two. */
  lemma {:induction false} Pow2Adds(m: nat, n: nat)
    ensures Pow2(0) == 1 && Pow2(1) == 2 && Pow2(m + n) == Pow2(m) * Pow2(n)
    decreases m
  {
    assert Pow2(1) == 2 * Pow2(0);
    if m > 0 {
      Pow2Adds(m - 1, n);
      assert 2 * (Pow2(m - 1) * Pow2(n)) == (2 * Pow2(m - 1)) * Pow2(n);
    }
  }

  /** The logarithm of any value: the power of two at or below it; 0 for what has none. */
  lemma {:induction false} Log2IsLogarithm(value: int)
    ensures value >= 1 ==> Pow2(Log2(value)) <= value < 2 * Pow2(Log2(value))
    ensures value < 1 ==> Log2(value) == 0
    decreases value
  {
    if value > 1 {
      Log2IsLogarithm(value / 2);
    }
  }

  /** `value`: the enumerator value of a slot, counted from `offset`. */
  function Value(flags: bool, offset: int, i: nat): int
    requires flags ==> offset >= 0
  {
    if flags then Pow2(i + offset) else i + offset
  }

  /** The slot number a value has when slots are counted from 0: `log2` for flags. */
  function Rank(flags: bool, value: int): int {
    if flags then Log2(value) else value
  }

  lemma RankOfValue(flags: bool, offset: int, i: nat)
    requires flags ==> offset >= 0
    ensures Rank(flags, Value(flags, offset, i)) == i + offset
  {
    if flags {
      Log2OfPow2(i + offset);
    }
  }

  // ----- Finding the enumerators

  predicate IsNamed(e: Enum, i: nat)
    requires e.Ok()
  {
    e.named(Value(e.flags, e.min, i))
  }

  function Marks(e: Enum, n: nat): (marks: seq<bool>)
    requires e.Ok()
    ensures |marks| == n
  {
    seq(n, i requires 0 <= i < n => IsNamed(e, i))
  }

  /** The named slots below `n`, in order. */
  function Slots(e: Enum, n: nat): seq<nat>
    requires e.Ok()
  {
    if n == 0 then [] else Slots(e, n - 1) + if IsNamed(e, n - 1) then [n - 1] else []
  }

  function ValuesOf(e: Enum, slots: seq<nat>): (values: seq<int>)
    requires e.Ok()
    ensures |values| == |slots|
  {
    seq(|slots|, j requires 0 <= j < |slots| => Value(e.flags, e.min, slots[j]))
  }

  /** The enumerator values in the range. */
  function Table(e: Enum): seq<int>
    requires e.Ok()
  {
    ValuesOf(e, Slots(e, e.size))
  }

  lemma {:induction false} SlotsAreTheNamed(e: Enum, n: nat)
    requires e.Ok()
    ensures Ascending(Slots(e, n)) && |Slots(e, n)| <= n
    ensures forall i: nat :: i in Slots(e, n) <==> i < n && IsNamed(e, i)
  {
    if n > 0 {
      var front := Slots(e, n - 1);
      SlotsAreTheNamed(e, n - 1);
      forall j | 0 <= j < |front|
        ensures front[j] < n - 1
      {
        assert front[j] in front;
      }
    }
  }

  /** The table is strictly ascending and holds exactly the named values of the range. */
  lemma TableIsTheNamedValues(e: Enum)
    requires e.Ok()
    ensures Ascending(Table(e))
    ensures forall v :: v in Table(e) <==>
              e.named(v) && exists i :: 0 <= i < e.size && v == Value(e.flags, e.min, i)
  {
    var slots, table := Slots(e, e.size), Table(e);
    SlotsAreTheNamed(e, e.size);
    forall i, j | 0 <= i < j < |table|
      ensures table[i] < table[j]
    {
      if e.flags {
        Pow2Ascends(slots[i] + e.min, slots[j] + e.min);
      }
    }
    forall v | v in table
      ensures e.named(v) && exists i :: 0 <= i < e.size && v == Value(e.flags, e.min, i)
    {
      var j :| 0 <= j < |table| && table[j] == v;
      assert slots[j] in slots;
    }
    forall i | 0 <= i < e.size && e.named(Value(e.flags, e.min, i))
      ensures Value(e.flags, e.min, i) in table
    {
      assert IsNamed(e, i);
      var j :| 0 <= j < |slots| && slots[j] == i;
      assert table[j] == Value(e.flags, e.min, i);
    }
  }

  /** The same in plain terms: the named values from the smallest to the largest value looked at, or, for
      flags, the named powers of two from the lowest to the highest bit looked at. */
  lemma TableInPlainTerms(e: Enum, v: int)
    requires e.Ok()
    ensures !e.flags ==> (v in Table(e) <==> e.named(v) && e.min <= v < e.min + e.size)
    ensures e.flags ==>
      (v in Table(e) <==> e.named(v) && exists bit: nat :: e.min <= bit < e.min + e.size && v == Pow2(bit))
  {
    TableIsTheNamedValues(e);
    if e.flags {
      if v in Table(e) {
        var i :| 0 <= i < e.size && v == Value(true, e.min, i);
        assert v == Pow2(i + e.min);
      }
      if bit: nat :| e.min <= bit < e.min + e.size && v == Pow2(bit) {
        assert v == Value(true, e.min, bit - e.min);
      }
    } else if e.min <= v < e.min + e.size {
      assert v == Value(false, e.min, v - e.min);
    }
  }

  /** `valid_count`: marks the named slots from `start` on, 256 at a time, and counts them. */
  method ValidCount(e: Enum, valid: array<bool>, start: nat, countBefore: nat) returns (count: nat)
    requires e.Ok() && valid.Length == e.size
    requires start <= e.size && valid[..start] == Marks(e, start) && countBefore == |Slots(e, start)|
    requires forall i :: start <= i < e.size ==> !valid[i]
    modifies valid
    ensures valid[..] == Marks(e, e.size)
    ensures count == |Slots(e, e.size)|
    decreases e.size - start
  {
    count := countBefore;
    var o := 0;
    while o < 256
      invariant 0 <= o <= 256
      invariant var end := if start + o < e.size then start + o else e.size;
        && valid[..end] == Marks(e, end) && count == |Slots(e, end)|
        && forall i :: end <= i < e.size ==> !valid[i]
    {
      if start + o < e.size {
        if e.named(Value(e.flags, e.min, start + o)) {
          valid[start + o] := true;
          count := count + 1;
        }
        assert valid[..start + o + 1] == valid[..start + o] + [valid[start + o]];
      }
      o := o + 1;
    }
    if start + 256 < e.size {
      count := ValidCount(e, valid, start + 256, count);
    } else {
      assert valid[..e.size] == valid[..];
    }
  }

  /** `values`: collects the marked slots. The loop stops at the last of them, so it never looks
      past the range. */
  method Values(e: Enum) returns (values: seq<int>)
    requires e.Ok()
    ensures values == Table(e)
  {
    var valid := new bool[e.size](_ => false);
    assert valid[..0] == Marks(e, 0);
    var count := ValidCount(e, valid, 0, 0);
    var table := new int[count](_ => 0);
    var i, v := 0, 0;
    while v < count
      invariant 0 <= i <= e.size && v == |Slots(e, i)| <= count
      invariant valid[..] == Marks(e, e.size)
      invariant table[..v] == ValuesOf(e, Slots(e, i))
      decreases e.size - i
    {
      MoreSlots(e, i);
      assert valid[i] == valid[..][i] == IsNamed(e, i);
      if valid[i] {
        table[v] := Value(e.flags, e.min, i);
        v := v + 1;
      }
      i := i + 1;
      SlotsGrow(e, i, e.size);
    }
    SlotsGrow(e, i, e.size);
    values := table[..];
  }

  /** While some named slot is missing, the range has slots left. */
  lemma MoreSlots(e: Enum, i: nat)
    requires e.Ok() && i <= e.size && |Slots(e, i)| < |Slots(e, e.size)|
    ensures i < e.size
  {
  }

  lemma {:induction false} SlotsGrow(e: Enum, m: nat, n: nat)
    requires e.Ok() && m <= n
    ensures Slots(e, m) <= Slots(e, n)
    decreases n
  {
    if m < n {
      SlotsGrow(e, m, n - 1);
    }
  }

  // ----- The dense shortcut

  /** `is_sparse`: the values, or the bits, between the first and the last are not all there. */
  predicate IsSparse(e: Enum)
    requires e.Ok()
  {
    var table := Table(e);
    |table| > 0 && Rank(e.flags, table[|table| - 1]) - Rank(e.flags, table[0]) + 1 != |table|
  }

  /** Ascending numbers without a gap between first and last are consecutive. */
  lemma {:induction false} NoGapIsConsecutive(s: seq<int>, j: nat)
    requires Ascending(s) && j < |s| && s[|s| - 1] - s[0] + 1 == |s|
    ensures s[j] == s[0] + j
  {
    AtLeastApart(s, 0, j);
    AtLeastApart(s, j, |s| - 1);
  }

  lemma {:induction false} AtLeastApart(s: seq<int>, i: nat, j: nat)
    requires Ascending(s) && i <= j < |s|
    ensures s[j] - s[i] >= j - i
    decreases j
  {
    if i < j {
      AtLeastApart(s, i, j - 1);
    }
  }

  /** Not sparse means consecutive values, or consecutive bits. */
  lemma DenseIsConsecutive(e: Enum, j: nat)
    requires e.Ok() && !IsSparse(e) && j < |Table(e)|
    ensures Table(e)[j] == Value(e.flags, Rank(e.flags, Table(e)[0]), j)
    ensures e.flags ==> Rank(e.flags, Table(e)[0]) >= 0
  {
    var slots, table := Slots(e, e.size), Table(e);
    SlotsAreTheNamed(e, e.size);
    RankOfValue(e.flags, e.min, slots[0]);
    RankOfValue(e.flags, e.min, slots[|slots| - 1]);
    NoGapIsConsecutive(slots, j);
  }

  /** Without a gap: each value is the one after, or for flags twice, the one before. */
  predicate WithoutGap(table: seq<int>, flags: bool) {
    forall j :: 0 <= j < |table| - 1 ==> table[j + 1] == if flags then 2 * table[j] else table[j] + 1
  }

  /** When the shortcut is taken: exactly when the table has no gap. */
  lemma SparseIff(e: Enum)
    requires e.Ok()
    ensures !IsSparse(e) <==> WithoutGap(Table(e), e.flags)
  {
    hide Table, IsSparse, WithoutGap;
    if !IsSparse(e) {
      DenseWithoutGap(e);
    }
    if WithoutGap(Table(e), e.flags) {
      WithoutGapIsDense(e);
    }
  }

  lemma DenseWithoutGap(e: Enum)
    requires e.Ok() && !IsSparse(e)
    ensures WithoutGap(Table(e), e.flags)
  {
    hide Table, IsSparse, Rank;
    forall j | 0 <= j < |Table(e)| - 1
      ensures Table(e)[j + 1] == if e.flags then 2 * Table(e)[j] else Table(e)[j] + 1
    {
      DenseIsConsecutive(e, j);
      DenseIsConsecutive(e, j + 1);
    }
  }

  lemma WithoutGapIsDense(e: Enum)
    requires e.Ok() && WithoutGap(Table(e), e.flags)
    ensures !IsSparse(e)
  {
    var slots, table := Slots(e, e.size), Table(e);
    if table != [] {
      RanksGoUp(e, |table| - 1);
    }
  }

  lemma {:induction false} RanksGoUp(e: Enum, j: nat)
    requires e.Ok() && WithoutGap(Table(e), e.flags) && j < |Table(e)|
    ensures Rank(e.flags, Table(e)[j]) == Rank(e.flags, Table(e)[0]) + j
    ensures e.flags ==> Table(e)[j] >= 1
  {
    var slots := Slots(e, e.size);
    RankOfValue(e.flags, e.min, slots[0]);
    if e.flags {
      Log2OfPow2(slots[0] + e.min);
    }
    if j > 0 {
      RanksGoUp(e, j - 1);
      assert Table(e)[j - 1 + 1] == if e.flags then 2 * Table(e)[j - 1] else Table(e)[j - 1] + 1;
    }
  }

  /** `enum_value`: from the table when sparse, else by arithmetic from the first value. */
  function EnumValue(e: Enum, index: nat): (v: int)
    requires e.Ok() && index < |Table(e)|
  {
    if IsSparse(e) then Table(e)[index]
    else Value(e.flags, Rank(e.flags, Table(e)[0]), index)
  }

  lemma EnumValueIsTheTable(e: Enum, index: nat)
    requires e.Ok() && index < |Table(e)|
    ensures EnumValue(e, index) == Table(e)[index]
  {
    if !IsSparse(e) {
      DenseIsConsecutive(e, index);
    }
  }

  lemma IndexIsUnique(table: seq<int>, v: int, i: nat)
    requires Ascending(table) && i < |table| && table[i] == v
    ensures LinearSearch(table, v) == Some(i)
  {
  }

  /** `enum_index`: nothing for an empty enumeration; a search through `enum_value` when sparse or
      flags; else the distance from the first value. All three find the place in the table. */
  method EnumIndex(e: Enum, value: int) returns (r: Option<nat>)
    requires e.Ok()
    ensures r == LinearSearch(Table(e), value)
  {
    var table := Table(e);
    if |table| == 0 {
      return None;
    }
    if IsSparse(e) || e.flags {
      var i := 0;
      while i < |table|
        invariant 0 <= i <= |table|
        invariant LinearSearch(table, value, i) == LinearSearch(table, value)
      {
        EnumValueIsTheTable(e, i);
        if EnumValue(e, i) == value {
          return Some(i);
        }
        i := i + 1;
      }
      return None;
    }
    DenseCommon(e, value);
    TableIsTheNamedValues(e);
    if table[0] <= value <= table[|table| - 1] {
      IndexIsUnique(table, value, value - table[0]);
      return Some(value - table[0]);
    }
    return None;
  }

  /** The default hash of an enumerator. */
  function DefaultHash(v: int): int {
    v
  }

  /** The switch over the values of an enumeration compiles. */
  lemma TableCompiles(e: Enum, t: HashSwitch.Integral)
    requires e.Ok() && |Table(e)| > 0
    requires t.max - t.min >= HashSwitch.CASES - 1
    requires forall v :: v in Table(e) ==> t.Holds(v)
    ensures Distinct(HashSwitch.Hashes(Table(e), DefaultHash))
    ensures HashSwitch.PagesCompile(Table(e), DefaultHash, t, 0)
  {
    TableIsTheNamedValues(e);
    var hs := HashSwitch.Hashes(Table(e), DefaultHash);
    assert forall i :: 0 <= i < |hs| ==> hs[i] == DefaultHash(Table(e)[i]);
    assert hs == Table(e);
    HashSwitch.AscendingPagesCompile(Table(e), DefaultHash, t, 0);
  }

  /** `enum_index` with hashing enabled: the search through a sparse or flags table becomes the paged
      switch over the values themselves, their type being one of at least 256 values. */
  method EnumIndexHashed(e: Enum, t: HashSwitch.Integral, value: int) returns (r: Option<nat>)
    requires e.Ok()
    requires t.max - t.min >= HashSwitch.CASES - 1
    requires forall v :: v in Table(e) ==> t.Holds(v)
    ensures r == LinearSearch(Table(e), value)
  {
    var table := Table(e);
    if |table| > 0 && (IsSparse(e) || e.flags) {
      TableCompiles(e, t);
      r := HashSwitch.SwitchWithCalculatedCases(table, DefaultHash, t, 0, value);
    } else {
      r := EnumIndex(e, value);
    }
  }

  /** In a dense table of values the table holds exactly what lies between its ends. */
  lemma DenseCommon(e: Enum, value: int)
    requires e.Ok() && !IsSparse(e) && !e.flags && |Table(e)| > 0
    ensures value in Table(e) <==> Table(e)[0] <= value <= Table(e)[|Table(e)| - 1]
    ensures value in Table(e) ==>
      0 <= value - Table(e)[0] < |Table(e)| && Table(e)[value - Table(e)[0]] == value
  {
    var table := Table(e);
    DenseIsConsecutive(e, |table| - 1);
    if j :| 0 <= j < |table| && table[j] == value {
      DenseIsConsecutive(e, j);
    }
    if table[0] <= value <= table[|table| - 1] {
      DenseIsConsecutive(e, value - table[0]);
    }
  }

  /** `enum_cast` of an integer: the enumerator with that value, if it is in the table. */
  method EnumCast(e: Enum, value: int) returns (r: Option<int>)
    requires e.Ok()
    ensures r == if value in Table(e) then Some(value) else None
  {
    var table := Table(e);
    if |table| == 0 {
      return None;
    }
    if IsSparse(e) || e.flags {
      var i := 0;
      while i < |table|
        invariant 0 <= i <= |table| && value !in table[..i]
      {
        EnumValueIsTheTable(e, i);
        if value == EnumValue(e, i) {
          return Some(value);
        }
        i := i + 1;
      }
      return None;
    }
    DenseCommon(e, value);
    if table[0] <= value <= table[|table| - 1] {
      return Some(value);
    }
    return None;
  }

  /** `enum_cast` of an integer with hashing enabled. */
  method EnumCastHashed(e: Enum, t: HashSwitch.Integral, value: int) returns (r: Option<int>)
    requires e.Ok()
    requires t.max - t.min >= HashSwitch.CASES - 1
    requires forall v :: v in Table(e) ==> t.Holds(v)
    ensures r == if value in Table(e) then Some(value) else None
  {
    var table := Table(e);
    if |table| > 0 && (IsSparse(e) || e.flags) {
      TableCompiles(e, t);
      var at := HashSwitch.SwitchWithCalculatedCases(table, DefaultHash, t, 0, value);
      match at {
        case Some(i) => r := Some(table[i]);
        case None => r := None;
      }
    } else {
      r := EnumCast(e, value);
    }
  }

  /** Value and index undo each other, sparse or dense. */
  lemma IndexAndValueUndoEachOther(e: Enum, index: nat, v: int)
    requires e.Ok()
    ensures index < |Table(e)| ==> LinearSearch(Table(e), EnumValue(e, index)) == Some(index)
    ensures LinearSearch(Table(e), v) == Some(index) ==> index < |Table(e)| && EnumValue(e, index) == v
    ensures LinearSearch(Table(e), v).None? <==> v !in Table(e)
  {
    TableIsTheNamedValues(e);
    if index < |Table(e)| {
      EnumValueIsTheTable(e, index);
      IndexIsUnique(Table(e), Table(e)[index], index);
    }
  }

  /** Enumerators `first` to `last` without a gap, all inside the range, make a dense table whose
      index is the distance from `first`. */
  lemma IntervalIsDense(e: Enum, first: int, last: int, v: int)
    requires e.Ok() && !e.flags && e.min <= first <= v <= last < e.min + e.size
    requires forall w :: e.named(w) <==> first <= w <= last
    ensures !IsSparse(e)
    ensures |Table(e)| == last - first + 1
    ensures LinearSearch(Table(e), v) == Some(v - first)
  {
    var n := last - first + 1;
    SlotsOfInterval(e, first, last, e.size);
    assert forall j :: 0 <= j < n ==> Table(e)[j] == first + j;
    IndexIsUnique(Table(e), v, v - first);
  }

  lemma {:induction false} SlotsOfInterval(e: Enum, first: int, last: int, n: nat)
    requires e.Ok() && !e.flags && e.min <= first <= last < e.min + e.size
    requires forall w :: e.named(w) <==> first <= w <= last
    ensures
      var slots, all := Slots(e, n), last - first + 1;
      && |slots| == (if n <= first - e.min then 0 else if n <= last - e.min then n - (first - e.min) else all)
      && forall j :: 0 <= j < |slots| ==> slots[j] == first - e.min + j
  {
    if n > 0 {
      SlotsOfInterval(e, first, last, n - 1);
      assert IsNamed(e, n - 1) <==> first <= n - 1 + e.min <= last;
    }
  }

  /** `enum_name`: the name at the value's index, or the empty string. */
  function EnumName(e: Enum, names: seq<string>, value: int): string
    requires e.Ok() && |names| == |Table(e)|
  {
    match LinearSearch(Table(e), value)
    case Some(i) => names[i]
    case None => ""
  }

  /** A value in the table has the name at its place, and any other the empty one. */
  lemma NameIs(e: Enum, names: seq<string>, value: int)
    requires e.Ok() && |names| == |Table(e)|
    ensures value !in Table(e) ==> EnumName(e, names, value) == ""
    ensures forall i :: 0 <= i < |names| && Table(e)[i] == value ==> EnumName(e, names, value) == names[i]
  {
    TableIsTheNamedValues(e);
    forall i | 0 <= i < |names| && Table(e)[i] == value
      ensures EnumName(e, names, value) == names[i]
    {
      IndexIsUnique(Table(e), value, i);
    }
  }
}
