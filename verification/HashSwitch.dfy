/** The paged hash switch of magic_enum: the 256 case labels of a page, the check that no two
    values share a hash, and the lookup through the pages. */
module HashSwitch {
  import opened Wrappers
  import opened Search

  /** The integral type a hash has (`std::numeric_limits<switch_t>`). */
  datatype Integral = Integral(min: int, max: int) {
    predicate Holds(x: int) {
      min <= x <= max
    }
  }

  function Hashes<V>(values: seq<V>, hash: V -> int): (hs: seq<int>)
    ensures |hs| == |values|
  {
    seq(|values|, i requires 0 <= i < |values| => hash(values[i]))
  }

  // ----- The labels of a page

  const CASES := 256

  /** The hashes of the values from `page` on, at most 256 of them. */
  function Keys<V>(values: seq<V>, hash: V -> int, page: nat): seq<int>
    requires page < |values|
  {
    Hashes(values[page..if |values| - page < CASES then |values| else page + CASES], hash)
  }

  lemma KeysAreHashes<V>(values: seq<V>, hash: V -> int, page: nat)
    requires page < |values|
    ensures var keys := Keys(values, hash, page);
      && 0 < |keys| <= 256 && page + |keys| <= |values|
      && (|keys| < 256 ==> page + |keys| == |values|)
      && forall i :: 0 <= i < |keys| ==> keys[i] == hash(values[page + i])
  {
  }

  /** `n` labels counting up from `from`. */
  function Up(from: int, n: nat): (up: seq<int>)
    ensures |up| == n
  {
    seq(n, i => from + 1 + i)
  }

  /** Room above the last key for all dead labels. */
  predicate RoomAbove(keys: seq<int>, t: Integral)
    requires 0 < |keys| <= CASES
  {
    keys[|keys| - 1] + (CASES - |keys|) <= t.max
  }

  /** How many labels are missing once every value above the last key is one. */
  function Missing(keys: seq<int>, t: Integral): int
    requires 0 < |keys| <= CASES
  {
    CASES - |keys| - (t.max - keys[|keys| - 1])
  }

  /** `gaps` are the values from `low` below `high` that are no keys, in ascending order. */
  ghost predicate AreGaps(keys: seq<int>, gaps: seq<int>, low: int, high: int) {
    && Ascending(gaps)
    && (forall g :: g in gaps ==> low <= g < high && g !in keys)
    && (forall w :: low <= w < high ==> w in keys || w in gaps)
  }

  lemma NextGap(keys: seq<int>, gaps: seq<int>, low: int, high: int)
    requires AreGaps(keys, gaps, low, high) && high !in keys && low <= high
    ensures AreGaps(keys, gaps + [high], low, high + 1)
  {
    var more := gaps + [high];
    forall i, j | 0 <= i < j < |more|
      ensures more[i] < more[j]
    {
      assert more[i] in gaps;
    }
    assert forall w :: w in gaps ==> w in more;
  }

  /** The third block's walk: it has stepped over the first `it` keys, which ascend, and taken `gaps`, all
      the other values below `value`. The next key is still ahead, or is one it can never meet, being
      no larger than the key before it. */
  ghost predicate Walk(keys: seq<int>, gaps: seq<int>, it: int, value: int, t: Integral) {
    && 0 <= it < |keys|
    && value == t.min + |gaps| + it
    && Ascending(keys[..it])
    && (it > 0 ==> keys[it - 1] < value)
    && (value <= keys[it] || (it > 0 && keys[it] <= keys[it - 1]))
    && AreGaps(keys[..it], gaps, t.min, value)
  }

  /** The labels of the third block: those of a walk that stops when it has taken the last of them. */
  ghost predicate AreFillers(keys: seq<int>, gaps: seq<int>, t: Integral) {
    gaps != [] ==> exists it, value :: Walk(keys, gaps, it, value, t) && gaps[|gaps| - 1] == value - 1
  }

  /** What `calculate_cases` makes of any keys: the keys, then as many values as there are above the
      last one, then the values the walk takes. */
  ghost predicate AreCases(keys: seq<int>, cases: seq<int>, t: Integral)
    requires 0 < |keys| <= CASES
  {
    var top := keys[|keys| - 1];
    if RoomAbove(keys, t) then cases == keys + Up(top, CASES - |keys|)
    else
      top <= t.max &&
      var counted := keys + Up(top, t.max - top);
      && |cases| == CASES
      && counted <= cases
      && AreFillers(keys, cases[|counted|..], t)
  }

  /** Copying the keys. */
  method CopyKeys<V>(values: seq<V>, hash: V -> int, page: nat, result: array<int>) returns (fill: nat)
    requires page < |values| && result.Length == CASES
    modifies result
    ensures 0 < fill <= CASES && result[..fill] == Keys(values, hash, page)
  {
    var valuesTo := if |values| - page < CASES then |values| - page else CASES;
    var first, last := page, page + valuesTo;
    fill := 0;
    while first != last
      invariant page <= first <= last && fill == first - page
      invariant result[..fill] == Hashes(values[page..first], hash)
    {
      result[fill] := hash(values[first]);
      fill, first := fill + 1, first + 1;
    }
  }

  /** Dead labels counting up from the last key. */
  method CountUp(result: array<int>, valuesTo: nat, t: Integral) returns (fill: nat)
    requires 0 < valuesTo <= result.Length && result[valuesTo - 1] <= t.max
    modifies result
    ensures valuesTo <= fill <= result.Length
    ensures result[..fill] == old(result[..valuesTo]) + Up(old(result[valuesTo - 1]), fill - valuesTo)
    ensures old(result[valuesTo - 1]) + (fill - valuesTo) <= t.max
    ensures fill == result.Length || old(result[valuesTo - 1]) + (fill - valuesTo) == t.max
  {
    fill := valuesTo;
    var lastValue := result[valuesTo - 1];
    while fill != result.Length && lastValue != t.max
      invariant valuesTo <= fill <= result.Length
      invariant lastValue == old(result[valuesTo - 1]) + (fill - valuesTo) <= t.max
      invariant result[..fill] == old(result[..valuesTo]) + Up(old(result[valuesTo - 1]), fill - valuesTo)
    {
      lastValue := lastValue + 1;
      result[fill] := lastValue;
      fill := fill + 1;
    }
  }

  /** Dead labels from the smallest value of the type on, stepping over the keys it meets. The labels
      found so far leave some value unused, so neither the walk nor the pointer into the keys runs
      past the last key, in whatever order they are. `lastValue` only ever goes up, so where it ends, at the
      last key or below, says that no increment leaves the type. */
  method FillGaps(result: array<int>, counted: nat, ghost keys: seq<int>, t: Integral)
    returns (lastValue: int)
    requires 0 < |keys| <= counted <= result.Length <= t.max - t.min + 1
    requires t.min <= keys[0] && keys[|keys| - 1] <= t.max
    requires result[..counted] == keys + Up(keys[|keys| - 1], t.max - keys[|keys| - 1])
    modifies result
    ensures result[..counted] == old(result[..counted])
    ensures AreFillers(keys, result[counted..], t)
    ensures t.min <= lastValue <= keys[|keys| - 1]
  {
    hide AreGaps, Ascending, Up;
    ghost var base := result[..counted];
    ghost var gaps: seq<int> := [];
    var fill := counted;
    var it := 0;
    lastValue := t.min;
    StartWalk(keys, t);
    while fill != result.Length
      invariant counted <= fill <= result.Length
      invariant result[..fill] == base + gaps
      invariant Walk(keys, gaps, it, lastValue, t)
      invariant lastValue <= keys[|keys| - 1]
      invariant gaps != [] ==> gaps[|gaps| - 1] == lastValue - 1
    {
      assert |gaps| == fill - counted;
      while lastValue == result[it]
        invariant result[..fill] == base + gaps
        invariant Walk(keys, gaps, it, lastValue, t)
        invariant lastValue <= keys[|keys| - 1]
        decreases |keys| - it
      {
        assert result[it] == (base + gaps)[it] == keys[it];
        StepOverKey(keys, gaps, it, lastValue, t);
        lastValue, it := lastValue + 1, it + 1;
      }
      assert result[it] == (base + gaps)[it] == keys[it];
      TakeGap(keys, gaps, it, lastValue, t);
      gaps := gaps + [lastValue];
      result[fill] := lastValue;
      fill, lastValue := fill + 1, lastValue + 1;
    }
    assert result[..] == base + gaps;
  }

  lemma StartWalk(keys: seq<int>, t: Integral)
    requires keys != [] && t.min <= keys[0]
    ensures Walk(keys, [], 0, t.min, t)
  {
  }

  lemma StepOverKey(keys: seq<int>, gaps: seq<int>, it: int, value: int, t: Integral)
    requires Walk(keys, gaps, it, value, t) && value == keys[it]
    requires |gaps| + |keys| + (t.max - keys[|keys| - 1]) < t.max - t.min + 1
    ensures it + 1 < |keys| && Walk(keys, gaps, it + 1, value + 1, t)
  {
    assert keys[..it + 1] == keys[..it] + [value];
  }

  lemma TakeGap(keys: seq<int>, gaps: seq<int>, it: int, value: int, t: Integral)
    requires Walk(keys, gaps, it, value, t) && value != keys[it]
    ensures Walk(keys, gaps + [value], it, value + 1, t)
  {
    LowKeysBelow(keys, it, value);
    NextGap(keys[..it], gaps, t.min, value);
  }

  /** `calculate_cases`. */
  method CalculateCases<V>(values: seq<V>, hash: V -> int, page: nat, t: Integral)
    returns (cases: seq<int>)
    requires page < |values|
    requires t.max - t.min >= CASES - 1
    requires forall k :: k in Keys(values, hash, page) ==> t.Holds(k)
    ensures |cases| == 256 && AreCases(Keys(values, hash, page), cases, t)
  {
    ghost var keys := Keys(values, hash, page);
    var result := new int[CASES](_ => 0);
    var valuesTo := CopyKeys(values, hash, page, result);
    assert keys[0] in keys && keys[valuesTo - 1] in keys;
    assert result[valuesTo - 1] == keys[valuesTo - 1];
    var fill := CountUp(result, valuesTo, t);
    if fill == CASES {
      assert result[..] == result[..fill];
    } else {
      var lastValue := FillGaps(result, fill, keys, t);
      assert t.Holds(lastValue);
      assert result[..fill] <= result[..];
    }
    cases := result[..];
  }

  /** Labels a `switch` can have: as many as cases, all different, the keys first. */
  predicate AreLabels(keys: seq<int>, cases: seq<int>) {
    && |cases| == 256
    && keys <= cases
    && Distinct(cases)
  }

  lemma UpContains(from: int, n: nat, k: int)
    ensures k in Up(from, n) <==> from < k <= from + n
  {
    if from < k <= from + n {
      assert Up(from, n)[k - from - 1] == k;
    }
  }

  /** Labels made by counting up collide with the keys exactly when a key is just above the last. */
  lemma CountedLabelsCollideIff(keys: seq<int>, n: nat)
    requires keys != []
    ensures
      var top := keys[|keys| - 1];
      Distinct(keys + Up(top, n)) <==> Distinct(keys) && forall k :: k in keys ==> !(top < k <= top + n)
  {
    var top, up := keys[|keys| - 1], Up(keys[|keys| - 1], n);
    DistinctConcat(keys, up);
    forall k | k in keys
      ensures k in up <==> top < k <= top + n
    {
      UpContains(top, n, k);
    }
  }

  /** The keys below `start + m` are the first `m`, in ascending order. */
  predicate Splits(keys: seq<int>, m: nat, start: int)
    requires m <= |keys|
  {
    && Ascending(keys[..m])
    && (forall k :: k in keys[..m] ==> k < start + m)
    && (forall k :: k in keys[m..] ==> start + m <= k)
  }

  predicate LowKeysFirst(keys: seq<int>, start: int) {
    exists m: nat :: m < |keys| && Splits(keys, m, start)
  }

  /** The pages whose `switch` compiles. No two hashes are equal; none is among the labels counted up
      from the last one; and when those do not suffice, the hashes below the values that the rest
      takes come first, in ascending order. */
  predicate Compiles(keys: seq<int>, t: Integral)
    requires 0 < |keys| <= CASES
  {
    var top := keys[|keys| - 1];
    && Distinct(keys)
    && if RoomAbove(keys, t) then forall k :: k in keys ==> !(top < k <= top + (CASES - |keys|))
       else
         && (forall k :: k in keys ==> k <= top)
         && LowKeysFirst(keys, t.min + Missing(keys, t))
  }

  /** The labels of a page are all different exactly when its hashes meet that condition. */
  lemma LabelsDifferIff(keys: seq<int>, cases: seq<int>, t: Integral)
    requires 0 < |keys| <= CASES && forall k :: k in keys ==> t.Holds(k)
    requires AreCases(keys, cases, t)
    ensures AreLabels(keys, cases) <==> Compiles(keys, t)
  {
    hide AreGaps, Ascending, Distinct, Up, Walk, LowKeysFirst;
    var top := keys[|keys| - 1];
    assert keys <= cases;
    if RoomAbove(keys, t) {
      CountedLabelsCollideIff(keys, CASES - |keys|);
    } else {
      var counted := keys + Up(top, t.max - top);
      var gaps := cases[|counted|..];
      assert cases == counted + gaps;
      CountedLabelsCollideIff(keys, t.max - top);
      DistinctConcat(counted, gaps);
      var it, value :| Walk(keys, gaps, it, value, t) && gaps[|gaps| - 1] == value - 1;
      assert top in keys && |gaps| == Missing(keys, t);
      if Distinct(keys) && forall k :: k in keys ==> k <= top {
        GapsDifferIff(keys, gaps, it, value, t);
      }
    }
  }

  /** The walk's labels are no keys and no labels counted up exactly when the keys below them come
      first, in ascending order. */
  lemma GapsDifferIff(keys: seq<int>, gaps: seq<int>, it: int, value: int, t: Integral)
    requires keys != [] && keys[|keys| - 1] <= t.max
    requires Distinct(keys) && forall k :: k in keys ==> t.min <= k <= keys[|keys| - 1]
    requires Walk(keys, gaps, it, value, t) && gaps != [] && gaps[|gaps| - 1] == value - 1
    ensures
      var counted := keys + Up(keys[|keys| - 1], t.max - keys[|keys| - 1]);
      Distinct(gaps) && (
        (forall c :: c in counted ==> c !in gaps)
        <==> LowKeysFirst(keys, t.min + |gaps|))
  {
    var counted := keys + Up(keys[|keys| - 1], t.max - keys[|keys| - 1]);
    if forall c :: c in counted ==> c !in gaps {
      assert forall k :: k in keys ==> k in counted;
      FillersApart(keys, gaps, it, value, t);
    }
    if LowKeysFirst(keys, t.min + |gaps|) {
      var m: nat :| m < |keys| && Splits(keys, m, t.min + |gaps|);
      SameSplit(keys, gaps, it, value, t, m);
      forall c | c in counted
        ensures c !in gaps
      {
        if c in gaps {
          LowGaps(keys, gaps, it, value, t, c);
        }
      }
    }
  }

  lemma FillersApart(keys: seq<int>, gaps: seq<int>, it: int, value: int, t: Integral)
    requires Distinct(keys) && (forall k :: k in keys ==> t.min <= k)
    requires Walk(keys, gaps, it, value, t) && forall k :: k in keys ==> k !in gaps
    ensures Splits(keys, it, t.min + |gaps|)
  {
    var low := keys[..it];
    LowKeysBelow(keys, it, value);
    forall k | k in keys[it..]
      ensures value <= k
    {
      var j :| it <= j < |keys| && keys[j] == k;
      assert k in keys;
      assert forall i :: 0 <= i < it ==> low[i] == keys[i] != keys[j];
    }
  }

  lemma LowGaps(keys: seq<int>, gaps: seq<int>, it: int, value: int, t: Integral, g: int)
    requires Walk(keys, gaps, it, value, t) && Splits(keys, it, t.min + |gaps|)
    requires keys != [] && keys[|keys| - 1] <= t.max && g in gaps
    ensures g !in keys + Up(keys[|keys| - 1], t.max - keys[|keys| - 1])
  {
    var top := keys[|keys| - 1];
    assert top in keys[it..];
    UpContains(top, t.max - top, g);
    forall i | 0 <= i < |keys|
      ensures keys[i] != g
    {
      if i < it {
        assert keys[..it][i] == keys[i];
      } else {
        assert keys[it..][i - it] == keys[i] && keys[i] in keys[it..];
      }
    }
  }

  lemma {:induction false} AscendingGrows(s: seq<int>, i: nat, j: nat)
    requires Ascending(s) && i <= j < |s|
    ensures s[j] >= s[i] + (j - i)
    decreases j
  {
    if i < j {
      AscendingGrows(s, i, j - 1);
    }
  }

  /** If the low keys come first, the walk has stepped over keys it was to step over and no other. */
  lemma SameSplit(keys: seq<int>, gaps: seq<int>, it: int, value: int, t: Integral, m: nat)
    requires Walk(keys, gaps, it, value, t) && gaps != [] && gaps[|gaps| - 1] == value - 1
    requires m < |keys| && Splits(keys, m, t.min + |gaps|)
    ensures Splits(keys, it, t.min + |gaps|)
  {
    if it <= m {
      forall k | k in keys[it..]
        ensures value <= k
      {
        var j :| it <= j < |keys| && keys[j] == k;
        if m <= j {
          assert keys[m..][j - m] == k && k in keys[m..];
        } else {
          assert it > 0 ==> keys[..m][it - 1] < keys[..m][it];
          assert it < j ==> keys[..m][it] < keys[..m][j];
        }
      }
      LowKeysBelow(keys, it, value);
    } else {
      assert keys[m..][0] == keys[m] && keys[m] in keys[m..];
      LastKeyIsNoGap(keys, gaps, it, value, t);
      AscendingGrows(keys[..it], m, it - 1);
      assert false;
    }
  }

  lemma LastKeyIsNoGap(keys: seq<int>, gaps: seq<int>, it: int, value: int, t: Integral)
    requires Walk(keys, gaps, it, value, t) && gaps != [] && gaps[|gaps| - 1] == value - 1
    ensures it > 0 ==> keys[it - 1] < value - 1
  {
    assert gaps[|gaps| - 1] in gaps;
    assert it > 0 ==> keys[..it][it - 1] == keys[it - 1];
  }

  lemma LowKeysBelow(keys: seq<int>, m: nat, value: int)
    requires m <= |keys| && Ascending(keys[..m]) && (m > 0 ==> keys[m - 1] < value)
    ensures forall k :: k in keys[..m] ==> k < value
  {
    forall k | k in keys[..m]
      ensures k < value
    {
      var i :| 0 <= i < m && keys[..m][i] == k;
      assert i < m - 1 ==> keys[..m][i] < keys[..m][m - 1];
    }
  }

  /** Ascending hashes meet the condition. */
  lemma AscendingCompiles(keys: seq<int>, t: Integral)
    requires 0 < |keys| <= CASES && Ascending(keys) && t.max - t.min >= CASES - 1
    requires t.Holds(keys[0]) && t.Holds(keys[|keys| - 1])
    ensures Compiles(keys, t)
  {
    var top := keys[|keys| - 1];
    assert forall i :: 0 <= i < |keys| ==> keys[i] <= top;
    if !RoomAbove(keys, t) {
      var start, m := t.min + Missing(keys, t), 0;
      while keys[m] < start + m
        invariant 0 <= m < |keys|
        invariant m > 0 ==> keys[m - 1] < start + m
        decreases |keys| - m
      {
        m := m + 1;
      }
      LowKeysBelow(keys, m, start + m);
      assert forall j :: m <= j < |keys| ==> keys[m] <= keys[j];
      assert Splits(keys, m, start);
    }
  }

  /** For a page with ascending hashes the labels are 256 different values that start with the keys. */
  lemma AscendingPageHasLabels(keys: seq<int>, cases: seq<int>, t: Integral)
    requires 0 < |keys| <= CASES && Ascending(keys) && t.max - t.min >= CASES - 1
    requires forall k :: k in keys ==> t.Holds(k)
    requires AreCases(keys, cases, t)
    ensures AreLabels(keys, cases)
  {
    AscendingCompiles(keys, t);
    LabelsDifferIff(keys, cases, t);
  }

  /** Every label is a value of the type, whatever the keys. */
  lemma LabelsAreInTheType(keys: seq<int>, cases: seq<int>, t: Integral)
    requires 0 < |keys| <= CASES && t.max - t.min >= CASES - 1
    requires forall k :: k in keys ==> t.Holds(k)
    requires AreCases(keys, cases, t)
    ensures forall c :: c in cases ==> t.Holds(c)
  {
    var top := keys[|keys| - 1];
    assert top in keys;
    var n := if RoomAbove(keys, t) then CASES - |keys| else t.max - top;
    var counted := keys + Up(top, n);
    var gaps := cases[|counted|..];
    assert cases == counted + gaps;
    forall c | c in cases
      ensures t.Holds(c)
    {
      UpContains(top, n, c);
      assert c in keys || c in Up(top, n) || c in gaps;
      if c in gaps {
        var it, value :| Walk(keys, gaps, it, value, t);
        assert t.min <= c < value;
      }
    }
  }

  lemma DistinctConcat(a: seq<int>, b: seq<int>)
    ensures Distinct(a + b) <==> Distinct(a) && Distinct(b) && forall x :: x in a ==> x !in b
  {
    var ab := a + b;
    if Distinct(ab) {
      forall i, j | 0 <= i < j < |a|
        ensures a[i] != a[j]
      {
        assert ab[i] != ab[j];
      }
      forall i, j | 0 <= i < j < |b|
        ensures b[i] != b[j]
      {
        assert ab[|a| + i] != ab[|a| + j];
      }
      forall i, j | 0 <= i < |a| && 0 <= j < |b|
        ensures a[i] != b[j]
      {
        assert ab[i] != ab[|a| + j];
      }
    } else {
      var i, j :| 0 <= i < j < |ab| && ab[i] == ab[j];
      if i < |a| <= j {
        assert ab[i] in a && ab[j] == b[j - |a|] && ab[j] in b;
      } else if j < |a| {
        assert a[i] == a[j];
      } else {
        assert b[i - |a|] == b[j - |a|];
      }
    }
  }

  /** A page of three names whose hashes are 7, 5 and 6 does not compile: the first dead label is 7. */
  lemma UnsortedPageCollides(cases: seq<int>)
    requires AreCases([7, 5, 6], cases, Integral(0, 0xffff_ffff))
    ensures !Distinct(cases)
  {
    assert cases[0] == 7 && cases[3] == 7;
  }

  /** Nor does a page with hashes 1, 0 and 255 of an 8-bit type: the third block starts with 0, meets 1
      first, and so does not see that 0 is a key. */
  lemma LowKeyOutOfOrderCollides(cases: seq<int>)
    requires AreCases([1, 0, 255], cases, Integral(0, 255))
    ensures !Distinct(cases)
  {
    var keys, t := [1, 0, 255], Integral(0, 255);
    LabelsDifferIff(keys, cases, t);
    forall m: nat | m < |keys|
      ensures !Splits(keys, m, 253)
    {
      if m < 2 {
        assert keys[m..][1 - m] == 0 && 0 in keys[m..];
      } else {
        assert keys[..m][0] > keys[..m][1];
      }
    }
  }

  // ----- No two values share a hash

  lemma {:induction false} CountsOfDistinct(s: seq<int>)
    ensures Distinct(s) <==> forall x :: x in s ==> multiset(s)[x] == 1
  {
    if s != [] {
      var front, last := s[..|s| - 1], s[|s| - 1];
      assert s == front + [last];
      CountsOfDistinct(front);
      if Distinct(s) {
        assert Distinct(front) && last !in front;
      } else if last in front {
        assert multiset(s)[last] > 1;
      } else {
        assert !Distinct(front);
        var x :| x in front && multiset(front)[x] != 1;
        assert multiset(s)[x] != 1;
      }
    }
  }

  lemma RearrangedDistinct(s: seq<int>, hs: seq<int>)
    requires multiset(s) == multiset(hs)
    ensures Distinct(s) <==> Distinct(hs)
  {
    CountsOfDistinct(s);
    CountsOfDistinct(hs);
    assert forall x :: x in s <==> x in multiset(s);
    assert forall x :: x in hs <==> x in multiset(hs);
  }

  function Swapped(s: seq<int>, i: nat): seq<int>
    requires 0 < i < |s|
  {
    s[i := s[i - 1]][i - 1 := s[i]]
  }

  /** Ascending, leaving out the element at `i`. */
  ghost predicate AscendingBut(s: seq<int>, i: nat) {
    forall j, k :: 0 <= j < k < |s| && j != i && k != i ==> s[j] < s[k]
  }

  /** Where the insertion stands: the new element is at `i`, below everything after it. */
  ghost predicate Inserting(s: seq<int>, i: nat, hs: seq<int>) {
    && i < |s|
    && multiset(s) == multiset(hs)
    && AscendingBut(s, i)
    && forall j :: i < j < |s| ==> s[i] < s[j]
  }

  lemma NothingInserted()
    ensures Ascending([])
  {
  }

  lemma StartInserting(s: seq<int>, hs: seq<int>, size: nat)
    requires size < |hs| && |s| == size && Ascending(s) && multiset(s) == multiset(hs[..size])
    ensures Inserting(s + [hs[size]], size, hs[..size + 1])
  {
    assert hs[..size + 1] == hs[..size] + [hs[size]];
  }

  lemma FoundDuplicate(s: seq<int>, i: nat, hs: seq<int>, size: nat)
    requires size <= |hs| && Inserting(s, i, hs[..size]) && 0 < i && s[i] == s[i - 1]
    ensures !Distinct(hs)
  {
    RearrangedDistinct(s, hs[..size]);
  }

  lemma NoDuplicate(s: seq<int>, hs: seq<int>)
    requires Ascending(s) && multiset(s) == multiset(hs)
    ensures Distinct(hs)
  {
    RearrangedDistinct(s, hs);
  }

  lemma SwapInserts(s: seq<int>, i: nat, hs: seq<int>)
    requires Inserting(s, i, hs) && 0 < i && s[i] < s[i - 1]
    ensures Inserting(Swapped(s, i), i - 1, hs)
  {
  }

  lemma Inserted(s: seq<int>, i: nat, hs: seq<int>)
    requires Inserting(s, i, hs) && (i == 0 || s[i - 1] < s[i])
    ensures Ascending(s) && multiset(s) == multiset(hs)
  {
  }

  /** The inner loop of `has_duplicate`: moves the newest hash down to its place, or stops at an
      equal one. */
  method Insert(hashes: array<int>, size: nat, ghost hs: seq<int>) returns (unique: bool)
    requires 0 < size <= hashes.Length && size <= |hs|
    requires Inserting(hashes[..size], size - 1, hs[..size])
    modifies hashes
    ensures unique ==> Ascending(hashes[..size]) && multiset(hashes[..size]) == multiset(hs[..size])
    ensures !unique ==> !Distinct(hs)
  {
    hide Inserting, Ascending, Distinct;
    var i := size - 1;
    while i > 0
      invariant 0 <= i < size
      invariant Inserting(hashes[..size], i, hs[..size])
    {
      ghost var s: seq<int> := hashes[..size];
      assert s[i] == hashes[i] && s[i - 1] == hashes[i - 1];
      if hashes[i] < hashes[i - 1] {
        SwapInserts(s, i, hs[..size]);
        var tmp := hashes[i];
        hashes[i] := hashes[i - 1];
        hashes[i - 1] := tmp;
        assert hashes[..size] == Swapped(s, i);
      } else if hashes[i] == hashes[i - 1] {
        FoundDuplicate(s, i, hs, size);
        return false;
      } else {
        break;
      }
      i := i - 1;
    }
    Inserted(hashes[..size], i, hs[..size]);
    return true;
  }

  /** `has_duplicate`, which despite its name returns true when there is none: an insertion sort
      that stops at the first equal pair. */
  method HasDuplicate<V>(values: seq<V>, hash: V -> int) returns (r: bool)
    ensures r <==> Distinct(Hashes(values, hash))
  {
    hide Inserting, Ascending, Distinct;
    ghost var hs := Hashes(values, hash);
    var hashes: array<int> := new int[|values|](_ => 0);
    var size := 0;
    NothingInserted();
    assert hashes[..0] == hs[..0] == [];
    while size < |values|
      invariant 0 <= size <= |values|
      invariant Ascending(hashes[..size])
      invariant multiset(hashes[..size]) == multiset(hs[..size])
    {
      ghost var before: seq<int> := hashes[..size];
      hashes[size] := hash(values[size]);
      assert hashes[..size + 1] == before + [hs[size]];
      StartInserting(before, hs, size);
      size := size + 1;
      var unique := Insert(hashes, size, hs);
      if !unique {
        return false;
      }
    }
    assert hs[..size] == hs;
    NoDuplicate(hashes[..size], hs);
    return true;
  }

  // ----- The lookup

  /** The `switch`: the case whose label is `h`, if any. */
  function SwitchOn(cases: seq<int>, h: int, from: nat := 0): (r: Option<nat>)
    requires from <= |cases|
    ensures r.Some? ==> from <= r.value < |cases| && cases[r.value] == h
    ensures r.None? ==> forall i :: from <= i < |cases| ==> cases[i] != h
    decreases |cases| - from
  {
    if from == |cases| then None
    else if cases[from] == h then Some(from)
    else SwitchOn(cases, h, from + 1)
  }

  /** `constexpr_switch` from `page` on, with `labels` the case labels of each page. A live case
      compares its value and gives up when it differs; a dead case falls through to the default,
      which goes to the next page if there is one. */
  function ConstexprSwitch<V(==)>(
    values: seq<V>, hash: V -> int, labels: nat -> seq<int>, page: nat, searched: V): Option<nat>
    decreases |values| - page
  {
    match SwitchOn(labels(page), hash(searched))
    case Some(val) =>
      if val + page < |values| then
        if values[val + page] == searched then Some(val + page) else None
      else if |values| > CASES + page then
        ConstexprSwitch(values, hash, labels, page + CASES, searched)
      else None
    case None =>
      if |values| > CASES + page then
        ConstexprSwitch(values, hash, labels, page + CASES, searched)
      else None
  }

  /** A value with the hash of `searched` is the only place where `searched` can be. */
  lemma LiveCaseDecides<V>(values: seq<V>, hash: V -> int, i: nat, searched: V)
    requires Distinct(Hashes(values, hash))
    requires i < |values| && hash(values[i]) == hash(searched)
    ensures forall j :: 0 <= j < |values| && values[j] == searched ==> j == i
  {
    var hs := Hashes(values, hash);
    forall j | 0 <= j < |values| && values[j] == searched
      ensures j == i
    {
      assert hs[i] == hs[j];
    }
  }

  /** One page of the switch is one page of linear search. */
  lemma PageDecides<V>(values: seq<V>, hash: V -> int, cases: seq<int>, page: nat, searched: V)
    requires page < |values|
    requires Distinct(Hashes(values, hash)) && AreLabels(Keys(values, hash, page), cases)
    ensures LinearSearch(values, searched, page)
         == var at := SwitchOn(cases, hash(searched));
            if at.Some? && at.value + page < |values| then
              if values[at.value + page] == searched then Some(at.value + page) else None
            else if |values| > CASES + page then LinearSearch(values, searched, page + CASES)
            else None
  {
    var h, keys := hash(searched), Keys(values, hash, page);
    var at := SwitchOn(cases, h);
    var found := LinearSearch(values, searched, page);
    KeysAreHashes(values, hash, page);
    assert forall i :: 0 <= i < |keys| ==> cases[i] == keys[i];
    if found.Some? && found.value < page + |keys| {
      assert cases[found.value - page] == h;
    } else if at.Some? && at.value + page < |values| {
      LiveCaseDecides(values, hash, at.value + page, searched);
    } else if |values| > CASES + page {
      SkipPage(values, searched, page, page + CASES);
    }
  }

  lemma SkipPage<V>(values: seq<V>, searched: V, page: nat, next: nat)
    requires page <= next <= |values|
    requires forall i :: page <= i < next ==> values[i] != searched
    ensures LinearSearch(values, searched, page) == LinearSearch(values, searched, next)
    decreases next - page
  {
  }

  /** The paged switch finds exactly what linear search finds, for any number of pages, any hash
      without a repeated value, and any case labels the pages compile with. */
  lemma {:induction false} SwitchIsLinearSearch<V>(
    values: seq<V>, hash: V -> int, labels: nat -> seq<int>, page: nat, searched: V)
    requires page < |values|
    requires Distinct(Hashes(values, hash))
    requires forall p: nat :: p < |values| ==> AreLabels(Keys(values, hash, p), labels(p))
    ensures ConstexprSwitch(values, hash, labels, page, searched) == LinearSearch(values, searched, page)
    decreases |values| - page
  {
    PageDecides(values, hash, labels(page), page, searched);
    if |values| > CASES + page {
      SwitchIsLinearSearch(values, hash, labels, page + CASES, searched);
    }
  }

  /** Every page from `page` on compiles. */
  predicate PagesCompile<V>(values: seq<V>, hash: V -> int, t: Integral, page: nat)
    requires page < |values|
    decreases |values| - page
  {
    && Compiles(Keys(values, hash, page), t)
    && (|values| > CASES + page ==> PagesCompile(values, hash, t, page + CASES))
  }

  /** The switch with the labels `calculate_cases` makes, page by page, for all values whose `switch`
      statements compile. */
  method SwitchWithCalculatedCases<V(==)>(values: seq<V>, hash: V -> int, t: Integral, page: nat, searched: V)
    returns (r: Option<nat>)
    requires page < |values|
    requires t.max - t.min >= CASES - 1
    requires Distinct(Hashes(values, hash)) && PagesCompile(values, hash, t, page)
    requires forall v :: v in values ==> t.Holds(hash(v))
    ensures r == LinearSearch(values, searched, page)
    decreases |values| - page
  {
    hide Compiles, AreCases, Distinct;
    ghost var keys := Keys(values, hash, page);
    KeysInTheType(values, hash, page, t);
    var cases := CalculateCases(values, hash, page, t);
    LabelsDifferIff(keys, cases, t);
    PageDecides(values, hash, cases, page, searched);
    var at := SwitchOn(cases, hash(searched));
    if at.Some? && at.value + page < |values| {
      return if values[at.value + page] == searched then Some(at.value + page) else None;
    }
    if |values| > CASES + page {
      r := SwitchWithCalculatedCases(values, hash, t, page + CASES, searched);
    } else {
      return None;
    }
  }

  lemma KeysInTheType<V>(values: seq<V>, hash: V -> int, page: nat, t: Integral)
    requires page < |values| && forall v :: v in values ==> t.Holds(hash(v))
    ensures forall k :: k in Keys(values, hash, page) ==> t.Holds(k)
  {
    var keys := Keys(values, hash, page);
    KeysAreHashes(values, hash, page);
    forall k | k in keys
      ensures t.Holds(k)
    {
      var i :| 0 <= i < |keys| && keys[i] == k;
      assert values[page + i] in values;
    }
  }

  /** Values with ascending hashes compile, page by page; enumerators are their own default hash. */
  lemma {:induction false} AscendingPagesCompile<V>(values: seq<V>, hash: V -> int, t: Integral, page: nat)
    requires page < |values| && t.max - t.min >= CASES - 1
    requires Ascending(Hashes(values, hash)) && forall v :: v in values ==> t.Holds(hash(v))
    ensures PagesCompile(values, hash, t, page)
    decreases |values| - page
  {
    hide Compiles;
    var hs, keys := Hashes(values, hash), Keys(values, hash, page);
    KeysAreHashes(values, hash, page);
    KeysInTheType(values, hash, page, t);
    assert forall i :: 0 <= i < |keys| ==> keys[i] == hs[page + i];
    assert keys[0] in keys && keys[|keys| - 1] in keys;
    AscendingCompiles(keys, t);
    if |values| > CASES + page {
      AscendingPagesCompile(values, hash, t, page + CASES);
    }
  }
}
