/** `flag_set`: a set of enumerators kept as a bitset, proved to be a finite set. */
module FlagSets {

  /** The members of a bitset. */
  ghost function Members(bits: seq<bool>): (m: set<nat>)
    ensures forall i :: i in m <==> 0 <= i < |bits| && bits[i]
  {
    set i: nat | 0 <= i < |bits| && bits[i]
  }

  ghost function Everything(n: nat): (all: set<nat>)
    ensures forall i :: i in all <==> 0 <= i < n
  {
    if n == 0 then {} else Everything(n - 1) + {n - 1}
  }

  lemma MembersSnoc(bits: seq<bool>, bit: bool)
    ensures Members(bits + [bit]) == Members(bits) + if bit then {|bits|} else {}
    ensures |Members(bits + [bit])| == |Members(bits)| + if bit then 1 else 0
  {
  }

  /** `flag_set<T>`; the size is the value of the sentinel enumerator. */
  class FlagSet {
    const flags: array<bool>

    ghost function Contents(): set<nat>
      reads this, flags
    {
      Members(flags[..])
    }

    constructor (size: nat)
      ensures fresh(flags) && flags.Length == size && Contents() == {}
    {
      flags := new bool[size](_ => false);
    }

    constructor Of(size: nat, val: nat)
      requires val < size
      ensures fresh(flags) && flags.Length == size && Contents() == {val}
    {
      var bits := new bool[size](_ => false);
      bits[val] := true;
      flags := bits;
    }

    constructor Copy(other: FlagSet)
      ensures fresh(flags) && flags.Length == other.flags.Length && Contents() == other.Contents()
    {
      var bits := new bool[other.flags.Length](_ => false);
      forall i | 0 <= i < bits.Length {
        bits[i] := other.flags[i];
      }
      flags := bits;
      new;
      assert flags[..] == other.flags[..];
    }

    /** `operator&=(const T&)`. */
    method AndAssignValue(val: nat)
      requires val < flags.Length
      modifies flags
      ensures Contents() == old(Contents()) * {val}
    {
      var tmp := flags[val];
      forall i | 0 <= i < flags.Length {
        flags[i] := false;
      }
      flags[val] := tmp;
    }

    /** `operator&=(const flag_set&)`. */
    method AndAssign(o: FlagSet)
      requires o.flags.Length == flags.Length
      modifies flags
      ensures Contents() == old(Contents()) * old(o.Contents())
    {
      forall i | 0 <= i < flags.Length {
        flags[i] := flags[i] && o.flags[i];
      }
    }

    /** `operator|=(const T&)`. */
    method OrAssignValue(val: nat)
      requires val < flags.Length
      modifies flags
      ensures Contents() == old(Contents()) + {val}
    {
      flags[val] := true;
    }

    /** `operator|=(const flag_set&)`. */
    method OrAssign(o: FlagSet)
      requires o.flags.Length == flags.Length
      modifies flags
      ensures Contents() == old(Contents()) + old(o.Contents())
    {
      forall i | 0 <= i < flags.Length {
        flags[i] := flags[i] || o.flags[i];
      }
    }

    /** `operator&(const T&)`; its assertion that at most one bit is left holds. */
    method AndValue(val: nat) returns (ret: FlagSet)
      requires val < flags.Length
      ensures fresh(ret) && fresh(ret.flags) && ret.flags.Length == flags.Length
      ensures ret.Contents() == Contents() * {val}
    {
      ret := new FlagSet.Copy(this);
      ret.AndAssignValue(val);
      var count := ret.Count();
      AtMostOne(ret.Contents(), val);
      assert count <= 1;
    }

    /** `operator|(const T&)`; its assertion that at least one bit is set holds. */
    method OrValue(val: nat) returns (ret: FlagSet)
      requires val < flags.Length
      ensures fresh(ret) && fresh(ret.flags) && ret.flags.Length == flags.Length
      ensures ret.Contents() == Contents() + {val}
    {
      ret := new FlagSet.Copy(this);
      ret.OrAssignValue(val);
      var count := ret.Count();
      assert val in ret.Contents();
      assert count >= 1;
    }

    /** `operator~`. */
    method Complement() returns (cp: FlagSet)
      ensures fresh(cp) && fresh(cp.flags) && cp.flags.Length == flags.Length
      ensures cp.Contents() == Everything(flags.Length) - Contents()
    {
      cp := new FlagSet.Copy(this);
      cp.FlipAll();
    }

    /** `flip()`. */
    method FlipAll()
      modifies flags
      ensures Contents() == Everything(flags.Length) - old(Contents())
    {
      forall i | 0 <= i < flags.Length {
        flags[i] := !flags[i];
      }
    }

    /** `set(val, value)`, and `reset(val)` with `value` false. */
    method Set(val: nat, value: bool)
      requires val < flags.Length
      modifies flags
      ensures Contents() == if value then old(Contents()) + {val} else old(Contents()) - {val}
    {
      flags[val] := value;
    }

    /** `flip(val)`. */
    method Flip(val: nat)
      requires val < flags.Length
      modifies flags
      ensures Contents() == if val in old(Contents()) then old(Contents()) - {val} else old(Contents()) + {val}
    {
      flags[val] := !flags[val];
    }

    /** `operator[]`. */
    method Get(val: nat) returns (r: bool)
      requires val < flags.Length
      ensures r <==> val in Contents()
    {
      r := flags[val];
    }

    /** `count`. */
    method Count() returns (count: nat)
      ensures count == |Contents()|
    {
      count := 0;
      var i := 0;
      while i < flags.Length
        invariant 0 <= i <= flags.Length && count == |Members(flags[..i])|
      {
        MembersSnoc(flags[..i], flags[i]);
        assert flags[..i + 1] == flags[..i] + [flags[i]];
        if flags[i] {
          count := count + 1;
        }
        i := i + 1;
      }
      assert flags[..i] == flags[..];
    }

    /** `operator==`. */
    method Equals(o: FlagSet) returns (r: bool)
      requires o.flags.Length == flags.Length
      ensures r <==> Contents() == o.Contents()
    {
      var i := 0;
      while i < flags.Length
        invariant 0 <= i <= flags.Length && forall j :: 0 <= j < i ==> flags[j] == o.flags[j]
      {
        if flags[i] != o.flags[i] {
          assert i in Contents() <==> i !in o.Contents();
          return false;
        }
        i := i + 1;
      }
      return true;
    }
  }

  lemma AtMostOne(s: set<nat>, val: nat)
    requires s <= {val}
    ensures |s| <= 1
  {
    if val in s {
      assert s == {val};
    } else {
      assert s == {};
    }
  }
}
