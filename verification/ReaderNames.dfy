/** The reader names PC/SC returns in one buffer, each ended by a NUL, the list ended by another. */
module ReaderNames {

  const NUL: char := '\0'

  /** `strlen` from the start of `s`; a C++ string has a NUL after its last character. */
  function StrLen(s: string): (n: nat)
    ensures n <= |s| && forall i :: 0 <= i < n ==> s[i] != '\0'
    ensures n < |s| ==> s[n] == '\0'
  {
    if s == [] || s[0] == NUL then 0 else 1 + StrLen(s[1..])
  }

  /** The pointer walk from the start of `s` ends without leaving the buffer. */
  predicate Stays(s: string) {
    s == [] || s[0] == NUL || (StrLen(s) < |s| && Stays(s[StrLen(s) + 1..]))
  }

  /** The names the walk meets. */
  function Names(s: string): seq<string>
    requires Stays(s)
  {
    if s == [] || s[0] == NUL then []
    else [s[..StrLen(s)]] + Names(s[StrLen(s) + 1..])
  }

  predicate DoubleNulAt(s: string, i: int) {
    0 <= i < |s| - 1 && s[i] == '\0' && s[i + 1] == '\0'
  }

  ghost predicate HasDoubleNul(s: string) {
    exists i :: DoubleNulAt(s, i)
  }

  /** The walk stays in the buffer exactly when the buffer is empty, starts with a NUL, ends with one,
      or has two in a row. */
  lemma {:induction false} StaysIffTerminated(s: string)
    ensures Stays(s) <==> s == [] || s[0] == '\0' || s[|s| - 1] == '\0' || HasDoubleNul(s)
    decreases |s|
  {
    if s != [] && s[0] != NUL {
      var n := StrLen(s);
      if n < |s| {
        var rest := s[n + 1..];
        StaysIffTerminated(rest);
        DoubleNulAfter(s, n);
      }
    }
  }

  lemma DoubleNulAfter(s: string, n: nat)
    requires n == StrLen(s) < |s|
    ensures HasDoubleNul(s) <==> (n + 1 < |s| && s[n + 1] == NUL) || HasDoubleNul(s[n + 1..])
  {
    var rest := s[n + 1..];
    forall i | DoubleNulAt(s, i)
      ensures i == n || DoubleNulAt(rest, i - (n + 1))
    {
    }
    forall i | DoubleNulAt(rest, i)
      ensures DoubleNulAt(s, n + 1 + i)
    {
    }
    assert n + 1 < |s| && s[n + 1] == NUL ==> DoubleNulAt(s, n);
  }

  /** Names with a NUL after each. */
  function Terminated(names: seq<string>): string {
    if names == [] then [] else names[0] + ['\0'] + Terminated(names[1..])
  }

  /** A list of names as PC/SC lays it out. */
  function MultiString(names: seq<string>): string {
    Terminated(names) + ['\0']
  }

  predicate IsName(name: string) {
    name != [] && '\0' !in name
  }

  /** From any names with a NUL after each, and then the end of the buffer or a NUL with anything after
      it, the walk reads those names. */
  lemma {:induction false} NamesOfTerminated(names: seq<string>, after: string)
    requires forall name :: name in names ==> IsName(name)
    requires after == [] || after[0] == '\0'
    ensures Stays(Terminated(names) + after)
    ensures Names(Terminated(names) + after) == names
  {
    hide StrLen;
    var s := Terminated(names) + after;
    if names != [] {
      var name, rest := names[0], Terminated(names[1..]) + after;
      assert IsName(name);
      assert s == name + [NUL] + rest;
      LengthOfName(name, rest);
      assert s[|name| + 1..] == rest && s[..|name|] == name;
      NamesOfTerminated(names[1..], after);
    }
  }

  /** From the multi-string of any names, with anything after it, the walk reads those names. */
  lemma NamesOfMultiString(names: seq<string>, after: string)
    requires forall name :: name in names ==> IsName(name)
    ensures Stays(MultiString(names) + after)
    ensures Names(MultiString(names) + after) == names
  {
    NamesOfTerminated(names, ['\0'] + after);
    assert Terminated(names) + ['\0'] + after == Terminated(names) + (['\0'] + after);
  }

  /** In every buffer the walk does not leave, what it reads is all there is up to the first NUL where a
      name would start. */
  lemma {:induction false} NamesAreTheFront(s: string)
    requires Stays(s)
    ensures forall name :: name in Names(s) ==> IsName(name)
    ensures Terminated(Names(s)) <= s
    ensures var after := s[|Terminated(Names(s))|..];
      after == [] || after[0] == '\0'
    decreases |s|
  {
    hide StrLen;
    if s != [] && s[0] != NUL {
      var n := StrLen(s);
      var rest := s[n + 1..];
      NamesAreTheFront(rest);
      FrontStep(s, n, Terminated(Names(rest)));
      assert Names(s) == [s[..n]] + Names(rest);
      assert Names(s)[1..] == Names(rest);
    }
  }

  lemma FrontStep(s: string, n: nat, front: string)
    requires n < |s| && s[n] == '\0' && front <= s[n + 1..]
    ensures var longer := s[..n] + ['\0'] + front;
      longer <= s && s[|longer|..] == s[n + 1..][|front|..]
  {
  }

  lemma {:induction false} LengthOfName(name: string, rest: string)
    requires NUL !in name
    ensures StrLen(name + [NUL] + rest) == |name|
  {
    var s := name + [NUL] + rest;
    if name != [] {
      assert name[0] in name;
      assert s[1..] == name[1..] + [NUL] + rest;
      LengthOfName(name[1..], rest);
    }
  }

  /** The C string at a pointer into the buffer. */
  function CString(buffer: string, p: nat): string {
    if p <= |buffer| then buffer[p..][..StrLen(buffer[p..])] else []
  }

  function CStrings(buffer: string, pointers: seq<nat>): (names: seq<string>)
    ensures |names| == |pointers|
  {
    seq(|pointers|, i requires 0 <= i < |pointers| => CString(buffer, pointers[i]))
  }

  lemma CStringsSnoc(buffer: string, pointers: seq<nat>, p: nat)
    ensures CStrings(buffer, pointers + [p]) == CStrings(buffer, pointers) + [CString(buffer, p)]
  {
  }

  /** The pointer on a name: the name there is the first of those left, and the next pointer is in
      the buffer. */
  lemma OnAName(buffer: string, p: nat)
    requires p < |buffer| && buffer[p] != NUL && Stays(buffer[p..])
    ensures var next := p + StrLen(buffer[p..]) + 1;
      && next <= |buffer| && Stays(buffer[next..])
      && Names(buffer[p..]) == [CString(buffer, p)] + Names(buffer[next..])
  {
  }

  /** The walk stands at `p`, with the names before it collected. */
  ghost predicate Walked(buffer: string, pointers: seq<nat>, p: nat) {
    && p <= |buffer| && Stays(buffer[p..]) && Stays(buffer)
    && CStrings(buffer, pointers) + Names(buffer[p..]) == Names(buffer)
  }

  lemma WalkStart(buffer: string)
    requires Stays(buffer)
    ensures Walked(buffer, [], 0)
  {
  }

  lemma WalkOn(buffer: string, pointers: seq<nat>, p: nat)
    requires Walked(buffer, pointers, p) && p < |buffer| && buffer[p] != NUL
    ensures p + StrLen(buffer[p..]) + 1 <= |buffer|
    ensures Walked(buffer, pointers + [p], p + StrLen(buffer[p..]) + 1)
  {
    hide StrLen, CStrings, CString;
    OnAName(buffer, p);
    CStringsSnoc(buffer, pointers, p);
  }

  lemma CStringLength(buffer: string, p: nat)
    requires p <= |buffer|
    ensures |CString(buffer, p)| == StrLen(buffer[p..])
  {
  }

  lemma WalkEnd(buffer: string, pointers: seq<nat>, p: nat)
    requires Walked(buffer, pointers, p) && (p == |buffer| || buffer[p] == NUL)
    ensures CStrings(buffer, pointers) == Names(buffer)
  {
  }

  /** `p` is just after the name at the last pointer. */
  predicate IsNext(buffer: string, pointers: seq<nat>, p: nat)
    requires pointers != []
  {
    var last := pointers[|pointers| - 1];
    p == last + |CString(buffer, last)| + 1
  }

  /** `getReaderNamePointerList`. */
  method GetReaderNamePointerList(readerNames: string) returns (pointers: seq<nat>)
    requires Stays(readerNames)
    ensures forall p :: p in pointers ==> p < |readerNames|
    ensures CStrings(readerNames, pointers) == Names(readerNames)
    ensures pointers != [] ==> pointers[0] == 0
    ensures forall i :: 0 <= i < |pointers| - 1 ==>
      pointers[i + 1] == pointers[i] + |CString(readerNames, pointers[i])| + 1
  {
    hide Walked, CStrings, CString, Names, StrLen;
    pointers := [];
    WalkStart(readerNames);
    if readerNames == [] {
      WalkEnd(readerNames, pointers, 0);
      return;
    }
    var name := 0;
    while name < |readerNames| && readerNames[name] != NUL
      invariant name <= |readerNames|
      invariant forall p :: p in pointers ==> p < |readerNames|
      invariant Walked(readerNames, pointers, name)
      invariant if pointers == [] then name == 0 else pointers[0] == 0 && IsNext(readerNames, pointers, name)
      invariant forall i :: 0 <= i < |pointers| - 1 ==>
        pointers[i + 1] == pointers[i] + |CString(readerNames, pointers[i])| + 1
      decreases |readerNames| - name
    {
      WalkOn(readerNames, pointers, name);
      CStringLength(readerNames, name);
      pointers := pointers + [name];
      name := name + StrLen(readerNames[name..]) + 1;
    }
    WalkEnd(readerNames, pointers, name);
  }

  /** `SCARD_READERSTATE`, as far as the query fills it in. */
  datatype ReaderState = ReaderState(reader: nat, currentState: nat, eventState: nat)

  const SCARD_STATE_UNAWARE := 0

  /** The states `getReaderStates` asks PC/SC about: one for each name, in order, unaware. */
  method GetReaderStates(readerNames: string) returns (states: seq<ReaderState>)
    requires Stays(readerNames)
    ensures |states| == |Names(readerNames)|
    ensures forall i :: 0 <= i < |states| ==>
      && states[i].reader <= |readerNames| && CString(readerNames, states[i].reader) == Names(readerNames)[i]
      && states[i].currentState == states[i].eventState == 0
  {
    states := [];
    var pointers := GetReaderNamePointerList(readerNames);
    for i := 0 to |pointers|
      invariant |states| == i
      invariant forall j :: 0 <= j < i ==>
        states[j] == ReaderState(pointers[j], SCARD_STATE_UNAWARE, SCARD_STATE_UNAWARE)
    {
      states := states + [ReaderState(pointers[i], SCARD_STATE_UNAWARE, SCARD_STATE_UNAWARE)];
    }
    assert forall i :: 0 <= i < |pointers| ==>
      pointers[i] in pointers && CStrings(readerNames, pointers)[i] == CString(readerNames, pointers[i]);
  }
}
