/** Reading a transparent file in blocks (`readBinary`) and the length of a DER object from its
    header (`readDataLengthFromAsn1`), as functions of the session they run in. */
module FileRead {
  import opened Bytes
  import opened Apdu
  import opened Chain
  import opened Sessions

  function Min(a: nat, b: nat): nat {
    if a < b then a else b
  }

  /** The READ BINARY that asks for `block` bytes at `offset`; Le is cut to a byte. */
  function ReadCommand(offset: nat, block: nat): CommandApdu {
    CommandApdu(0x00, 0xb0, HiByte(offset), LoByte(offset), [], block % 256)
  }

  /** READ BINARY on the wire: with bit 8 of P1 clear, P1-P2 is an offset in the selected file. */
  function ReadBytes(p1: Byte, p2: Byte, le: Byte): Bytes {
    [0x00, 0xb0, p1, p2, le]
  }

  lemma ReadCommandBytes(offset: nat, block: nat)
    ensures ReadCommand(offset, block).Encoding()
         == Ok(ReadBytes(HiByte(offset), LoByte(offset), block % 256))
  {
    var c := ReadCommand(offset, block);
    assert c.Encoding().value == ReadBytes(c.p1, c.p2, block % 256);
  }

  /** How many blocks cover `length` bytes. */
  function BlockCount(length: nat, block: nat): nat
    requires block > 0
  {
    if length == 0 then 0 else if length <= block then 1 else 1 + BlockCount(length - block, block)
  }

  /** Where the last of them starts. */
  function LastStart(length: nat, block: nat): nat
    requires block > 0
  {
    if length <= block then 0 else block + LastStart(length - block, block)
  }

  /** Every block starts below 0x8000, so that P1-P2 can hold where it does with the top bit of P1 clear. */
  predicate Addressable(length: nat, block: nat)
    requires block > 0
  {
    length == 0 || LastStart(length, block) < 0x8000
  }

  lemma Multiples(x: int, y: int, b: nat)
    ensures x <= y ==> x * b <= y * b
  {
  }

  lemma QuotientIs(a: nat, b: nat, q: nat)
    requires b > 0 && q * b <= a < q * b + b
    ensures a / b == q
  {
    var d := a / b;
    assert a == d * b + a % b;
    Multiples(d + 1, q, b);
    Multiples(q + 1, d, b);
  }

  /** In closed form: the length divided by the block length, rounded up, and all but one of them. */
  lemma {:induction false} BlocksInClosedForm(length: nat, block: nat)
    requires block > 0
    ensures BlockCount(length, block) == (length + block - 1) / block
    ensures length > 0 ==> LastStart(length, block) == (BlockCount(length, block) - 1) * block
  {
    BlockCountIsLeast(length, block);
    QuotientIs(length + block - 1, block, BlockCount(length, block));
  }

  lemma {:induction false} BlockCountIsLeast(length: nat, block: nat)
    requires block > 0
    ensures var n := BlockCount(length, block);
      && n * block < length + block && length <= n * block
      && (length > 0 ==> n > 0 && LastStart(length, block) == (n - 1) * block)
  {
    if length > block {
      BlockCountIsLeast(length - block, block);
      var n := BlockCount(length - block, block);
      assert (n + 1) * block == n * block + block;
      assert n * block == (n - 1) * block + block;
    }
  }

  lemma {:induction false} LastStartIsLast(length: nat, block: nat)
    requires block > 0 && length > 0
    ensures LastStart(length, block) < length <= LastStart(length, block) + block
  {
    if length > block {
      LastStartIsLast(length - block, block);
    }
  }

  /** The variables of the block loop: `offset`, `lengthCounter`, `blockLengthVar`, `resultBytes`. */
  datatype Loop = Loop(offset: nat, counter: nat, block: nat, collected: Bytes)

  /** One pass of the loop. */
  ghost function OnePass<S(!new)>(card: Card<S>, x: Session<S>, l: Loop): Step<Loop, S>
    requires EndsChains(card)
    requires l.counter > 0
  {
    var b := Min(l.block, l.counter);
    var read := Transmit(card, x, ReadCommand(l.offset, b));
    match read.result
    case Err(error) => Step(Err(error), read.next)
    case Ok(response) =>
      Step(Ok(Loop(l.offset + b, l.counter - b, b, l.collected + response.data)), read.next)
  }

  /** The loop, run until nothing is left to read or a pass throws. */
  ghost function ReadBlocks<S(!new)>(card: Card<S>, x: Session<S>, l: Loop): Step<Bytes, S>
    requires EndsChains(card)
    requires l.block > 0 || l.counter == 0
    decreases l.counter
  {
    if l.counter == 0 then Step(Ok(l.collected), x)
    else
      var pass := OnePass(card, x, l);
      match pass.result
      case Err(error) => Step(Err(error), pass.next)
      case Ok(l') => ReadBlocks(card, pass.next, l')
  }

  /** `passes` passes of the loop, as long as none throws. */
  ghost function Iterate<S(!new)>(card: Card<S>, x: Session<S>, l: Loop, passes: nat): Step<Loop, S>
    requires EndsChains(card)
    decreases passes
  {
    if passes == 0 || l.counter == 0 then Step(Ok(l), x)
    else
      var pass := OnePass(card, x, l);
      match pass.result
      case Err(_) => pass
      case Ok(l') => Iterate(card, pass.next, l', passes - 1)
  }

  /** The loop throws at some point. */
  ghost predicate Throws<S(!new)>(card: Card<S>, x: Session<S>, l: Loop)
    requires EndsChains(card)
  {
    exists passes: nat :: Iterate(card, x, l, passes).result.Err?
  }

  /** The loop is over after at most `passes` passes: a pass has thrown, or nothing is left to read. */
  ghost predicate Over<S(!new)>(card: Card<S>, x: Session<S>, l: Loop, passes: nat)
    requires EndsChains(card)
  {
    var after := Iterate(card, x, l, passes).result;
    after.Ok? ==> after.value.counter == 0
  }

  /** `readBinary` comes to an end: with bytes to read and a block length of 0, only by throwing. */
  ghost predicate Ends<S(!new)>(card: Card<S>, x: Session<S>, length: nat, block: nat): (ends: bool)
    requires EndsChains(card)
    ensures ends <==> block > 0 || length == 0 || Throws(card, x, Loop(0, length, block, []))
  {
    OverIff(card, x, Loop(0, length, block, []));
    exists passes: nat :: Over(card, x, Loop(0, length, block, []), passes)
  }

  /** What a loop that throws comes to. */
  ghost function Thrown<S(!new)>(card: Card<S>, x: Session<S>, l: Loop): Step<Bytes, S>
    requires EndsChains(card) && Throws(card, x, l)
  {
    var passes: nat :| Iterate(card, x, l, passes).result.Err?;
    var end := Iterate(card, x, l, passes);
    Step(Err(end.result.error), end.next)
  }

  /** `readBinary`. */
  ghost function ReadBinary<S(!new)>(card: Card<S>, x: Session<S>, length: nat, block: nat): Step<Bytes, S>
    requires EndsChains(card) && Ends(card, x, length, block)
  {
    var l := Loop(0, length, block, []);
    if block > 0 || length == 0 then
      var blocks := ReadBlocks(card, x, l);
      Step(CheckLength(blocks.result, length), blocks.next)
    else Thrown(card, x, l)
  }

  function CheckLength(collected: Result<Bytes>, length: nat): Result<Bytes> {
    match collected
    case Ok(bytes) => if |bytes| != length then Err(InvalidLength(|bytes|)) else collected
    case Err(_) => collected
  }

  const DER_SEQUENCE_TYPE_TAG: Byte := 0x30
  const DER_TWO_BYTE_LENGTH: Byte := 0x82

  /** The four header bytes `readDataLengthFromAsn1` asks for. */
  ghost function ReadHeader<S(!new)>(card: Card<S>, x: Session<S>): Step<ResponseApdu, S>
    requires Returns(card, x, ReadCommand(0, 4))
  {
    Transmit(card, x, ReadCommand(0, 4))
  }

  /** The answer holds every byte the header check looks at. */
  predicate EnoughHeader(answer: Result<ResponseApdu>) {
    answer.Ok? ==>
      var data := answer.value.data;
      && |data| >= 1
      && (data[0] == DER_SEQUENCE_TYPE_TAG ==>
            && |data| >= 2
            && (data[1] == DER_TWO_BYTE_LENGTH ==> |data| >= 4))
  }

  /** Header plus content length, for the headers the code accepts. */
  function DataLength(answer: Result<ResponseApdu>): Result<nat>
    requires EnoughHeader(answer)
  {
    var response :- answer;
    var data := response.data;
    if data[0] != DER_SEQUENCE_TYPE_TAG then Err(NotASequence(data[0]))
    else if data[1] != DER_TWO_BYTE_LENGTH then Err(NotATwoByteLength(data[1]))
    else
      var length := Word(data[2], data[3]) + 4;
      if length < 128 || length > 0x0f00 then Err(UnexpectedDataLength(length)) else Ok(length)
  }

  /** What the header check makes of an answer, byte by byte. */
  lemma HeaderCheck(answer: Result<ResponseApdu>)
    requires EnoughHeader(answer)
    ensures DataLength(answer) ==
      match answer
      case Err(error) => Err(error)
      case Ok(response) =>
        var d := response.data;
        if d[0] != 0x30 then Err(NotASequence(d[0]))
        else if d[1] != 0x82 then Err(NotATwoByteLength(d[1]))
        else if 128 <= d[2] as int * 256 + d[3] + 4 <= 3840 then Ok(d[2] as int * 256 + d[3] + 4)
        else Err(UnexpectedDataLength(d[2] as int * 256 + d[3] + 4))
  {
  }

  lemma IterateUnfold<S(!new)>(card: Card<S>, x: Session<S>, l: Loop, passes: nat)
    requires EndsChains(card)
    ensures Iterate(card, x, l, passes)
         == if passes == 0 || l.counter == 0 then Step(Ok(l), x)
            else match OnePass(card, x, l).result
                 case Err(_) => OnePass(card, x, l)
                 case Ok(l') => Iterate(card, OnePass(card, x, l).next, l', passes - 1)
  {
  }

  // ----- When the loop ends

  /** With a block length of 0 the loop stands still: after any number of passes that did not
      throw, the whole length is still to be read. */
  lemma {:induction false} ZeroBlockMakesNoProgress<S(!new)>(
    card: Card<S>, x: Session<S>, l: Loop, passes: nat)
    requires EndsChains(card)
    requires l.block == 0
    ensures var after := Iterate(card, x, l, passes).result;
      after.Ok? ==>
        && after.value.counter == l.counter && after.value.offset == l.offset && after.value.block == 0
    decreases passes
  {
    if passes > 0 && l.counter > 0 {
      var pass := OnePass(card, x, l);
      if pass.result.Ok? {
        ZeroBlockMakesNoProgress(card, pass.next, pass.result.value, passes - 1);
      }
    }
  }

  /** With a positive block length the loop does end, in as many passes as bytes at most, and
      `ReadBlocks` is where it ends. */
  lemma {:induction false} PositiveBlockEnds<S(!new)>(
    card: Card<S>, x: Session<S>, l: Loop, passes: nat)
    requires EndsChains(card)
    requires (l.block > 0 || l.counter == 0) && passes >= l.counter
    ensures
      var end := Iterate(card, x, l, passes);
      var read := ReadBlocks(card, x, l);
      && read.next == end.next
      && match end.result
         case Err(error) => read.result == Err(error)
         case Ok(l') => l'.counter == 0 && read.result == Ok(l'.collected)
    decreases passes
  {
    if l.counter > 0 {
      var pass := OnePass(card, x, l);
      if pass.result.Ok? {
        PositiveBlockEnds(card, pass.next, pass.result.value, passes - 1);
      }
    }
  }

  lemma OverIff<S(!new)>(card: Card<S>, x: Session<S>, l: Loop)
    requires EndsChains(card)
    ensures (exists passes: nat :: Over(card, x, l, passes))
       <==> l.block > 0 || l.counter == 0 || Throws(card, x, l)
  {
    if l.block > 0 || l.counter == 0 {
      PositiveBlockEnds(card, x, l, l.counter);
      assert Over(card, x, l, l.counter);
    } else {
      forall passes: nat
        ensures Over(card, x, l, passes) <==> Iterate(card, x, l, passes).result.Err?
      {
        ZeroBlockMakesNoProgress(card, x, l, passes);
      }
      if passes: nat :| Iterate(card, x, l, passes).result.Err? {
        assert Over(card, x, l, passes);
      }
    }
  }

  /** Once a pass has thrown, allowing more passes changes nothing. */
  lemma {:induction false} ThrowingSettles<S(!new)>(
    card: Card<S>, x: Session<S>, l: Loop, passes: nat, more: nat)
    requires EndsChains(card)
    requires Iterate(card, x, l, passes).result.Err? && passes <= more
    ensures Iterate(card, x, l, more) == Iterate(card, x, l, passes)
    decreases passes
  {
    if passes > 0 && l.counter > 0 {
      var pass := OnePass(card, x, l);
      if pass.result.Ok? {
        ThrowingSettles(card, pass.next, pass.result.value, passes - 1, more - 1);
      }
    }
  }

  lemma ThrownIs<S(!new)>(card: Card<S>, x: Session<S>, l: Loop, passes: nat)
    requires EndsChains(card) && Iterate(card, x, l, passes).result.Err?
    ensures Thrown(card, x, l)
         == Step(Err(Iterate(card, x, l, passes).result.error), Iterate(card, x, l, passes).next)
  {
    forall n: nat | Iterate(card, x, l, n).result.Err?
      ensures Iterate(card, x, l, n) == Iterate(card, x, l, passes)
    {
      if n <= passes {
        ThrowingSettles(card, x, l, n, passes);
      } else {
        ThrowingSettles(card, x, l, passes, n);
      }
    }
  }

  /** A number of passes after which the loop is over. */
  lemma EnoughPasses<S(!new)>(card: Card<S>, x: Session<S>, length: nat, block: nat) returns (passes: nat)
    requires EndsChains(card) && Ends(card, x, length, block)
    ensures
      var end := Iterate(card, x, Loop(0, length, block, []), passes);
      && (end.result.Ok? ==> end.result.value.counter == 0)
      && ReadBinary(card, x, length, block) == Finish(end, length)
  {
    var l := Loop(0, length, block, []);
    if block > 0 || length == 0 {
      passes := length;
      PositiveBlockEnds(card, x, l, passes);
    } else {
      passes :| Iterate(card, x, l, passes).result.Err?;
      ThrownIs(card, x, l, passes);
    }
  }

  /** What `readBinary` makes of the loop's end. */
  function Finish<S>(end: Step<Loop, S>, length: nat): Step<Bytes, S> {
    match end.result
    case Err(error) => Step(Err(error), end.next)
    case Ok(l) => Step(CheckLength(Ok(l.collected), length), end.next)
  }

  /** One pass of a loop that is not over, given enough passes. */
  lemma PassMade<S(!new)>(card: Card<S>, x: Session<S>, l: Loop, passes: nat)
    requires EndsChains(card)
    requires l.block <= l.counter && l.counter > 0 && passes > 0
    ensures
      var read := Transmit(card, x, ReadCommand(l.offset, l.block));
      Iterate(card, x, l, passes)
      == match read.result
         case Err(error) => Step(Err(error), read.next)
         case Ok(response) =>
           Iterate(card, read.next,
                   Loop(l.offset + l.block, l.counter - l.block, l.block, l.collected + response.data),
                   passes - 1)
  {
    hide Transmit, EndsChains, HiByte, LoByte;
  }

  lemma BlockIsCapped<S(!new)>(card: Card<S>, x: Session<S>, l: Loop, passes: nat)
    requires EndsChains(card)
    requires 0 < l.counter <= l.block && passes > 0
    ensures Iterate(card, x, l, passes) == Iterate(card, x, l.(block := l.counter), passes)
  {
  }

  /** Nothing left to read, or no pass left to make. */
  lemma NoPass<S(!new)>(card: Card<S>, x: Session<S>, l: Loop, passes: nat)
    requires EndsChains(card)
    requires l.counter == 0 || passes == 0
    ensures Iterate(card, x, l, passes) == Step(Ok(l), x)
  {
  }
}
