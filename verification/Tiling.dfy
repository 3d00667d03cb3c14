/** The blocks a read asks for, over any card at all: what is sent for them, where they lie, and what a
    normal return says about what came back for them. */
module Tiling {
  import opened Bytes
  import opened Apdu
  import opened Chain
  import opened Sessions
  import opened FileRead

  /** One block asked for, and what `transmit` gave. */
  datatype Pass = Pass(offset: nat, size: nat, command: CommandApdu, result: Result<ResponseApdu>)

  /** The blocks the loop asks for, in order. */
  ghost function Passes<S(!new)>(card: Card<S>, x: Session<S>, l: Loop): seq<Pass>
    requires EndsChains(card)
    requires l.block > 0 || l.counter == 0
    decreases l.counter
  {
    if l.counter == 0 then []
    else
      var b := Min(l.block, l.counter);
      var command := ReadCommand(l.offset, b);
      var pass := OnePass(card, x, l);
      [Pass(l.offset, b, command, Transmit(card, x, command).result)]
      + if pass.result.Ok? then Passes(card, pass.next, pass.result.value) else []
  }

  /** All passes returned. */
  ghost predicate FullRun(ps: seq<Pass>) {
    forall p :: p in ps ==> p.result.Ok?
  }

  function Collected(ps: seq<Pass>): Bytes {
    if ps == [] then []
    else (if ps[0].result.Ok? then ps[0].result.value.data else []) + Collected(ps[1..])
  }

  /** Where block `i` starts, from the first: after `i` full blocks. */
  function Start(i: nat, block: nat): nat {
    if i == 0 then 0 else Start(i - 1, block) + block
  }

  /** `p` is block `i` of the `counter` bytes from `start`: it starts where the `i` blocks before it
      end, has the full size unless the bytes run out, and is asked for by the READ BINARY with
      that offset and size. */
  ghost predicate IsBlock(p: Pass, i: nat, start: nat, counter: nat, block: nat) {
    && Start(i, block) < counter
    && p.offset == start + Start(i, block)
    && p.size == Min(block, counter - Start(i, block))
    && p.command == ReadCommand(p.offset, p.size)
  }

  /** Only the last pass can have thrown; if none did, the blocks cover the bytes. */
  ghost predicate Tile(ps: seq<Pass>, start: nat, counter: nat, block: nat) {
    && (forall i :: 0 <= i < |ps| ==> IsBlock(ps[i], i, start, counter, block))
    && (forall i :: 0 <= i < |ps| - 1 ==> ps[i].result.Ok?)
    && (FullRun(ps) ==> counter <= Start(|ps|, block))
  }

  lemma NextBlock(p: Pass, i: nat, start: nat, counter: nat, block: nat)
    requires block < counter && IsBlock(p, i, start + block, counter - block, block)
    ensures IsBlock(p, i + 1, start, counter, block)
  {
  }

  lemma TileCons(first: Pass, tail: seq<Pass>, start: nat, counter: nat, block: nat)
    requires 0 < block < counter
    requires first.offset == start && first.size == block && first.command == ReadCommand(start, block)
    requires first.result.Ok? && tail != [] && Tile(tail, start + block, counter - block, block)
    ensures Tile([first] + tail, start, counter, block)
  {
    hide FullRun, ReadCommand;
    var ps := [first] + tail;
    assert IsBlock(first, 0, start, counter, block);
    forall i | 0 <= i < |ps|
      ensures IsBlock(ps[i], i, start, counter, block)
    {
      if i > 0 {
        NextBlock(tail[i - 1], i - 1, start, counter, block);
      }
    }
    FullRunCons(first, tail);
  }

  lemma {:induction false} PassesTile<S(!new)>(card: Card<S>, x: Session<S>, l: Loop)
    requires EndsChains(card)
    requires l.block > 0
    ensures Tile(Passes(card, x, l), l.offset, l.counter, l.block)
    ensures l.counter > 0 ==> Passes(card, x, l) != []
    decreases l.counter
  {
    hide Transmit, EndsChains;
    if l.counter > 0 {
      var pass := OnePass(card, x, l);
      if pass.result.Ok? && l.counter > l.block {
        PassesTile(card, pass.next, pass.result.value);
        TileCons(Passes(card, x, l)[0], Passes(card, pass.next, pass.result.value),
                 l.offset, l.counter, l.block);
      }
    }
  }

  /** The loop returns iff every pass does, and then it returns all their data in order. */
  lemma {:induction false} LoopOfPasses<S(!new)>(card: Card<S>, x: Session<S>, l: Loop)
    requires EndsChains(card)
    requires l.block > 0 || l.counter == 0
    ensures
      var ps := Passes(card, x, l);
      var read := ReadBlocks(card, x, l).result;
      && (read.Ok? <==> FullRun(ps))
      && (read.Ok? ==> read.value == l.collected + Collected(ps))
    decreases l.counter
  {
    hide Transmit, EndsChains;
    var ps := Passes(card, x, l);
    if l.counter == 0 {
      assert l.collected + [] == l.collected;
    } else {
      var pass := OnePass(card, x, l);
      if pass.result.Ok? {
        var l' := pass.result.value;
        LoopOfPasses(card, pass.next, l');
        FullRunCons(ps[0], Passes(card, pass.next, l'));
        AppendTwice(l.collected, ps[0].result.value.data, Collected(Passes(card, pass.next, l')));
      } else {
        assert ps[0] in ps;
      }
    }
  }

  lemma FullRunCons(first: Pass, tail: seq<Pass>)
    requires first.result.Ok?
    ensures FullRun([first] + tail) <==> FullRun(tail)
    ensures Collected([first] + tail) == first.result.value.data + Collected(tail)
  {
  }

  lemma AppendTwice(a: Bytes, b: Bytes, c: Bytes)
    ensures a + (b + c) == a + b + c
  {
  }

  // ----- What is sent

  /** READ BINARY as `readBinary` sends it. */
  predicate IsReadBinary(command: Bytes) {
    |command| == 5 && command[0] == 0x00 && command[1] == 0xb0
  }

  /** The READ BINARY commands among the exchanges, in order. */
  function ReadsIn(raw: seq<Raw>): seq<Bytes> {
    if raw == [] then []
    else
      var command := raw[0].exchange.command;
      (if IsReadBinary(command) then [command] else []) + ReadsIn(raw[1..])
  }

  /** Nothing but READ BINARY and GET RESPONSE. */
  ghost predicate OnlyReads(raw: seq<Raw>) {
    forall r :: r in raw ==> IsReadBinary(r.exchange.command) || IsGetResponse(r.exchange.command)
  }

  /** The exchanges that brought the session from `x` to `y`. */
  function Since<S>(x: Session<S>, y: Session<S>): seq<Raw>
    requires x.trace <= y.trace
  {
    y.trace[|x.trace|..]
  }

  lemma {:induction false} ReadsInConcat(a: seq<Raw>, b: seq<Raw>)
    ensures ReadsIn(a + b) == ReadsIn(a) + ReadsIn(b)
    ensures OnlyReads(a + b) <==> OnlyReads(a) && OnlyReads(b)
    decreases |a|
  {
    if a == [] {
      assert a + b == b;
    } else {
      assert (a + b)[1..] == a[1..] + b;
      ReadsInConcat(a[1..], b);
      assert a == [a[0]] + a[1..];
      assert forall r :: r in a ==> r in a + b;
      assert forall r :: r in b ==> r in a + b;
    }
  }

  lemma {:induction false} NoReadsIn(raw: seq<Raw>)
    requires forall i :: 0 <= i < |raw| ==> IsGetResponse(raw[i].exchange.command)
    ensures ReadsIn(raw) == [] && OnlyReads(raw)
    decreases |raw|
  {
    if raw != [] {
      NoReadsIn(raw[1..]);
    }
  }

  /** The block's command on the wire. */
  function Wire(p: Pass): Bytes {
    ReadBytes(HiByte(p.offset), LoByte(p.offset), p.size % 256)
  }

  function WireAll(ps: seq<Pass>): (commands: seq<Bytes>)
    ensures |commands| == |ps| && forall i :: 0 <= i < |ps| ==> commands[i] == Wire(ps[i])
  {
    if ps == [] then [] else [Wire(ps[0])] + WireAll(ps[1..])
  }

  /** Asking for a block sends its command, and then GET RESPONSE as often as it takes. */
  lemma SentForBlock<S(!new)>(card: Card<S>, x: Session<S>, offset: nat, size: nat)
    requires EndsChains(card) && x.inProgress
    ensures var y := Transmit(card, x, ReadCommand(offset, size)).next;
      && y.inProgress && x.trace <= y.trace
      && ReadsIn(Since(x, y)) == [ReadBytes(HiByte(offset), LoByte(offset), size % 256)]
      && OnlyReads(Since(x, y))
  {
    var bytes := ReadBytes(HiByte(offset), LoByte(offset), size % 256);
    ReadCommandBytes(offset, size);
    OnlyGetResponseFollows(card, x.state, bytes);
    var sent := Stamp(Exchanges(card, x.state, bytes), x.depth);
    NoReadsIn(sent[1..]);
    assert sent == [sent[0]] + sent[1..];
    var y := Transmit(card, x, ReadCommand(offset, size)).next;
    assert Since(x, y) == sent;
  }

  lemma SinceConcat<S>(x: Session<S>, y: Session<S>, z: Session<S>)
    requires x.trace <= y.trace <= z.trace
    ensures Since(x, z) == Since(x, y) + Since(y, z)
  {
  }

  /** The READ BINARYs a loop sends are those of its passes, in order, and all else it sends is GET
      RESPONSE. */
  lemma {:induction false} SentForPasses<S(!new)>(card: Card<S>, x: Session<S>, l: Loop)
    requires EndsChains(card) && x.inProgress
    requires l.block > 0 || l.counter == 0
    ensures var y := ReadBlocks(card, x, l).next;
      && y.inProgress && x.trace <= y.trace
      && ReadsIn(Since(x, y)) == WireAll(Passes(card, x, l))
      && OnlyReads(Since(x, y))
    decreases l.counter
  {
    hide Transmit, EndsChains, ReadsIn, OnlyReads, ReadBytes;
    if l.counter == 0 {
      assert Since(x, x) == [];
      NoReadsIn([]);
    } else {
      var b := Min(l.block, l.counter);
      SentForBlock(card, x, l.offset, b);
      var pass := OnePass(card, x, l);
      if pass.result.Ok? {
        SentForPasses(card, pass.next, pass.result.value);
        var y := ReadBlocks(card, x, l).next;
        SinceConcat(x, pass.next, y);
        ReadsInConcat(Since(x, pass.next), Since(pass.next, y));
      }
    }
  }

  // ----- Where the blocks lie

  /** The size of block `i`: a full one unless the bytes run out. */
  function Size(i: nat, length: nat, block: nat): nat
    requires Start(i, block) <= length
  {
    Min(block, length - Start(i, block))
  }

  /** `command` is the READ BINARY for block `i` of `length` bytes: P1-P2 is where the `i` full blocks
      before it end, modulo 0x10000, and Le its size modulo 0x100. */
  ghost predicate IsBlockRead(command: Bytes, i: nat, length: nat, block: nat) {
    && Start(i, block) < length
    && IsReadBinary(command)
    && command[2] as int * 256 + command[3] == Start(i, block) % 0x1_0000
    && command[4] == Size(i, length, block) % 256
  }

  lemma WireIsBlockRead(p: Pass, i: nat, length: nat, block: nat)
    requires IsBlock(p, i, 0, length, block)
    ensures IsBlockRead(Wire(p), i, length, block)
  {
    WordOfHalves(p.offset);
  }

  /** READ BINARY for block 0, 1, 2 and so on, all but the last of full size. */
  ghost predicate AreBlockReads(asked: seq<Bytes>, length: nat, block: nat) {
    forall i :: 0 <= i < |asked| ==>
      && IsBlockRead(asked[i], i, length, block)
      && (i < |asked| - 1 ==> Size(i, length, block) == block)
  }

  /** What one `readBinary` sends: READ BINARYs, `asked`, for consecutive blocks from the start of the file,
      with nothing but GET RESPONSE in between; and when no pass throws, the first number of blocks
      that covers the bytes, which is ceil(length / block) (see FileRead.BlocksInClosedForm). */
  lemma BlocksTileTheFile<S(!new)>(card: Card<S>, x: Session<S>, length: nat, block: nat)
    returns (asked: seq<Bytes>)
    requires EndsChains(card) && block > 0 && x.inProgress
    ensures AreBlockReads(asked, length, block)
    ensures asked == [] <==> length == 0
    ensures
      var y := ReadBinary(card, x, length, block).next;
      && x.trace <= y.trace && OnlyReads(Since(x, y))
      && (ReadBlocks(card, x, Loop(0, length, block, [])).result.Ok? ==>
            length <= Start(|asked|, block) && |asked| == BlockCount(length, block))
      && asked == ReadsIn(Since(x, y))
  {
    hide ReadsIn, OnlyReads, Since, EndsChains, IsBlockRead, ReadBlocks, Wire;
    var l := Loop(0, length, block, []);
    var ps := Passes(card, x, l);
    SentForPasses(card, x, l);
    asked := WireAll(ps);
    PassesTile(card, x, l);
    LoopOfPasses(card, x, l);
    forall i | 0 <= i < |ps|
      ensures Start(i, block) < length && IsBlockRead(Wire(ps[i]), i, length, block)
      ensures i < |ps| - 1 ==> Size(i, length, block) == block
    {
      WireIsBlockRead(ps[i], i, length, block);
      if i < |ps| - 1 {
        assert IsBlock(ps[i + 1], i + 1, 0, length, block);
        NextStart(i, block);
      }
    }
    if ReadBlocks(card, x, l).result.Ok? {
      CountOfBlocks(|ps|, length, block);
    }
  }

  lemma {:induction false} StartIsProduct(i: nat, block: nat)
    ensures Start(i, block) == i * block
  {
    if i > 0 {
      StartIsProduct(i - 1, block);
    }
  }

  /** The least number of blocks that covers the bytes. */
  lemma {:induction false} CountOfBlocks(n: nat, length: nat, block: nat)
    requires block > 0 && length <= Start(n, block) && (n > 0 ==> Start(n - 1, block) < length)
    ensures n == BlockCount(length, block)
  {
    if length > block {
      CountOfBlocks(n - 1, length - block, block);
    }
  }

  lemma NextStart(i: nat, block: nat)
    ensures Start(i + 1, block) == Start(i, block) + block
  {
  }

  /** No block starts where P1-P2 would have the top bit of P1 set. */
  ghost predicate LowStarts(length: nat, block: nat) {
    forall i: nat :: Start(i, block) < length ==> Start(i, block) % 0x1_0000 < 0x8000
  }

  /** Up to 0x10000 bytes that means that the last block starts below 0x8000. */
  lemma LowStartsIff(length: nat, block: nat)
    requires block > 0
    ensures Addressable(length, block) ==> LowStarts(length, block)
    ensures length <= 0x1_0000 ==> (Addressable(length, block) <==> LowStarts(length, block))
  {
    hide LastStart, Start;
    if length > 0 {
      var last := LastBlock(length, block);
      forall i: nat | Start(i, block) < length
        ensures Start(i, block) <= LastStart(length, block)
      {
        if i <= last {
          StartAscends(i, last, block);
        } else {
          StartAscends(last + 1, i, block);
        }
      }
    }
  }

  lemma {:induction false} LastBlock(length: nat, block: nat) returns (last: nat)
    requires block > 0 && length > 0
    ensures Start(last, block) == LastStart(length, block) < length <= Start(last + 1, block)
  {
    if length <= block {
      last := 0;
      assert Start(1, block) == Start(0, block) + block;
    } else {
      last := LastBlock(length - block, block);
      last := last + 1;
      NextStart(last, block);
    }
  }

  /** Up to 0x8000 bytes the block length does not matter. */
  lemma ShortIsLow(length: nat, block: nat)
    requires block > 0 && length <= 0x8000
    ensures Addressable(length, block) && LowStarts(length, block)
  {
    if length > 0 {
      LastStartIsLast(length, block);
    }
    LowStartsIff(length, block);
  }

  lemma {:induction false} StartAscends(i: nat, j: nat, block: nat)
    requires i <= j
    ensures Start(i, block) <= Start(j, block)
    decreases j
  {
    if i < j {
      StartAscends(i, j - 1, block);
    }
  }

  /** When nothing that `readBinary` sends has the top bit of P1 set, which would address another file:
      if no block starts where it would have to be, and, when no pass throws, only then. */
  lemma TopBitStaysClear<S(!new)>(card: Card<S>, x: Session<S>, length: nat, block: nat)
    requires EndsChains(card) && block > 0 && x.inProgress
    ensures
      var y := ReadBinary(card, x, length, block).next;
      && x.trace <= y.trace
      && (LowStarts(length, block) ==> LowP1(Since(x, y)))
      && (ReadBlocks(card, x, Loop(0, length, block, [])).result.Ok? ==>
            (LowP1(Since(x, y)) <==> LowStarts(length, block)))
  {
    hide Since, ReadsIn, OnlyReads, ReadBlocks, ReadBinary, Start, EndsChains;
    var asked := BlocksTileTheFile(card, x, length, block);
    var sent := Since(x, ReadBinary(card, x, length, block).next);
    ReadsOrGetResponses(sent);
    forall i | 0 <= i < |asked|
      ensures asked[i][2] < 0x80 <==> Start(i, block) % 0x1_0000 < 0x8000
      ensures Start(i, block) < length
    {
      assert IsBlockRead(asked[i], i, length, block);
    }
    if ReadBlocks(card, x, Loop(0, length, block, [])).result.Ok? && LowP1(sent) {
      forall i: nat | Start(i, block) < length
        ensures Start(i, block) % 0x1_0000 < 0x8000
      {
        if |asked| <= i {
          StartAscends(|asked|, i, block);
        }
        assert asked[i] in asked;
      }
    }
  }

  /** READ BINARY or GET RESPONSE, with the top bit of P1 clear. */
  ghost predicate LowP1(raw: seq<Raw>) {
    OnlyReads(raw) && forall r :: r in raw ==> r.exchange.command[2] < 0x80
  }

  lemma {:induction false} ReadsOrGetResponses(raw: seq<Raw>)
    requires OnlyReads(raw)
    ensures forall r :: r in raw ==> r.exchange.command in ReadsIn(raw) || IsGetResponse(r.exchange.command)
    ensures forall c :: c in ReadsIn(raw) ==> exists r :: r in raw && r.exchange.command == c
    decreases |raw|
  {
    if raw != [] {
      ReadsOrGetResponses(raw[1..]);
    }
  }

  // ----- What a normal return says

  /** No pass brought more than it asked for. */
  ghost predicate NoneLong(ps: seq<Pass>) {
    forall p :: p in ps && p.result.Ok? ==> |p.result.value.data| <= p.size
  }

  /** Every pass brought all it asked for. */
  ghost predicate AllFull(ps: seq<Pass>) {
    forall p :: p in ps ==> p.result.Ok? && |p.result.value.data| == p.size
  }

  lemma {:induction false} FullBlocksAddUp<S(!new)>(card: Card<S>, x: Session<S>, l: Loop)
    requires EndsChains(card)
    requires l.block > 0 || l.counter == 0
    requires FullRun(Passes(card, x, l)) && NoneLong(Passes(card, x, l))
    ensures
      var ps := Passes(card, x, l);
      && |Collected(ps)| <= l.counter
      && (|Collected(ps)| == l.counter <==> AllFull(ps))
    decreases l.counter
  {
    hide Transmit, EndsChains;
    if l.counter > 0 {
      var ps := Passes(card, x, l);
      var pass := OnePass(card, x, l);
      assert ps[0] in ps;
      var tail := Passes(card, pass.next, pass.result.value);
      assert ps == [ps[0]] + tail;
      FullRunCons(ps[0], tail);
      assert forall p :: p in tail ==> p in ps;
      FullBlocksAddUp(card, pass.next, pass.result.value);
      assert forall p :: p in ps ==> p == ps[0] || p in tail;
    }
  }

  /** A wrong total is caught, over any card and any block length: what `readBinary` returns has the
      length asked for. */
  lemma ReturnsTheLength<S(!new)>(card: Card<S>, x: Session<S>, length: nat, block: nat)
    requires EndsChains(card) && Ends(card, x, length, block)
    ensures ReadBinary(card, x, length, block).result.Ok? ==>
      |ReadBinary(card, x, length, block).result.value| == length
  {
  }

  /** When `readBinary` returns over any card, however many bytes it sends: iff every pass does and their
      data are as many bytes as were asked for. Any other total is thrown, longer ones too. */
  lemma ReturnsIff<S(!new)>(card: Card<S>, x: Session<S>, length: nat, block: nat)
    requires EndsChains(card) && block > 0
    ensures
      var all := Collected(Passes(card, x, Loop(0, length, block, [])));
      var full := FullRun(Passes(card, x, Loop(0, length, block, [])));
      var read := ReadBinary(card, x, length, block).result;
      && (read.Ok? <==> full && |all| == length)
      && (read.Ok? ==> read.value == all)
      && (full && |all| != length ==> read == Err(InvalidLength(|all|)))
  {
    var l := Loop(0, length, block, []);
    LoopOfPasses(card, x, l);
    assert [] + Collected(Passes(card, x, l)) == Collected(Passes(card, x, l));
  }

  /** Short reads are caught: if no block answer is longer than asked for, `readBinary` returns iff
      every block came back full, and then it returns those blocks in order. */
  lemma ShortReadsAreCaught<S(!new)>(card: Card<S>, x: Session<S>, length: nat, block: nat)
    requires EndsChains(card) && block > 0
    requires NoneLong(Passes(card, x, Loop(0, length, block, [])))
    ensures
      var ps := Passes(card, x, Loop(0, length, block, []));
      var read := ReadBinary(card, x, length, block).result;
      && (read.Ok? <==> AllFull(ps))
      && (read.Ok? ==> read.value == Collected(ps))
  {
    var l := Loop(0, length, block, []);
    var ps := Passes(card, x, l);
    LoopOfPasses(card, x, l);
    assert [] + Collected(ps) == Collected(ps);
    if FullRun(ps) {
      FullBlocksAddUp(card, x, l);
    }
  }
}
