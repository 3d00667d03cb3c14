/** What block-wise reading of a file on a chaining card comes to: the exact prefix, whatever the
    block size and however the card cuts up its answers (READ BINARY, ISO/IEC 7816-4:2005,
    section 7.2.3). */
module FileTheorems {
  import opened Bytes
  import opened Apdu
  import opened Chain
  import opened Sessions
  import opened FileRead
  import opened Chaining

  /** The number of bytes Le asks for; Le 0 asks for 256. */
  function Requested(le: Byte): nat {
    if le == 0 then 256 else le
  }

  /** The part of the file in `[at, at + n)`. */
  function Range(file: Bytes, at: nat, n: nat): Bytes {
    file[Min(at, |file|)..Min(at + n, |file|)]
  }

  /** An application that serves READ BINARY from a file: it returns the start of the requested
      range and never more; all of it, under 9000, when the file has all of it; and reading
      leaves the file alone. How it answers a range the file does not cover is open, and so is
      everything it does with other commands. */
  ghost predicate ServesFile<A(!new)>(app: Application<A>, fileOf: A -> Bytes) {
    forall a, p1: Byte, p2: Byte, le: Byte :: p1 < 0x80 ==>
      var o := app(a, ReadBytes(p1, p2, le));
      var file := fileOf(a);
      var at := Word(p1, p2);
      && fileOf(o.next) == file
      && o.data <= Range(file, at, Requested(le))
      && (at + Requested(le) <= |file| ==> |o.data| == Requested(le) && o.sw1 == 0x90 && o.sw2 == 0x00)
  }

  /** There is such an application, for every file: its state is the file itself. */
  function Serve(file: Bytes, command: Bytes): Output<Bytes> {
    if |command| == 5 && command == ReadBytes(command[2], command[3], command[4]) then
      AnswerRange(file, Word(command[2], command[3]), Requested(command[4]))
    else Output([], COMMAND_NOT_ALLOWED, 0x00, file)
  }

  function AnswerRange(file: Bytes, at: nat, n: nat): Output<Bytes> {
    if at + n <= |file| then Output(Range(file, at, n), OK, 0x00, file)
    else Output([], WRONG_PARAMETERS, 0x00, file)
  }

  function FileServer(): Application<Bytes> {
    (file: Bytes, command: Bytes) => Serve(file, command)
  }

  lemma FileServerServes()
    ensures ServesFile(FileServer(), (file: Bytes) => file) && Completes(FileServer())
  {
  }

  /** Inside a transaction with a chaining card that has nothing pending and holds `file`. */
  ghost predicate Reading<S, A>(view: S -> View<A>, fileOf: A -> Bytes, x: Session<S>, file: Bytes) {
    && x.inProgress
    && view(x.state).pending.Nothing?
    && fileOf(view(x.state).app) == file
  }

  lemma RangeConcat(before: Bytes, file: Bytes, at: nat, n: nat, m: nat)
    requires at + n + m <= |file|
    ensures before + Range(file, at, n) + Range(file, at + n, m) == before + Range(file, at, n + m)
  {
  }

  lemma RangeLength(file: Bytes, at: nat, n: nat)
    ensures |Range(file, at, n)| <= n
    ensures at + n <= |file| ==> |Range(file, at, n)| == n
  {
  }

  lemma EmptyRange(before: Bytes, file: Bytes, at: nat)
    ensures before + Range(file, at, 0) == before
  {
  }

  lemma Served<A(!new)>(app: Application<A>, fileOf: A -> Bytes, a: A, p1: Byte, p2: Byte, le: Byte)
    requires ServesFile(app, fileOf) && p1 < 0x80
    ensures
      var o := app(a, ReadBytes(p1, p2, le));
      var at, n := Word(p1, p2), Requested(le);
      && fileOf(o.next) == fileOf(a)
      && o.data <= Range(fileOf(a), at, n)
      && (at + n <= |fileOf(a)| ==> |o.data| == n && o.sw1 == 0x90 && o.sw2 == 0x00)
  {
  }

  /** What the application does with one block's command. */
  lemma FileAnswer<A(!new)>(app: Application<A>, fileOf: A -> Bytes, a: A, offset: nat, b: nat)
    requires ServesFile(app, fileOf)
    requires offset < 0x8000 && b > 0
    ensures
      var o := app(a, ReadBytes(HiByte(offset), LoByte(offset), b % 256));
      var file := fileOf(a);
      && fileOf(o.next) == file
      && (b <= 256 && offset + b <= |file| ==> Complete(o).Ok? && o.data == Range(file, offset, b))
      && |o.data| <= b
      && (|o.data| == b ==> b <= 256 && offset + b <= |file|)
  {
    hide ServesFile, HiByte, LoByte, Word, Range, Requested, ReadBytes;
    OffsetFits(offset);
    RequestedBytes(b);
    var le: Byte := b % 256;
    Served(app, fileOf, a, HiByte(offset), LoByte(offset), le);
    PrefixOfRange(app(a, ReadBytes(HiByte(offset), LoByte(offset), le)).data, fileOf(a), offset, Requested(le));
  }

  lemma OffsetFits(offset: nat)
    requires offset < 0x8000
    ensures HiByte(offset) < 0x80 && Word(HiByte(offset), LoByte(offset)) == offset
  {
    WordOfHalves(offset);
  }

  /** Le asks for the block, or for less when the block does not fit a byte. */
  lemma RequestedBytes(b: nat)
    requires b > 0
    ensures Requested(b % 256) <= 256
    ensures if b <= 256 then Requested(b % 256) == b else Requested(b % 256) < b
  {
  }

  lemma PrefixOfRange(data: Bytes, file: Bytes, at: nat, n: nat)
    requires data <= Range(file, at, n)
    ensures |data| <= n
    ensures |data| == n > 0 ==> at + n <= |file| && data == Range(file, at, n)
  {
  }

  /** One block: a full block exactly when Le can ask for it and the file holds it. */
  lemma BlockOfFile<S(!new), A(!new)>(
    card: Card<S>, view: S -> View<A>, app: Application<A>, fileOf: A -> Bytes,
    x: Session<S>, file: Bytes, offset: nat, b: nat)
    requires Chains(card, view, app) && ServesFile(app, fileOf) && Reading(view, fileOf, x, file)
    requires offset < 0x8000 && b > 0
    ensures
      var read := Transmit(card, x, ReadCommand(offset, b));
      && Reading(view, fileOf, read.next, file)
      && (b <= 256 && offset + b <= |file| ==>
            read.result.Ok? && read.result.value.data == Range(file, offset, b))
      && (read.result.Ok? ==>
            && |read.result.value.data| <= b
            && (|read.result.value.data| == b ==> b <= 256 && offset + b <= |file|))
  {
    hide Chains, ServesFile, Range, Complete;
    ReadCommandBytes(offset, b);
    TransmitDelivers(card, view, app, x, ReadCommand(offset, b));
    FileAnswer(app, fileOf, view(x.state).app, offset, b);
  }

  /** The loop can ask for every block that is left, and the file holds them all. */
  predicate Readable(file: Bytes, l: Loop) {
    l.counter == 0 || (Min(l.block, l.counter) <= 256 && l.offset + l.counter <= |file|)
  }

  lemma {:induction false} BlocksOfFile<S(!new), A(!new)>(
    card: Card<S>, view: S -> View<A>, app: Application<A>, fileOf: A -> Bytes,
    x: Session<S>, file: Bytes, l: Loop)
    requires Chains(card, view, app) && ServesFile(app, fileOf) && Reading(view, fileOf, x, file)
    requires l.block > 0 || l.counter == 0
    requires l.counter > 0 ==> l.offset + LastStart(l.counter, l.block) < 0x8000
    ensures
      var read := ReadBlocks(card, x, l);
      && Reading(view, fileOf, read.next, file)
      && (Readable(file, l) ==> read.result == Ok(l.collected + Range(file, l.offset, l.counter)))
      && (!Readable(file, l) && read.result.Ok? ==> |read.result.value| < |l.collected| + l.counter)
    decreases l.counter
  {
    hide ChainingStep, Completes, EndsChains, ServesFile, Transmit, Range, Reading;
    if l.counter == 0 {
      EmptyRange(l.collected, file, l.offset);
    } else {
      var b := Min(l.block, l.counter);
      BlockOfFile(card, view, app, fileOf, x, file, l.offset, b);
      var pass := OnePass(card, x, l);
      if pass.result.Ok? {
        var l' := pass.result.value;
        BlocksOfFile(card, view, app, fileOf, pass.next, file, l');
        if Readable(file, l) {
          RangeConcat(l.collected, file, l.offset, b, l.counter - b);
        } else {
          RangeLength(file, l'.offset, l'.counter);
        }
      }
    }
  }

  /** The exact read theorem. For any length and positive block length with every block starting
      below 0x8000, over any card that chains the answers of an application serving a file,
      `readBinary` returns iff nothing is asked for, or Le can ask for the first block and the file
      is long enough; and what it returns is the first `length` bytes of the file. */
  lemma ReadBinaryIsExact<S(!new), A(!new)>(
    card: Card<S>, view: S -> View<A>, app: Application<A>, fileOf: A -> Bytes,
    x: Session<S>, file: Bytes, length: nat, block: nat)
    requires Chains(card, view, app) && ServesFile(app, fileOf) && Reading(view, fileOf, x, file)
    requires block > 0 && Addressable(length, block)
    ensures
      var read := ReadBinary(card, x, length, block);
      && Reading(view, fileOf, read.next, file)
      && (read.result.Ok? <==> length == 0 || (Min(block, length) <= 256 && length <= |file|))
      && (read.result.Ok? ==> length <= |file| && read.result.value == file[..length])
  {
    var l := Loop(0, length, block, []);
    BlocksOfFile(card, view, app, fileOf, x, file, l);
    if Readable(file, l) {
      assert [] + Range(file, 0, length) == file[..Min(length, |file|)];
    }
  }

  /** Neither the block length nor the card's way of chaining shows in what is read: two cards
      holding the same file, read with any two block lengths up to 256, give the same bytes, or
      both give none. */
  lemma BlocksAndChainsAreInvisible<S(!new), A(!new), T(!new), B(!new)>(
    card: Card<S>, view: S -> View<A>, app: Application<A>, fileOf: A -> Bytes, x: Session<S>,
    card': Card<T>, view': T -> View<B>, app': Application<B>, fileOf': B -> Bytes, x': Session<T>,
    file: Bytes, length: nat, block: nat, block': nat)
    requires Chains(card, view, app) && ServesFile(app, fileOf) && Reading(view, fileOf, x, file)
    requires Chains(card', view', app') && ServesFile(app', fileOf') && Reading(view', fileOf', x', file)
    requires 0 < block <= 256 && Addressable(length, block)
    requires 0 < block' <= 256 && Addressable(length, block')
    ensures
      var read := ReadBinary(card, x, length, block).result;
      var read' := ReadBinary(card', x', length, block').result;
      && (read.Ok? <==> length <= |file|)
      && (read.Ok? <==> read'.Ok?)
      && (read.Ok? ==> read == read' == Ok(file[..length]))
  {
    ReadBinaryIsExact(card, view, app, fileOf, x, file, length, block);
    ReadBinaryIsExact(card', view', app', fileOf', x', file, length, block');
  }

  /** In particular for every piece size there is a card that serves any file in such pieces, and it
      reads as the theorem says with any block length. */
  lemma EveryPieceAndBlockSize(x: Session<View<Bytes>>, file: Bytes, piece: nat, length: nat, block: nat)
    returns (card: Card<View<Bytes>>)
    requires 1 <= piece <= MAX_RESPONSE_DATA && x.inProgress && x.state == View(file, Nothing)
    requires 1 <= block <= 256 && Addressable(length, block)
    ensures EndsChains(card)
    ensures ReadBinary(card, x, length, block).result.Ok? <==> length <= |file|
    ensures length <= |file| ==> ReadBinary(card, x, length, block).result == Ok(file[..length])
    ensures card == Splitter(FileServer(), piece)
  {
    card := Splitter(FileServer(), piece);
    FileServerServes();
    SplitterChains(FileServer(), piece);
    hide Splitter, FileServer, ReadBinary, Chains, ServesFile;
    ReadBinaryIsExact(card, (v: View<Bytes>) => v, FileServer(), (f: Bytes) => f, x, file, length, block);
  }

  // ----- A block length of 0

  /** A block of 0 bytes is asked for with Le 0, which asks for 256: over a file that has them, every
      pass returns, and the loop stands still. */
  lemma {:induction false} ZeroBlockGoesOn<S(!new), A(!new)>(
    card: Card<S>, view: S -> View<A>, app: Application<A>, fileOf: A -> Bytes,
    x: Session<S>, file: Bytes, l: Loop, passes: nat)
    requires Chains(card, view, app) && ServesFile(app, fileOf) && Reading(view, fileOf, x, file)
    requires l.block == 0 && l.offset < 0x8000 && l.offset + 256 <= |file|
    ensures var after := Iterate(card, x, l, passes).result;
      after.Ok? && after.value.counter == l.counter
    decreases passes
  {
    hide EndsChains, Completes, ChainingStep, ServesFile, Iterate;
    if passes > 0 && l.counter > 0 {
      ZeroBlockPass(card, view, app, fileOf, x, file, l);
      var pass := OnePass(card, x, l);
      ZeroBlockGoesOn(card, view, app, fileOf, pass.next, file, pass.result.value, passes - 1);
    }
    IterateUnfold(card, x, l, passes);
  }

  lemma ZeroBlockPass<S(!new), A(!new)>(
    card: Card<S>, view: S -> View<A>, app: Application<A>, fileOf: A -> Bytes,
    x: Session<S>, file: Bytes, l: Loop)
    requires Chains(card, view, app) && ServesFile(app, fileOf) && Reading(view, fileOf, x, file)
    requires l.block == 0 && l.counter > 0 && l.offset < 0x8000 && l.offset + 256 <= |file|
    ensures var pass := OnePass(card, x, l);
      && pass.result.Ok? && Reading(view, fileOf, pass.next, file)
      && pass.result.value.offset == l.offset && pass.result.value.counter == l.counter
      && pass.result.value.block == 0
  {
    hide ServesFile, HiByte, LoByte, Word, Range, Requested;
    ReadCommandBytes(l.offset, 0);
    OffsetFits(l.offset);
    RequestedBytes(256);
    TransmitDelivers(card, view, app, x, ReadCommand(l.offset, 0));
    Served(app, fileOf, view(x.state).app, HiByte(l.offset), LoByte(l.offset), 0);
  }

  /** So over any file of 256 bytes or more `readBinary` with a block length of 0 and anything to read
      never ends. */
  lemma ZeroBlockNeverEnds<S(!new), A(!new)>(
    card: Card<S>, view: S -> View<A>, app: Application<A>, fileOf: A -> Bytes,
    x: Session<S>, file: Bytes, length: nat)
    requires Chains(card, view, app) && ServesFile(app, fileOf) && Reading(view, fileOf, x, file)
    requires length > 0 && |file| >= 256
    ensures !Ends(card, x, length, 0)
  {
    forall passes: nat
      ensures Iterate(card, x, Loop(0, length, 0, []), passes).result.Ok?
    {
      ZeroBlockGoesOn(card, view, app, fileOf, x, file, Loop(0, length, 0, []), passes);
    }
  }

  // ----- Any application: chaining does not change what readBinary returns

  /** Every answer to READ BINARY fits one response. */
  ghost predicate ReadsFit<A(!new)>(app: Application<A>) {
    forall a, p1, p2, le :: |app(a, ReadBytes(p1, p2, le)).data| <= MAX_RESPONSE_DATA
  }

  /** Pass by pass, the loop over a chaining card does what it does over the card that answers in one
      piece. */
  lemma {:induction false} PassesAreChainingBlind<S(!new), A(!new)>(
    card: Card<S>, view: S -> View<A>, app: Application<A>, x: Session<S>, y: Session<A>, l: Loop, passes: nat)
    requires Chains(card, view, app) && EndsChains(Direct(app)) && ReadsFit(app)
    requires view(x.state) == View(y.state, Nothing) && x.inProgress == y.inProgress
    ensures
      var end := Iterate(card, x, l, passes);
      var end' := Iterate(Direct(app), y, l, passes);
      && end.result == end'.result
      && view(end.next.state) == View(end'.next.state, Nothing)
    decreases passes
  {
    hide Completes, ChainingStep, ReadsFit, Transmit, EndsChains;
    if passes > 0 && l.counter > 0 {
      ReadIsChainingBlind(card, view, app, x, y, l.offset, Min(l.block, l.counter));
      var pass := OnePass(card, x, l);
      var pass' := OnePass(Direct(app), y, l);
      if pass.result.Ok? {
        PassesAreChainingBlind(card, view, app, pass.next, pass'.next, pass.result.value, passes - 1);
      }
    }
  }

  lemma ReadIsChainingBlind<S(!new), A(!new)>(
    card: Card<S>, view: S -> View<A>, app: Application<A>, x: Session<S>, y: Session<A>, offset: nat, b: nat)
    requires Chains(card, view, app) && EndsChains(Direct(app)) && ReadsFit(app)
    requires view(x.state) == View(y.state, Nothing) && x.inProgress == y.inProgress
    ensures
      var read := Transmit(card, x, ReadCommand(offset, b));
      var read' := Transmit(Direct(app), y, ReadCommand(offset, b));
      && (match read.result
          case Err(error) => read'.result == Err(error)
          case Ok(response) => read'.result.Ok? && read'.result.value.data == response.data)
      && view(read.next.state) == View(read'.next.state, Nothing)
      && read.next.inProgress == read'.next.inProgress
  {
    if x.inProgress {
      var bytes := ReadBytes(HiByte(offset), LoByte(offset), b % 256);
      ReadCommandBytes(offset, b);
      TransmitDelivers(card, view, app, x, ReadCommand(offset, b));
      DirectAnswer(app, y.state, bytes);
      ExchangesUnfold(Direct(app), y.state, bytes);
    }
  }

  /** For every application, honest or not, whose answers to READ BINARY fit one response: reading
      through a chaining card ends iff reading from the card that answers in one piece does, and
      with the same result. */
  lemma ReadBinaryIsChainingBlind<S(!new), A(!new)>(
    card: Card<S>, view: S -> View<A>, app: Application<A>, x: Session<S>, y: Session<A>,
    length: nat, block: nat)
    requires Chains(card, view, app) && EndsChains(Direct(app)) && ReadsFit(app)
    requires view(x.state) == View(y.state, Nothing) && x.inProgress == y.inProgress
    ensures Ends(card, x, length, block) <==> Ends(Direct(app), y, length, block)
    ensures Ends(card, x, length, block) ==>
      ReadBinary(card, x, length, block).result == ReadBinary(Direct(app), y, length, block).result
  {
    var l := Loop(0, length, block, []);
    forall passes: nat
      ensures Iterate(card, x, l, passes).result == Iterate(Direct(app), y, l, passes).result
    {
      PassesAreChainingBlind(card, view, app, x, y, l, passes);
    }
    if Ends(card, x, length, block) {
      SameLoopSameRead(card, Direct(app), x, y, length, block);
    }
  }

  lemma SameLoopSameRead<S(!new), T(!new)>(
    card: Card<S>, card': Card<T>, x: Session<S>, x': Session<T>, length: nat, block: nat)
    requires EndsChains(card) && Ends(card, x, length, block)
    requires EndsChains(card') && Ends(card', x', length, block)
    requires forall passes: nat :: Iterate(card, x, Loop(0, length, block, []), passes).result
                                == Iterate(card', x', Loop(0, length, block, []), passes).result
    ensures ReadBinary(card, x, length, block).result == ReadBinary(card', x', length, block).result
  {
    var l := Loop(0, length, block, []);
    if block > 0 || length == 0 {
      PositiveBlockEnds(card, x, l, length);
      PositiveBlockEnds(card', x', l, length);
    } else {
      var passes: nat :| Iterate(card, x, l, passes).result.Err?;
      ThrownIs(card, x, l, passes);
      ThrownIs(card', x', l, passes);
    }
  }
}
