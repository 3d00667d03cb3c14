/** Reading a DER object whose length the library takes from its header (ITU-T X.690, section
    8.1.3.5: identifier 30, long form 82 and two length bytes). */
module DerFiles {
  import opened Bytes
  import opened Chain
  import opened Sessions
  import opened FileRead
  import opened Chaining
  import opened FileTheorems
  import opened Tiling

  /** A SEQUENCE with its content length in two bytes. */
  function Sequence(content: Bytes): Bytes
    requires |content| < 0x1_0000
  {
    [0x30, 0x82, HiByte(|content|), LoByte(|content|)] + content
  }

  /** The headers that `readDataLengthFromAsn1` accepts. */
  predicate AcceptedHeader(file: Bytes)
    requires |file| >= 4
  {
    && file[0] == 0x30 && file[1] == 0x82
    && 128 <= Word(file[2], file[3]) + 4 <= 0x0f00
  }

  /** The length read from a file of four bytes or more: accepted exactly for those headers. */
  lemma LengthOfFile<S(!new), A(!new)>(
    card: Card<S>, view: S -> View<A>, app: Application<A>, fileOf: A -> Bytes,
    x: Session<S>, file: Bytes)
    requires Chains(card, view, app) && ServesFile(app, fileOf) && Reading(view, fileOf, x, file)
    requires |file| >= 4
    ensures
      var header := ReadHeader(card, x);
      && Reading(view, fileOf, header.next, file)
      && EnoughHeader(header.result)
      && (DataLength(header.result).Ok? <==> AcceptedHeader(file))
      && (AcceptedHeader(file) ==> DataLength(header.result) == Ok(Word(file[2], file[3]) + 4))
  {
    BlockOfFile(card, view, app, fileOf, x, file, 0, 4);
    assert Range(file, 0, 4) == file[..4];
  }

  /** Header, then `readBinary` of the length it gave: for a file that starts with a two-byte-length
      SEQUENCE and goes on with anything, there is a length iff the object's size is within what
      the header check accepts; then the whole object comes back, and only it, iff Le can ask for
      its first block; and nothing sent on the way, header included, has the top bit of P1 set,
      which would address another file. */
  lemma ReadsTheWholeObject<S(!new), A(!new)>(
    card: Card<S>, view: S -> View<A>, app: Application<A>, fileOf: A -> Bytes,
    x: Session<S>, content: Bytes, after: Bytes, block: nat)
    requires |content| < 0x1_0000
    requires Chains(card, view, app) && ServesFile(app, fileOf)
    requires Reading(view, fileOf, x, Sequence(content) + after)
    requires block > 0
    ensures
      var header := ReadHeader(card, x);
      && EnoughHeader(header.result)
      && var length := DataLength(header.result);
         && (length.Ok? <==> 124 <= |content| <= 0x0efc)
         && (length.Ok? ==>
               && length.value == |Sequence(content)|
               && var read := ReadBinary(card, header.next, length.value, block);
                  && (read.result.Ok? <==> Min(block, |content| + 4) <= 256)
                  && (read.result.Ok? ==> read.result.value == Sequence(content))
                  && x.trace <= read.next.trace && LowP1(Since(x, read.next)))
  {
    hide EndsChains, Completes, ChainingStep, ServesFile, ReadHeader, ReadBinary, LowP1, LowStarts, Addressable;
    var file := Sequence(content) + after;
    LengthOfFile(card, view, app, fileOf, x, file);
    WordOfHalves(|content|);
    assert file[2] == HiByte(|content|) && file[3] == LoByte(|content|);
    var header := ReadHeader(card, x);
    var length := DataLength(header.result);
    if length.Ok? {
      ShortIsLow(length.value, block);
      ReadBinaryIsExact(card, view, app, fileOf, header.next, file, length.value, block);
      assert file[..length.value] == Sequence(content);
      HeaderIsLow(card, x);
      TopBitStaysClear(card, header.next, length.value, block);
      LowConcat(x, header.next, ReadBinary(card, header.next, length.value, block).next);
    }
  }

  lemma HeaderIsLow<S(!new)>(card: Card<S>, x: Session<S>)
    requires EndsChains(card) && x.inProgress
    ensures var y := ReadHeader(card, x).next;
      x.trace <= y.trace && LowP1(Since(x, y))
  {
    hide EndsChains, Transmit, Since;
    SentForBlock(card, x, 0, 4);
    ReadsOrGetResponses(Since(x, ReadHeader(card, x).next));
  }

  lemma LowConcat<S>(x: Session<S>, y: Session<S>, z: Session<S>)
    requires x.trace <= y.trace <= z.trace && LowP1(Since(x, y)) && LowP1(Since(y, z))
    ensures LowP1(Since(x, z))
  {
    SinceConcat(x, y, z);
    ReadsInConcat(Since(x, y), Since(y, z));
  }
}
