/** The objects of SmartCard.cpp, and the two utilities that read files through them, proved
    against the functions of Chain, Session and FileRead. */
module SmartCards {
  import opened Bytes
  import opened Apdu
  import opened Chain
  import opened Sessions
  import opened FileRead

  /** `CardImpl`: the PC/SC handle. The card behind it and PC/SC itself are part of the object. */
  class CardImpl<S(!new)> {
    const card: Card<S>
    var state: S
    var depth: nat
    ghost var trace: seq<Raw>

    constructor (card: Card<S>, state: S)
      ensures this.card == card && this.state == state && depth == 0 && trace == []
    {
      this.card, this.state, depth, trace := card, state, 0, [];
    }

    /** `SCardTransmit`: the card takes one step. */
    method SCardTransmit(command: Bytes) returns (answer: Answer)
      modifies `state, `trace
      ensures answer == card.step(old(state), command).answer
      ensures state == card.step(old(state), command).next
      ensures trace == old(trace) + [Raw(Exchange(command, answer), depth)]
    {
      var reply := card.step(state, command);
      answer, state := reply.answer, reply.next;
      trace := trace + [Raw(Exchange(command, answer), depth)];
    }

    method TransmitBytes(command: Bytes) returns (r: Result<ResponseApdu>)
      requires ChainEnds(card, state, command)
      modifies `state, `trace
      ensures r == Outcome(Exchanges(card, old(state), command))
      ensures state == StateAfter(card, old(state), command)
      ensures trace == old(trace) + Stamp(Exchanges(card, old(state), command), depth)
      decreases ChainLength(card, state, command), 0
    {
      ghost var xs := Exchanges(card, state, command);
      ExchangesUnfold(card, state, command);
      var answer := SCardTransmit(command);
      var response :- ToResponse(answer);
      if response.sw1 == MORE_DATA_AVAILABLE {
        ghost var rest := Exchanges(card, state, NextCommand(answer));
        ghost var rounds;
        r, rounds := GetMoreResponseData(response);
        OutcomeCons(Exchange(command, answer), rest);
        StampConcat([Exchange(command, answer)], rest, depth);
      } else {
        r := Ok(response);
      }
    }

    /** Completes a 61xx response in place: the loop appends what the recursive calls return and the
        status becomes 9000. The caller's reference parameter is an in- and an out-parameter here.
        `rounds` counts the passes of the loop. */
    method GetMoreResponseData(response: ResponseApdu)
      returns (r: Result<ResponseApdu>, ghost rounds: nat)
      requires ChainEnds(card, state, GetResponse(response.sw2))
      requires response.sw1 == MORE_DATA_AVAILABLE
      modifies `state, `trace
      ensures rounds == 1
      ensures r == (match Outcome(Exchanges(card, old(state), [0x00, 0xc0, 0x00, 0x00, response.sw2]))
                    case Err(error) => Err(error)
                    case Ok(more) => Ok(ResponseApdu(0x90, 0x00, response.data + more.data)))
      ensures state == StateAfter(card, old(state), GetResponse(response.sw2))
      ensures trace == old(trace) + Stamp(Exchanges(card, old(state), GetResponse(response.sw2)), depth)
      decreases ChainLength(card, state, GetResponse(response.sw2)), 1
    {
      var completed := response;
      var newResponse := ResponseApdu(response.sw1, response.sw2, []);
      rounds := 0;
      ghost var all := Outcome(Exchanges(card, state, GetResponse(response.sw2)));
      while newResponse.sw1 == MORE_DATA_AVAILABLE
        invariant rounds == 0 ==>
          && newResponse == ResponseApdu(response.sw1, response.sw2, []) && completed == response
          && state == old(state) && trace == old(trace)
        invariant rounds > 0 ==>
          && rounds == 1 && newResponse.sw1 != MORE_DATA_AVAILABLE
          && all == Ok(newResponse) && completed.data == response.data + newResponse.data
          && state == StateAfter(card, old(state), GetResponse(response.sw2))
          && trace == old(trace)
                    + Stamp(Exchanges(card, old(state), GetResponse(response.sw2)), depth)
        decreases 1 - rounds
      {
        rounds := rounds + 1;
        ThrowsIffSomeAnswerDoes(card, state, GetResponse(newResponse.sw2));
        var next := TransmitBytes(GetResponse(newResponse.sw2));
        if next.Err? {
          return Err(next.error), rounds;
        }
        newResponse := next.value;
        completed := completed.(data := completed.data + newResponse.data);
      }
      completed := completed.(sw1 := OK, sw2 := 0x00);
      return Ok(completed), rounds;
    }

    /** `SCardBeginTransaction`; PC/SC decides whether it is granted. */
    method BeginTransaction(granted: bool) returns (r: Result<()>)
      modifies `depth
      ensures depth == old(depth) + if granted then 1 else 0
      ensures r == if granted then Ok(()) else Err(ScardError)
    {
      if !granted {
        return Err(ScardError);
      }
      depth := depth + 1;
      return Ok(());
    }

    /** `SCardEndTransaction`. */
    method EndTransaction(granted: bool) returns (r: Result<()>)
      modifies `depth
      ensures depth == if granted && old(depth) > 0 then old(depth) - 1 else old(depth)
      ensures r == if granted && old(depth) > 0 then Ok(()) else Err(ScardError)
    {
      if !granted || depth == 0 {
        return Err(ScardError);
      }
      depth := depth - 1;
      return Ok(());
    }
  }

  /** `SmartCard`. `guards` holds the TransactionGuard objects that refer to this card's flag. */
  class SmartCard<S(!new)> {
    const card: CardImpl?<S>
    var transactionInProgress: bool
    ghost var guards: set<TransactionGuard<S>>

    /** The null object. */
    constructor Null()
      ensures card == null && !transactionInProgress && guards == {}
    {
      card, transactionInProgress, guards := null, false, {};
    }

    constructor (card: CardImpl<S>)
      ensures this.card == card && !transactionInProgress && guards == {}
    {
      this.card, transactionInProgress, guards := card, false, {};
    }

    ghost predicate Valid()
      reads this, guards
    {
      forall g :: g in guards ==> g.owner == this && g.card == card
    }

    ghost function Now(): Session<S>
      requires card != null
      reads this, card
    {
      Session(transactionInProgress, |guards|, card.depth, card.state, card.trace)
    }

    method BeginTransaction(granted: bool) returns (r: Result<TransactionGuard<S>>)
      requires Valid()
      modifies this, card
      ensures Valid()
      ensures card == null ==>
        r == Err(LogicError) && transactionInProgress == old(transactionInProgress) && guards == old(guards)
      ensures card != null ==> Now() == Begin(old(Now()), granted).next
      ensures card != null && !granted ==> r == Err(ScardError) && guards == old(guards)
      ensures card != null && granted ==> r.Ok? && fresh(r.value) && guards == old(guards) + {r.value}
    {
      if card == null {
        return Err(LogicError);
      }
      r := TransactionGuard.Make(card, this, granted);
    }

    method Transmit(command: CommandApdu) returns (r: Result<ResponseApdu>)
      requires Valid()
      requires card != null ==> Returns(card.card, Now(), command)
      modifies if card == null then {} else {card}
      ensures Valid()
      ensures card == null ==> r == Err(LogicError)
      ensures card != null ==>
        var step := Sessions.Transmit(card.card, old(Now()), command);
        r == step.result && Now() == step.next
    {
      if card == null {
        return Err(LogicError);
      }
      if !transactionInProgress {
        return Err(LogicError);
      }
      var bytes := command.ToBytes();
      if bytes.Err? {
        return Err(bytes.error);
      }
      r := card.TransmitBytes(bytes.value);
    }
  }

  /** `SmartCard::TransactionGuard`: its constructor, which throws when PC/SC refuses the transaction
      and so is a method that may make no guard, and its destructor. */
  class TransactionGuard<S(!new)> {
    const card: CardImpl<S>
    const owner: SmartCard<S>

    constructor (card: CardImpl<S>, owner: SmartCard<S>)
      modifies owner
      ensures this.card == card && this.owner == owner
      ensures owner.transactionInProgress && owner.guards == old(owner.guards) + {this}
    {
      this.card, this.owner := card, owner;
      new;
      owner.transactionInProgress := true;
      owner.guards := owner.guards + {this};
    }

    static method Make(card: CardImpl<S>, owner: SmartCard<S>, granted: bool)
      returns (r: Result<TransactionGuard<S>>)
      requires owner.Valid() && owner.card == card
      modifies owner, card
      ensures owner.Valid() && owner.Now() == Begin(old(owner.Now()), granted).next
      ensures !granted ==> r == Err(ScardError) && owner.guards == old(owner.guards)
      ensures granted ==> r.Ok? && fresh(r.value) && owner.guards == old(owner.guards) + {r.value}
    {
      var begun := card.BeginTransaction(granted);
      if begun.Err? {
        return Err(begun.error);
      }
      var guard := new TransactionGuard(card, owner);
      return Ok(guard);
    }

    method Destroy(granted: bool)
      requires owner.Valid() && this in owner.guards
      modifies owner, card
      ensures owner.Valid() && owner.guards == old(owner.guards) - {this}
      ensures owner.card == card && owner.Now() == End(old(owner.Now()), granted)
    {
      owner.transactionInProgress := false;
      owner.guards := owner.guards - {this};
      var ignored := card.EndTransaction(granted);
    }
  }

  /** `readDataLengthFromAsn1`. The answer must hold the bytes the code looks at: reading past a
      shorter answer is undefined there. */
  method ReadDataLengthFromAsn1<S(!new)>(card: SmartCard<S>) returns (r: Result<nat>)
    requires card.Valid()
    requires card.card != null ==> Returns(card.card.card, card.Now(), ReadCommand(0, 4))
    requires card.card != null ==> EnoughHeader(ReadHeader(card.card.card, card.Now()).result)
    modifies if card.card == null then {} else {card.card}
    ensures card.Valid()
    ensures card.card == null ==> r == Err(LogicError)
    ensures card.card != null ==>
      var header := ReadHeader(card.card.card, old(card.Now()));
      r == DataLength(header.result) && card.Now() == header.next
  {
    var readBinary4Bytes := CommandApdu(0x00, 0xb0, 0x00, 0x00, [], 0x04);
    var answer := card.Transmit(readBinary4Bytes);
    if answer.Err? {
      return Err(answer.error);
    }
    var response := answer.value;
    if response.data[0] != DER_SEQUENCE_TYPE_TAG {
      return Err(NotASequence(response.data[0]));
    }
    if response.data[1] != DER_TWO_BYTE_LENGTH {
      return Err(NotATwoByteLength(response.data[1]));
    }
    var length := Word(response.data[2], response.data[3]) + 4;
    if length < 128 || length > 0x0f00 {
      return Err(UnexpectedDataLength(length));
    }
    return Ok(length);
  }

  /** `readBinary`, whenever it comes to an end (see FileRead.Ends). */
  method ReadBinary<S(!new)>(card: SmartCard<S>, length: nat, blockLength: nat) returns (r: Result<Bytes>)
    requires card.Valid()
    requires card.card != null ==> EndsChains(card.card.card) && Ends(card.card.card, card.Now(), length, blockLength)
    modifies if card.card == null then {} else {card.card}
    ensures card.Valid()
    ensures card.card == null ==> r == if length == 0 then Ok([]) else Err(LogicError)
    ensures card.card != null ==>
      var read := FileRead.ReadBinary(card.card.card, old(card.Now()), length, blockLength);
      r == read.result && card.Now() == read.next
  {
    hide FileRead.Iterate, FileRead.ReadBinary;
    var blockLengthVar := blockLength;
    var lengthCounter := length;
    var resultBytes: Bytes := [];
    var readBinary := CommandApdu(0x00, 0xb0, 0x00, 0x00);
    var offset := 0;
    ghost var end: Step<Loop, S>, passes: nat;
    if card.card != null {
      passes := EnoughPasses(card.card.card, card.Now(), length, blockLength);
      end := Iterate(card.card.card, card.Now(), Loop(0, length, blockLength, []), passes);
    } else {
      passes := 0;
    }
    while lengthCounter != 0
      invariant card.Valid()
      invariant offset + lengthCounter == length
      invariant readBinary.cla == 0x00 && readBinary.ins == 0xb0 && readBinary.data == []
      invariant card.card == null ==> resultBytes == [] && lengthCounter == length
      invariant card.card != null ==>
        Iterate(card.card.card, card.Now(), Loop(offset, lengthCounter, blockLengthVar, resultBytes), passes)
        == end
      decreases passes
    {
      ghost var here := Loop(offset, lengthCounter, blockLengthVar, resultBytes);
      if card.card != null && passes == 0 {
        NoPass(card.card.card, card.Now(), here, passes);
      }
      if blockLengthVar > lengthCounter {
        if card.card != null {
          BlockIsCapped(card.card.card, card.Now(), here, passes);
        }
        blockLengthVar := lengthCounter;
      }
      readBinary := readBinary.(p1 := HiByte(offset), p2 := LoByte(offset));
      readBinary := readBinary.(le := blockLengthVar % 256);
      assert readBinary == ReadCommand(offset, blockLengthVar);
      if card.card != null {
        PassMade(card.card.card, card.Now(), here.(block := blockLengthVar), passes);
      }
      var response := card.Transmit(readBinary);
      if response.Err? {
        return Err(response.error);
      }
      resultBytes := resultBytes + response.value.data;
      offset := offset + blockLengthVar;
      lengthCounter := lengthCounter - blockLengthVar;
      passes := passes - 1;
    }
    if card.card != null {
      NoPass(card.card.card, card.Now(), Loop(offset, lengthCounter, blockLengthVar, resultBytes), passes);
    }
    if |resultBytes| != length {
      return Err(InvalidLength(|resultBytes|));
    }
    return Ok(resultBytes);
  }
}
