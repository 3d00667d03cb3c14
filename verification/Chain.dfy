/** Raw exchanges with a card and the GET RESPONSE chains they form
    (`CardImpl::transmitBytes`, `toResponse`, `getMoreResponseData`).

    A card is an arbitrary deterministic machine: any set of states, any answer to any bytes. */
module Chain {
  import opened Bytes
  import opened Apdu

  /** What `SCardTransmit` reports: an error code, or the bytes received. */
  datatype Answer = Failed | Received(bytes: Bytes)

  datatype Reply<S> = Reply(answer: Answer, next: S)

  datatype Card<!S> = Card(step: (S, Bytes) -> Reply<S>)

  datatype Exchange = Exchange(command: Bytes, answer: Answer)

  function GetResponse(available: Byte): Bytes {
    [0x00, 0xc0, 0x00, 0x00, available]
  }

  predicate IsGetResponse(command: Bytes) {
    |command| == 5 && command[0] == 0x00 && command[1] == 0xc0 && command[2] == command[3] == 0x00
  }

  /** The status bytes the transport hands to its caller. */
  predicate LetThrough(sw1: Byte) {
    sw1 in {OK, MORE_DATA_AVAILABLE, VERIFICATION_FAILED, VERIFICATION_CANCELLED, WRONG_LENGTH,
            COMMAND_NOT_ALLOWED, WRONG_PARAMETERS}
  }

  /** `SCardTransmit`'s result and `toResponse`: the response, or what is thrown. */
  function ToResponse(answer: Answer): Result<ResponseApdu> {
    match answer
    case Failed => Err(ScardError)
    case Received(bytes) =>
      if |bytes| > MAX_RESPONSE then Err(BufferTooSmall)
      else
        var response :- ResponseApdu.FromBytes(bytes);
        if response.sw1 == WRONG_LE_LENGTH then Err(WrongLe)
        else if LetThrough(response.sw1) then Ok(response)
        else Err(Error.ErrorResponse(response.sw1, response.sw2))
  }

  /** Exactly these answers get through, with their bytes kept. */
  lemma AcceptedAnswers(answer: Answer)
    ensures ToResponse(answer).Ok? <==>
      && answer.Received? && 2 <= |answer.bytes| <= 258
      && answer.bytes[|answer.bytes| - 2] in {0x90, 0x61, 0x63, 0x64, 0x67, 0x69, 0x6a}
    ensures ToResponse(answer).Ok? ==> ToResponse(answer).value.Encoding() == answer.bytes
  {
  }

  /** What is thrown for all other answers. */
  lemma RejectedAnswers(answer: Answer)
    ensures ToResponse(answer).Err? ==>
      ToResponse(answer).error ==
      if answer.Failed? then ScardError
      else
        var b := answer.bytes;
        if |b| > 258 then BufferTooSmall
        else if |b| < 2 then InvalidArgument
        else if b[|b| - 2] == 0x6c then WrongLe
        else Error.ErrorResponse(b[|b| - 2], b[|b| - 1])
  {
  }

  predicate IsMore(answer: Answer) {
    ToResponse(answer).Ok? && ToResponse(answer).value.sw1 == MORE_DATA_AVAILABLE
  }

  /** The command that follows a 61xx answer. */
  function NextCommand(answer: Answer): Bytes
    requires IsMore(answer)
  {
    GetResponse(ToResponse(answer).value.sw2)
  }

  // ----- Chains that end

  /** The command and the GET RESPONSEs after it all get 61xx, at least the first `n` of them. */
  ghost predicate AllMore<S(!new)>(card: Card<S>, s: S, command: Bytes, n: nat)
    decreases n
  {
    n > 0 ==>
      var reply := card.step(s, command);
      IsMore(reply.answer) && AllMore(card, reply.next, NextCommand(reply.answer), n - 1)
  }

  /** The chain that a command starts comes to another answer than 61xx. */
  ghost predicate ChainEnds<S(!new)>(card: Card<S>, s: S, command: Bytes) {
    exists n: nat :: !AllMore(card, s, command, n)
  }

  /** Every chain of the card ends. */
  ghost predicate EndsChains<S(!new)>(card: Card<S>) {
    forall s, command :: ChainEnds(card, s, command)
  }

  /** The length of a chain: how many answers it takes to come to one that is not 61xx. */
  ghost function ChainLength<S(!new)>(card: Card<S>, s: S, command: Bytes): (n: nat)
    requires ChainEnds(card, s, command)
    ensures n > 0 && !AllMore(card, s, command, n) && AllMore(card, s, command, n - 1)
  {
    var n: nat :| !AllMore(card, s, command, n);
    FirstOther(card, s, command, n);
    var first: nat :| first > 0 && !AllMore(card, s, command, first) && AllMore(card, s, command, first - 1);
    first
  }

  lemma {:induction false} FirstOther<S(!new)>(card: Card<S>, s: S, command: Bytes, n: nat)
    requires !AllMore(card, s, command, n)
    ensures exists first: nat ::
      first > 0 && !AllMore(card, s, command, first) && AllMore(card, s, command, first - 1)
    decreases n
  {
    if !AllMore(card, s, command, n - 1) {
      FirstOther(card, s, command, n - 1);
    }
  }

  lemma {:induction false} FewerMore<S(!new)>(card: Card<S>, s: S, command: Bytes, n: nat, m: nat)
    requires AllMore(card, s, command, n) && m <= n
    ensures AllMore(card, s, command, m)
    decreases m
  {
    if m > 0 {
      var reply := card.step(s, command);
      FewerMore(card, reply.next, NextCommand(reply.answer), n - 1, m - 1);
    }
  }

  /** After a 61xx answer the rest of the chain is one shorter. */
  lemma ChainGetsShorter<S(!new)>(card: Card<S>, s: S, command: Bytes)
    requires ChainEnds(card, s, command) && IsMore(card.step(s, command).answer)
    ensures var reply := card.step(s, command);
      && ChainEnds(card, reply.next, NextCommand(reply.answer))
      && ChainLength(card, s, command) == ChainLength(card, reply.next, NextCommand(reply.answer)) + 1
  {
    var reply := card.step(s, command);
    var n := ChainLength(card, s, command);
    assert !AllMore(card, reply.next, NextCommand(reply.answer), n - 1);
    var m := ChainLength(card, reply.next, NextCommand(reply.answer));
    if m < n - 1 {
      FewerMore(card, reply.next, NextCommand(reply.answer), n - 2, m);
    } else if n <= m {
      FewerMore(card, reply.next, NextCommand(reply.answer), m - 1, n - 1);
    }
  }

  /** `rank` drops with every 61xx answer. */
  ghost predicate Ranks<S(!new)>(card: Card<S>, rank: (S, Bytes) -> nat) {
    forall s, command :: IsMore(card.step(s, command).answer) ==>
      var reply := card.step(s, command);
      rank(reply.next, NextCommand(reply.answer)) < rank(s, command)
  }

  lemma {:induction false} RankedChainEnds<S(!new)>(
    card: Card<S>, rank: (S, Bytes) -> nat, s: S, command: Bytes)
    requires Ranks(card, rank)
    ensures !AllMore(card, s, command, rank(s, command) + 1)
    decreases rank(s, command)
  {
    var reply := card.step(s, command);
    if IsMore(reply.answer) {
      var next := NextCommand(reply.answer);
      RankedChainEnds(card, rank, reply.next, next);
      if AllMore(card, reply.next, next, rank(s, command)) {
        FewerMore(card, reply.next, next, rank(s, command), rank(reply.next, next) + 1);
      }
    }
  }

  /** All chains end exactly when some measure of the card drops along each of them. */
  lemma EndsChainsIffRanked<S(!new)>(card: Card<S>)
    ensures EndsChains(card) <==> exists rank: (S, Bytes) -> nat :: Ranks(card, rank)
  {
    if rank: (S, Bytes) -> nat :| Ranks(card, rank) {
      forall s, command
        ensures ChainEnds(card, s, command)
      {
        RankedChainEnds(card, rank, s, command);
      }
    }
    if EndsChains(card) {
      var rank := (s, command) => if ChainEnds(card, s, command) then ChainLength(card, s, command) else 0;
      forall s, command | IsMore(card.step(s, command).answer)
        ensures var reply := card.step(s, command);
          rank(reply.next, NextCommand(reply.answer)) < rank(s, command)
      {
        ChainGetsShorter(card, s, command);
      }
      assert Ranks(card, rank);
    }
  }

  /** The card that answers everything with 6100. */
  function AlwaysMore(): Card<()> {
    Card((s: (), command: Bytes) => Reply(Received([MORE_DATA_AVAILABLE, 0x00]), s))
  }

  /** It never comes to an end, whatever it is sent. */
  lemma {:induction false} AlwaysMoreNeverEnds(command: Bytes, n: nat)
    ensures AllMore(AlwaysMore(), (), command, n)
    decreases n
  {
    if n > 0 {
      AlwaysMoreNeverEnds(GetResponse(0x00), n - 1);
    }
  }

  // ----- The exchanges of a chain

  /** The raw exchanges caused by sending one command. */
  ghost function Exchanges<S(!new)>(card: Card<S>, s: S, command: Bytes): (xs: seq<Exchange>)
    requires ChainEnds(card, s, command)
    ensures |xs| == ChainLength(card, s, command)
    decreases ChainLength(card, s, command)
  {
    var reply := card.step(s, command);
    [Exchange(command, reply.answer)]
    + if IsMore(reply.answer) then
        ChainGetsShorter(card, s, command);
        Exchanges(card, reply.next, NextCommand(reply.answer))
      else []
  }

  /** The card's state once those exchanges are over. */
  ghost function StateAfter<S(!new)>(card: Card<S>, s: S, command: Bytes): S
    requires ChainEnds(card, s, command)
    decreases ChainLength(card, s, command)
  {
    var reply := card.step(s, command);
    if IsMore(reply.answer) then
      ChainGetsShorter(card, s, command);
      StateAfter(card, reply.next, NextCommand(reply.answer))
    else reply.next
  }

  lemma ExchangesUnfold<S(!new)>(card: Card<S>, s: S, command: Bytes)
    requires ChainEnds(card, s, command)
    ensures var reply := card.step(s, command);
      if IsMore(reply.answer) then
        && ChainEnds(card, reply.next, NextCommand(reply.answer))
        && ChainLength(card, reply.next, NextCommand(reply.answer)) < ChainLength(card, s, command)
        && Exchanges(card, s, command)
           == [Exchange(command, reply.answer)] + Exchanges(card, reply.next, NextCommand(reply.answer))
        && StateAfter(card, s, command) == StateAfter(card, reply.next, NextCommand(reply.answer))
      else Exchanges(card, s, command) == [Exchange(command, reply.answer)]
           && StateAfter(card, s, command) == reply.next
  {
    if IsMore(card.step(s, command).answer) {
      ChainGetsShorter(card, s, command);
    }
  }

  function DataOf(answer: Answer): Bytes {
    match ToResponse(answer)
    case Ok(response) => response.data
    case Err(_) => []
  }

  /** All data received, in order. */
  function Payload(xs: seq<Exchange>): Bytes {
    if xs == [] then [] else DataOf(xs[0].answer) + Payload(xs[1..])
  }

  function Last(xs: seq<Exchange>): Answer
    requires |xs| > 0
  {
    xs[|xs| - 1].answer
  }

  /** What the caller gets for a list of exchanges: the error of the last one; its response when
      it is the only one; otherwise all data under status 9000, whatever the last status was. */
  function Outcome(xs: seq<Exchange>): Result<ResponseApdu>
    requires |xs| > 0
  {
    match ToResponse(Last(xs))
    case Err(error) => Err(error)
    case Ok(response) => Ok(if |xs| == 1 then response else ResponseApdu(OK, 0x00, Payload(xs)))
  }

  /** One flat loop: send the command; while the answer is 61xx send GET RESPONSE xx; stop at
      any other answer. */
  ghost predicate IsFlatLoop(command: Bytes, xs: seq<Exchange>) {
    && |xs| > 0
    && xs[0].command == command
    && (forall i :: 0 <= i < |xs| - 1 ==>
          IsMore(xs[i].answer) && xs[i + 1].command == NextCommand(xs[i].answer))
    && !IsMore(Last(xs))
  }

  /** Given these commands from state `s`, the card gives these answers and ends in `t`. */
  ghost predicate Answers<S>(card: Card<S>, s: S, xs: seq<Exchange>, t: S) {
    if xs == [] then t == s
    else
      var reply := card.step(s, xs[0].command);
      reply.answer == xs[0].answer && Answers(card, reply.next, xs[1..], t)
  }

  /** The nested recursion is one flat loop: the exchanges of a command are exactly those of the
      flat loop that the card answers. */
  lemma {:induction false} ExchangesAreTheFlatLoop<S(!new)>(
    card: Card<S>, s: S, command: Bytes, xs: seq<Exchange>, t: S)
    requires ChainEnds(card, s, command)
    ensures IsFlatLoop(command, xs) && Answers(card, s, xs, t)
       <==> xs == Exchanges(card, s, command) && t == StateAfter(card, s, command)
    decreases ChainLength(card, s, command)
  {
    var reply := card.step(s, command);
    ExchangesUnfold(card, s, command);
    if IsMore(reply.answer) {
      var next := NextCommand(reply.answer);
      var rest := Exchanges(card, reply.next, next);
      ExchangesAreTheFlatLoop(card, reply.next, next, rest, StateAfter(card, reply.next, next));
      if IsFlatLoop(command, xs) && Answers(card, s, xs, t) {
        FlatLoopTail(command, xs);
        ExchangesAreTheFlatLoop(card, reply.next, next, xs[1..], t);
      } else if xs == Exchanges(card, s, command) && t == StateAfter(card, s, command) {
        assert xs[1..] == rest;
        FlatLoopCons(command, reply.answer, rest);
      }
    } else if IsFlatLoop(command, xs) && Answers(card, s, xs, t) {
      assert |xs| == 1;
    }
  }

  /** After the command itself only GET RESPONSE is sent. */
  lemma OnlyGetResponseFollows<S(!new)>(card: Card<S>, s: S, command: Bytes)
    requires ChainEnds(card, s, command)
    ensures var xs := Exchanges(card, s, command);
      xs[0].command == command && forall i :: 1 <= i < |xs| ==> IsGetResponse(xs[i].command)
  {
    var xs := Exchanges(card, s, command);
    ExchangesAreTheFlatLoop(card, s, command, xs, StateAfter(card, s, command));
    forall i | 1 <= i < |xs|
      ensures IsGetResponse(xs[i].command)
    {
      assert xs[i - 1 + 1].command == NextCommand(xs[i - 1].answer);
    }
  }

  /** The exchanges as the card sees them: the command; after every answer of at most 258 bytes with 61
      xx at its end, 00 C0 00 00 xx; and after any other answer nothing. */
  lemma ExchangesOnTheWire<S(!new)>(card: Card<S>, s: S, command: Bytes)
    requires ChainEnds(card, s, command)
    ensures var xs := Exchanges(card, s, command);
      && xs[0].command == command
      && (forall i :: 0 <= i < |xs| ==> (i < |xs| - 1 <==> Announces(xs[i].answer)))
      && (forall i :: 0 <= i < |xs| - 1 ==>
            && Announces(xs[i].answer)
            && xs[i + 1].command == [0x00, 0xc0, 0x00, 0x00, xs[i].answer.bytes[|xs[i].answer.bytes| - 1]])
  {
    hide Exchanges, StateAfter, Answers, ToResponse, ChainEnds;
    var xs := Exchanges(card, s, command);
    ExchangesAreTheFlatLoop(card, s, command, xs, StateAfter(card, s, command));
    forall i | 0 <= i < |xs|
      ensures IsMore(xs[i].answer) <==> Announces(xs[i].answer)
      ensures IsMore(xs[i].answer) ==>
        && Announces(xs[i].answer)
        && NextCommand(xs[i].answer) == [0x00, 0xc0, 0x00, 0x00, xs[i].answer.bytes[|xs[i].answer.bytes| - 1]]
    {
      MoreOnTheWire(xs[i].answer);
    }
  }

  /** At most 258 bytes that end in 61 xx. */
  predicate Announces(answer: Answer) {
    answer.Received? && 2 <= |answer.bytes| <= 258 && answer.bytes[|answer.bytes| - 2] == 0x61
  }

  lemma MoreOnTheWire(answer: Answer)
    ensures IsMore(answer) <==> Announces(answer)
    ensures IsMore(answer) ==>
      NextCommand(answer) == [0x00, 0xc0, 0x00, 0x00, answer.bytes[|answer.bytes| - 1]]
  {
  }

  lemma FlatLoopTail(command: Bytes, xs: seq<Exchange>)
    requires IsFlatLoop(command, xs) && IsMore(xs[0].answer)
    ensures |xs| > 1 && IsFlatLoop(NextCommand(xs[0].answer), xs[1..])
  {
  }

  lemma {:induction false} FlatLoopEnds<S(!new)>(
    card: Card<S>, s: S, command: Bytes, xs: seq<Exchange>, t: S)
    requires IsFlatLoop(command, xs) && Answers(card, s, xs, t)
    ensures !AllMore(card, s, command, |xs|)
    decreases |xs|
  {
    var reply := card.step(s, command);
    if IsMore(reply.answer) {
      FlatLoopTail(command, xs);
      FlatLoopEnds(card, reply.next, NextCommand(reply.answer), xs[1..], t);
    }
  }

  /** When the library returns: the card lets a flat loop come to its end iff its chain ends. On a
      chain without end there is no such loop, and nothing is ever returned. */
  lemma FlatLoopExistsIff<S(!new)>(card: Card<S>, s: S, command: Bytes)
    ensures ChainEnds(card, s, command)
       <==> exists xs, t :: IsFlatLoop(command, xs) && Answers(card, s, xs, t)
  {
    if ChainEnds(card, s, command) {
      ExchangesAreTheFlatLoop(card, s, command, Exchanges(card, s, command), StateAfter(card, s, command));
    }
    if xs, t :| IsFlatLoop(command, xs) && Answers(card, s, xs, t) {
      FlatLoopEnds(card, s, command, xs, t);
    }
  }

  lemma FlatLoopCons(command: Bytes, answer: Answer, rest: seq<Exchange>)
    requires IsMore(answer) && IsFlatLoop(NextCommand(answer), rest)
    ensures IsFlatLoop(command, [Exchange(command, answer)] + rest)
  {
  }

  /** `transmitBytes` throws iff some raw answer is an error, is malformed or has a rejected
      status; and what it returns never asks for more data, so the loop around the recursive call
      makes one pass. */
  lemma {:induction false} ThrowsIffSomeAnswerDoes<S(!new)>(card: Card<S>, s: S, command: Bytes)
    requires ChainEnds(card, s, command)
    ensures var xs := Exchanges(card, s, command);
      && (Outcome(xs).Err? <==> exists x :: x in xs && ToResponse(x.answer).Err?)
      && (Outcome(xs).Err? ==> ToResponse(xs[|xs| - 1].answer) == Err(Outcome(xs).error))
      && (Outcome(xs).Ok? ==> Outcome(xs).value.sw1 != 0x61)
  {
    hide Exchanges, StateAfter, Answers, ToResponse, Payload, ChainEnds;
    var xs := Exchanges(card, s, command);
    ExchangesAreTheFlatLoop(card, s, command, xs, StateAfter(card, s, command));
    if x :| x in xs && ToResponse(x.answer).Err? {
      var i :| 0 <= i < |xs| && xs[i] == x;
      assert i == |xs| - 1;
    }
    if Outcome(xs).Err? {
      assert xs[|xs| - 1] in xs;
    }
  }

  /** What is returned: all data of the chain, in order, under the raw status when the first answer
      was the last, and under 9000 otherwise, whatever the last status was. */
  lemma ResponseOfChain(xs: seq<Exchange>)
    requires |xs| > 0
    ensures Outcome(xs).Ok? ==>
      var response := Outcome(xs).value;
      && response.data == Payload(xs)
      && (|xs| == 1 ==> xs[0].answer == Received(response.Encoding()))
      && (|xs| > 1 ==> response.sw1 == 0x90 && response.sw2 == 0x00)
  {
    if |xs| == 1 {
      AcceptedAnswers(xs[0].answer);
      assert xs[1..] == [] && DataOf(xs[0].answer) + [] == DataOf(xs[0].answer);
    }
  }

  /** Prefixing a chain with the 61xx answer that started it. */
  lemma OutcomeCons(x: Exchange, rest: seq<Exchange>)
    requires IsMore(x.answer) && |rest| > 0
    ensures Outcome([x] + rest)
         == (match ToResponse(Last(rest))
             case Err(error) => Err(error)
             case Ok(_) => Ok(ResponseApdu(OK, 0x00, DataOf(x.answer) + Payload(rest))))
    ensures Outcome(rest).Ok? ==> Outcome(rest).value.data == Payload(rest)
  {
  }
}
