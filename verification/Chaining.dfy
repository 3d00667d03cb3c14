/** Response chaining: a card that hands out each answer of its application in 61xx pieces, seen
    through the transport (GET RESPONSE, ISO/IEC 7816-4:2005, section 7.6.1). */
module Chaining {
  import opened Bytes
  import opened Apdu
  import opened Chain
  import opened Sessions

  datatype Output<A> = Output(data: Bytes, sw1: Byte, sw2: Byte, next: A)

  /** What runs on the card: any state, and an answer of any length and status to any command. */
  type Application<!A> = (A, Bytes) -> Output<A>

  /** No complete answer has the status that announces more data. */
  ghost predicate Completes<A(!new)>(app: Application<A>) {
    forall a, command :: app(a, command).sw1 != MORE_DATA_AVAILABLE
  }

  /** The card that sends every answer in one piece. */
  function Direct<A>(app: Application<A>): Card<A> {
    Card((a: A, command: Bytes) =>
           var o := app(a, command);
           Reply(Received(o.data + [o.sw1, o.sw2]), o.next))
  }

  /** What a card still has to send. */
  datatype Pending = Nothing | Rest(data: Bytes, sw1: Byte, sw2: Byte)

  datatype View<A> = View(app: A, pending: Pending)

  /** Of `data` still to send, the card sends any leading piece: all of it under the final status,
      or some of it under 61xx, with any xx, keeping the rest. */
  ghost predicate Sends(data: Bytes, sw1: Byte, sw2: Byte, answer: Answer, left: Pending) {
    && answer.Received? && |answer.bytes| >= 2
    && var piece := answer.bytes[..|answer.bytes| - 2];
       var status := answer.bytes[|answer.bytes| - 2..];
    && |piece| <= MAX_RESPONSE_DATA && piece <= data
    && (|| (status == [sw1, sw2] && piece == data && left == Nothing)
        || (status[0] == MORE_DATA_AVAILABLE && left == Rest(data[|piece|..], sw1, sw2)))
  }

  /** Every way of cutting is allowed: a piece of any length up to 256 bytes, with any xx. */
  lemma AnyPieceIsSent(data: Bytes, sw1: Byte, sw2: Byte, n: nat, xx: Byte)
    requires n <= |data| && n <= 256
    ensures Sends(data, sw1, sw2, Received(data[..n] + [0x61, xx]), Rest(data[n..], sw1, sw2))
    ensures |data| <= 256 ==> Sends(data, sw1, sw2, Received(data + [sw1, sw2]), Nothing)
  {
    var bytes := data[..n] + [0x61, xx];
    assert bytes[..|bytes| - 2] == data[..n] && bytes[|bytes| - 2..] == [0x61, xx];
    var all := data + [sw1, sw2];
    assert all[..|all| - 2] == data && all[|all| - 2..] == [sw1, sw2];
  }

  /** What a card with `v` has to send after a command: GET RESPONSE continues what is pending; any
      other command, or GET RESPONSE with nothing pending, goes to the application and drops what
      was pending. */
  function ToSend<A>(app: Application<A>, v: View<A>, command: Bytes): Output<A> {
    if v.pending.Rest? && IsGetResponse(command) then
      Output(v.pending.data, v.pending.sw1, v.pending.sw2, v.app)
    else app(v.app, command)
  }

  /** One step of a chaining card. */
  ghost predicate ChainingStep<A>(
    app: Application<A>, v: View<A>, command: Bytes, answer: Answer, w: View<A>)
  {
    var o := ToSend(app, v, command);
    w.app == o.next && Sends(o.data, o.sw1, o.sw2, answer, w.pending)
  }

  /** `card`, seen through `view`, is a chaining card for `app` whose chains end. */
  ghost predicate Chains<S(!new), A(!new)>(card: Card<S>, view: S -> View<A>, app: Application<A>) {
    && EndsChains(card)
    && Completes(app)
    && forall s, command :: var reply := card.step(s, command);
         ChainingStep(app, view(s), command, reply.answer, view(reply.next))
  }

  /** What a complete answer means to the transport. */
  function Complete<A>(o: Output<A>): Result<ResponseApdu> {
    if o.sw1 == WRONG_LE_LENGTH then Err(WrongLe)
    else if LetThrough(o.sw1) then Ok(ResponseApdu(o.sw1, o.sw2, o.data))
    else Err(Error.ErrorResponse(o.sw1, o.sw2))
  }

  /** What the transport makes of one piece. */
  lemma PieceSent<A>(o: Output<A>, answer: Answer, left: Pending)
    requires Sends(o.data, o.sw1, o.sw2, answer, left)
    requires o.sw1 != MORE_DATA_AVAILABLE
    ensures if IsMore(answer) then
              && IsGetResponse(NextCommand(answer))
              && left.Rest? && left.sw1 == o.sw1 && left.sw2 == o.sw2
              && DataOf(answer) + left.data == o.data
            else left == Nothing && ToResponse(answer) == Complete(o)
  {
  }

  /** The exchanges carry `o`: its error, or its data and in the end its status. */
  ghost predicate Carries<A>(xs: seq<Exchange>, o: Output<A>)
    requires |xs| > 0
  {
    match Complete(o)
    case Err(error) => ToResponse(Last(xs)) == Err(error)
    case Ok(response) =>
      && ToResponse(Last(xs)).Ok?
      && Payload(xs) == o.data
      && (|xs| == 1 ==> ToResponse(Last(xs)).value == response)
  }

  /** Sending out `data` takes the pieces, in order, and leaves nothing pending. */
  lemma {:induction false} Drain<S(!new), A(!new)>(
    card: Card<S>, view: S -> View<A>, app: Application<A>, s: S, command: Bytes, o: Output<A>)
    requires Chains(card, view, app)
    requires var reply := card.step(s, command);
      && view(reply.next).app == o.next
      && Sends(o.data, o.sw1, o.sw2, reply.answer, view(reply.next).pending)
    requires o.sw1 != MORE_DATA_AVAILABLE
    ensures view(StateAfter(card, s, command)) == View(o.next, Nothing)
    ensures Carries(Exchanges(card, s, command), o)
    decreases ChainLength(card, s, command)
  {
    var reply := card.step(s, command);
    ExchangesUnfold(card, s, command);
    PieceSent(o, reply.answer, view(reply.next).pending);
    if IsMore(reply.answer) {
      var left := view(reply.next).pending;
      var rest := Output(left.data, o.sw1, o.sw2, o.next);
      Drain(card, view, app, reply.next, NextCommand(reply.answer), rest);
      CarriesCons(Exchange(command, reply.answer),
                  Exchanges(card, reply.next, NextCommand(reply.answer)), rest, o);
    } else {
      var xs := [Exchange(command, reply.answer)];
      assert Payload(xs) == DataOf(reply.answer) + Payload([]);
    }
  }

  lemma CarriesCons<A>(x: Exchange, xs: seq<Exchange>, rest: Output<A>, o: Output<A>)
    requires |xs| > 0 && Carries(xs, rest)
    requires o == rest.(data := DataOf(x.answer) + rest.data)
    ensures Carries([x] + xs, o)
  {
  }

  /** Transmitting to a chaining card. */
  lemma TransmitToChaining<S(!new), A(!new)>(
    card: Card<S>, view: S -> View<A>, app: Application<A>, s: S, command: Bytes)
    requires Chains(card, view, app)
    requires view(s).pending.Nothing?
    ensures
      var o := app(view(s).app, command);
      var xs := Exchanges(card, s, command);
      && view(StateAfter(card, s, command)) == View(o.next, Nothing)
      && Outcome(xs) == match Complete(o)
                        case Err(error) => Err(error)
                        case Ok(r) => Ok(if |xs| == 1 then r else ResponseApdu(0x90, 0x00, o.data))
  {
    Drain(card, view, app, s, command, app(view(s).app, command));
  }

  /** The same inside a transaction, for a command that has a byte form. */
  lemma TransmitDelivers<S(!new), A(!new)>(
    card: Card<S>, view: S -> View<A>, app: Application<A>, x: Session<S>, command: CommandApdu)
    requires Chains(card, view, app)
    requires x.inProgress && view(x.state).pending.Nothing?
    requires command.Encoding().Ok?
    ensures
      var o := app(view(x.state).app, command.Encoding().value);
      var sent := Transmit(card, x, command);
      && sent.next.inProgress && view(sent.next.state) == View(o.next, Nothing)
      && match Complete(o)
         case Err(error) => sent.result == Err(error)
         case Ok(_) => sent.result.Ok? && sent.result.value.data == o.data
  {
    TransmitToChaining(card, view, app, x.state, command.Encoding().value);
  }

  lemma DirectAnswer<A(!new)>(app: Application<A>, a: A, command: Bytes)
    ensures var o := app(a, command);
      Direct(app).step(a, command) == Reply(Received(o.data + [o.sw1, o.sw2]), o.next)
    ensures var o := app(a, command);
      ToResponse(Direct(app).step(a, command).answer)
      == if |o.data| > MAX_RESPONSE_DATA then Err(BufferTooSmall) else Complete(o)
  {
  }

  lemma DirectEndsChains<A(!new)>(app: Application<A>)
    requires Completes(app)
    ensures EndsChains(Direct(app))
  {
    forall a, command
      ensures ChainEnds(Direct(app), a, command)
    {
      assert !AllMore(Direct(app), a, command, 1);
    }
  }

  /** The card that answers in one piece is a chaining card, as long as each answer fits. */
  lemma DirectChains<A(!new)>(app: Application<A>)
    requires Completes(app)
    requires forall a, command :: |app(a, command).data| <= MAX_RESPONSE_DATA
    ensures Chains(Direct(app), (a: A) => View(a, Nothing), app)
  {
    DirectEndsChains(app);
  }

  /** Chaining is transparent exactly when it has no status to lose: `transmit` gives the same through
      any splitting as in one piece iff the answer fits in one piece and was not split, has a
      status that is rejected anyway, or has 9000. Any other status turns into 9000. */
  lemma ChainingIsTransparentIff<S(!new), A(!new)>(
    card: Card<S>, view: S -> View<A>, app: Application<A>, s: S, command: Bytes)
    requires Chains(card, view, app) && view(s).pending.Nothing?
    ensures
      var a := view(s).app;
      var o := app(a, command);
      var xs := Exchanges(card, s, command);
      && EndsChains(Direct(app))
      && (Outcome(xs) == Outcome(Exchanges(Direct(app), a, command))
          <==> |o.data| <= MAX_RESPONSE_DATA
               && (|xs| == 1 || !LetThrough(o.sw1) || (o.sw1 == 0x90 && o.sw2 == 0x00)))
  {
    var a := view(s).app;
    TransmitToChaining(card, view, app, s, command);
    DirectEndsChains(app);
    DirectAnswer(app, a, command);
  }

  // ----- Chaining cards there are

  /** The card that sends at most `k` bytes at a time and announces what is left. */
  function Splitter<A>(app: Application<A>, k: nat): Card<View<A>> {
    Card((v: View<A>, command: Bytes) =>
           var o := ToSend(app, v, command);
           if |o.data| <= k then Reply(Received(o.data + [o.sw1, o.sw2]), View(o.next, Nothing))
           else Reply(Received(o.data[..k] + [MORE_DATA_AVAILABLE, Announced(|o.data| - k)]),
                      View(o.next, Rest(o.data[k..], o.sw1, o.sw2))))
  }

  /** The bytes left to send; a state of the type may also hold a pending status 61xx, after which
      the application is asked once more. */
  function Left<A>(app: Application<A>, o: Output<A>): nat {
    |o.data| + if o.sw1 == MORE_DATA_AVAILABLE then 1 + |app(o.next, GetResponse(o.sw2)).data| else 0
  }

  /** SW2 of 61xx: the bytes left, or 0 for 256 and more. */
  function Announced(left: nat): Byte {
    if left < 256 then left else 0
  }

  /** Any application and any piece size up to a full response make a chaining card. */
  lemma SplitterChains<A(!new)>(app: Application<A>, k: nat)
    requires Completes(app) && 1 <= k <= MAX_RESPONSE_DATA
    ensures Chains(Splitter(app, k), (v: View<A>) => v, app)
  {
    var card := Splitter(app, k);
    forall v, command
      ensures ChainingStep(app, v, command, card.step(v, command).answer, card.step(v, command).next)
    {
      SplitterStep(app, k, v, command);
    }
    var rank := (v, command) => Left(app, ToSend(app, v, command));
    forall v, command | IsMore(card.step(v, command).answer)
      ensures rank(card.step(v, command).next, NextCommand(card.step(v, command).answer)) < rank(v, command)
    {
      SplitterAsksOn(app, k, v, command);
    }
    assert Ranks(card, rank);
    EndsChainsIffRanked(card);
  }

  lemma SplitterStep<A(!new)>(app: Application<A>, k: nat, v: View<A>, command: Bytes)
    requires 1 <= k <= MAX_RESPONSE_DATA
    ensures var reply := Splitter(app, k).step(v, command);
      ChainingStep(app, v, command, reply.answer, reply.next)
  {
  }

  /** What it sends: at most `k` bytes of what is left, as many as it can; all of them under the final
      status, or 61 with how many are left after them, 0 standing for 256 and more. */
  lemma SplitterPieces<A(!new)>(app: Application<A>, k: nat, v: View<A>, command: Bytes)
    requires 1 <= k <= MAX_RESPONSE_DATA
    ensures
      var o := ToSend(app, v, command);
      var answer := Splitter(app, k).step(v, command).answer;
      && answer.Received?
      && |answer.bytes| == 2 + (if |o.data| < k then |o.data| else k)
      && answer.bytes[..|answer.bytes| - 2] <= o.data
      && answer.bytes[|answer.bytes| - 2..]
         == if |o.data| <= k then [o.sw1, o.sw2]
            else [0x61, if |o.data| - k < 256 then |o.data| - k else 0]
  {
  }

  lemma SplitterAsksOn<A(!new)>(app: Application<A>, k: nat, v: View<A>, command: Bytes)
    requires Completes(app) && 1 <= k <= MAX_RESPONSE_DATA
    requires IsMore(Splitter(app, k).step(v, command).answer)
    ensures var reply := Splitter(app, k).step(v, command);
      Left(app, ToSend(app, reply.next, NextCommand(reply.answer))) < Left(app, ToSend(app, v, command))
  {
  }

  // ----- A status that is lost

  /** An application that answers everything with two bytes and the warning 63C2. */
  function Warns(): Application<()> {
    (a: (), command: Bytes) => Output([0x01, 0x02], 0x63, 0xc2, a)
  }

  /** Sent byte by byte, its answer arrives as a success; sent at once, as the warning it is. */
  lemma WarningIsLost(command: Bytes)
    ensures
      var card, s := Splitter(Warns(), 1), View((), Nothing);
      && EndsChains(card) && EndsChains(Direct(Warns()))
      && Outcome(Exchanges(card, s, command)) == Ok(ResponseApdu(0x90, 0x00, [0x01, 0x02]))
      && Outcome(Exchanges(Direct(Warns()), (), command))
         == Ok(ResponseApdu(0x63, 0xc2, [0x01, 0x02]))
  {
    var card, s := Splitter(Warns(), 1), View((), Nothing);
    SplitterChains(Warns(), 1);
    DirectEndsChains(Warns());
    TransmitToChaining(card, (v: View<()>) => v, Warns(), s, command);
    SplitterStep(Warns(), 1, s, command);
    ExchangesUnfold(card, s, command);
    DirectAnswer(Warns(), (), command);
    ExchangesUnfold(Direct(Warns()), (), command);
  }
}
