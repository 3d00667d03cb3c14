/** A connected card as its user sees it: the transaction flag, the transactions open in PC/SC,
    and every raw exchange made so far (`SmartCard`, `SmartCard::TransactionGuard`). */
module Sessions {
  import opened Bytes
  import opened Apdu
  import opened Chain

  /** A raw exchange, and how many transactions were open when it took place. */
  datatype Raw = Raw(exchange: Exchange, depth: nat)

  datatype Session<S> = Session(
    inProgress: bool,   // SmartCard::transactionInProgress
    guards: nat,        // live TransactionGuard objects
    depth: nat,         // transactions open in PC/SC on this handle
    state: S,           // the card's own state
    trace: seq<Raw>)

  datatype Step<+T, S> = Step(result: Result<T>, next: Session<S>)

  function Stamp(xs: seq<Exchange>, depth: nat): (raw: seq<Raw>)
    ensures |raw| == |xs|
  {
    seq(|xs|, i requires 0 <= i < |xs| => Raw(xs[i], depth))
  }

  lemma StampConcat(xs: seq<Exchange>, ys: seq<Exchange>, depth: nat)
    ensures Stamp(xs + ys, depth) == Stamp(xs, depth) + Stamp(ys, depth)
  {
  }

  /** `CardImpl::transmitBytes`. */
  ghost function TransmitBytes<S(!new)>(card: Card<S>, x: Session<S>, bytes: Bytes): Step<ResponseApdu, S>
    requires ChainEnds(card, x.state, bytes)
  {
    var xs := Exchanges(card, x.state, bytes);
    Step(Outcome(xs),
         x.(state := StateAfter(card, x.state, bytes), trace := x.trace + Stamp(xs, x.depth)))
  }

  /** The chain that sending `command` starts, if it is sent, ends. */
  ghost predicate Returns<S(!new)>(card: Card<S>, x: Session<S>, command: CommandApdu): (r: bool)
    ensures EndsChains(card) ==> r
  {
    x.inProgress && command.Encoding().Ok? ==> ChainEnds(card, x.state, command.Encoding().value)
  }

  /** `SmartCard::transmit`. */
  ghost function Transmit<S(!new)>(card: Card<S>, x: Session<S>, command: CommandApdu): Step<ResponseApdu, S>
    requires Returns(card, x, command)
  {
    if !x.inProgress then Step(Err(LogicError), x)
    else
      match command.Encoding()
      case Err(error) => Step(Err(error), x)
      case Ok(bytes) => TransmitBytes(card, x, bytes)
  }

  /** `SmartCard::beginTransaction`, with PC/SC's answer. */
  function Begin<S>(x: Session<S>, granted: bool): Step<(), S> {
    if granted then
      Step(Ok(()), x.(inProgress := true, guards := x.guards + 1, depth := x.depth + 1))
    else Step(Err(ScardError), x)
  }

  /** `~TransactionGuard`, with PC/SC's answer; PC/SC has no transaction to end at depth 0. */
  function End<S>(x: Session<S>, granted: bool): Session<S>
    requires x.guards > 0
  {
    x.(inProgress := false, guards := x.guards - 1,
       depth := if granted && x.depth > 0 then x.depth - 1 else x.depth)
  }
}
