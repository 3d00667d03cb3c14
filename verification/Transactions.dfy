/** Whole runs of a SmartCard: guards made and destroyed in any order, PC/SC granting or refusing,
    commands sent, files read. */
module Transactions {
  import opened Wrappers
  import opened Bytes
  import opened Apdu
  import opened Chain
  import opened Sessions
  import opened FileRead
  import opened SmartCards

  datatype Action =
    | MakeGuard(granted: bool)
    | DestroyGuard(granted: bool)
    | Send(command: CommandApdu)
    | ReadHeaderLength
    | ReadFile(length: nat, block: nat)

  /** What a program can do and be done with: it destroys only guards it has, and a read that never
      ends is never over. */
  ghost predicate Possible<S(!new)>(card: Card<S>, x: Session<S>, action: Action)
    requires EndsChains(card)
  {
    match action
    case DestroyGuard(_) => x.guards > 0
    case ReadFile(length, block) => Ends(card, x, length, block)
    case _ => true
  }

  ghost function Do<S(!new)>(card: Card<S>, x: Session<S>, action: Action): Session<S>
    requires EndsChains(card)
    requires Possible(card, x, action)
  {
    match action
    case MakeGuard(granted) => Begin(x, granted).next
    case DestroyGuard(granted) => End(x, granted)
    case Send(command) => Transmit(card, x, command).next
    case ReadHeaderLength => ReadHeader(card, x).next
    case ReadFile(length, block) => FileRead.ReadBinary(card, x, length, block).next
  }

  /** The sessions along a run of `actions`, or nothing when some action is not possible. */
  ghost function Run<S(!new)>(card: Card<S>, x: Session<S>, actions: seq<Action>): Option<Session<S>>
    requires EndsChains(card)
    decreases |actions|
  {
    if actions == [] then Some(x)
    else if !Possible(card, x, actions[0]) then None
    else Run(card, Do(card, x, actions[0]), actions[1..])
  }

  /** The flag is up only while a guard lives, every live guard has its transaction, and every raw
      exchange so far took place inside a transaction. */
  ghost predicate Safe<S>(x: Session<S>) {
    && (x.inProgress ==> x.guards > 0)
    && x.guards <= x.depth
    && (forall raw :: raw in x.trace ==> raw.depth > 0)
  }

  function Fresh<S>(state: S): Session<S> {
    Session(false, 0, 0, state, [])
  }

  /** A fresh connection. */
  method Connect<S(!new)>(card: Card<S>, state: S) returns (connected: SmartCard<S>)
    ensures fresh(connected) && connected.Valid() && connected.card != null && connected.card.card == card
    ensures connected.Now() == Fresh(state)
  {
    var impl := new CardImpl(card, state);
    connected := new SmartCard(impl);
  }

  /** What `Do` says is what the objects do; `guard` is the one to destroy. */
  method Perform<S(!new)>(connected: SmartCard<S>, action: Action, guard: TransactionGuard?<S>)
    requires connected.Valid() && connected.card != null && EndsChains(connected.card.card)
    requires Possible(connected.card.card, connected.Now(), action)
    requires action.DestroyGuard? ==> guard != null && guard in connected.guards
    requires action.ReadHeaderLength? ==>
      EnoughHeader(ReadHeader(connected.card.card, connected.Now()).result)
    modifies connected, connected.card
    ensures connected.Valid()
    ensures connected.Now() == Do(connected.card.card, old(connected.Now()), action)
  {
    match action {
      case MakeGuard(granted) => var _ := connected.BeginTransaction(granted);
      case DestroyGuard(granted) => guard.Destroy(granted);
      case Send(command) => var _ := connected.Transmit(command);
      case ReadHeaderLength => var _ := ReadDataLengthFromAsn1(connected);
      case ReadFile(length, block) => var _ := SmartCards.ReadBinary(connected, length, block);
    }
  }

  lemma TransmitIsSafe<S(!new)>(card: Card<S>, x: Session<S>, command: CommandApdu)
    requires EndsChains(card) && Safe(x)
    ensures var y := Transmit(card, x, command).next;
      && Safe(y)
      && y.inProgress == x.inProgress && y.guards == x.guards && y.depth == x.depth
      && x.trace <= y.trace && (!x.inProgress ==> y == x)
  {
  }

  lemma {:induction false} LoopIsSafe<S(!new)>(card: Card<S>, x: Session<S>, l: Loop, passes: nat)
    requires EndsChains(card) && Safe(x)
    ensures var y := Iterate(card, x, l, passes).next;
      && Safe(y)
      && y.inProgress == x.inProgress && y.guards == x.guards && y.depth == x.depth
      && x.trace <= y.trace && (!x.inProgress ==> y == x)
    decreases passes
  {
    hide Transmit, Safe;
    if passes > 0 && l.counter > 0 {
      TransmitIsSafe(card, x, ReadCommand(l.offset, Min(l.block, l.counter)));
      var pass := OnePass(card, x, l);
      if pass.result.Ok? {
        LoopIsSafe(card, pass.next, pass.result.value, passes - 1);
      }
    }
  }

  /** Every action keeps the session safe, never takes back an exchange, and outside a transaction
      exchanges nothing at all; only guards move the flag. */
  lemma ActionIsSafe<S(!new)>(card: Card<S>, x: Session<S>, action: Action)
    requires EndsChains(card) && Safe(x) && Possible(card, x, action)
    ensures var y := Do(card, x, action);
      && Safe(y)
      && x.trace <= y.trace
      && (!x.inProgress ==> y.trace == x.trace && y.state == x.state)
      && y.inProgress == FlagAfter(action, x.inProgress)
      && y.guards == (match action
                      case MakeGuard(true) => x.guards + 1
                      case DestroyGuard(_) => x.guards - 1
                      case _ => x.guards)
  {
    match action {
      case MakeGuard(_) =>
      case DestroyGuard(_) =>
      case Send(command) => TransmitIsSafe(card, x, command);
      case ReadHeaderLength => TransmitIsSafe(card, x, ReadCommand(0, 4));
      case ReadFile(length, block) =>
        var passes := EnoughPasses(card, x, length, block);
        LoopIsSafe(card, x, Loop(0, length, block, []), passes);
    }
  }

  predicate FlagAfter(action: Action, before: bool) {
    match action
    case MakeGuard(granted) => granted || before
    case DestroyGuard(_) => false
    case _ => before
  }

  lemma {:induction false} RunKeepsSafe<S(!new)>(card: Card<S>, x: Session<S>, actions: seq<Action>)
    requires EndsChains(card) && Safe(x)
    ensures var y := Run(card, x, actions);
      y.Some? ==> Safe(y.value) && x.trace <= y.value.trace
    decreases |actions|
  {
    hide Safe, Do;
    if actions != [] && Possible(card, x, actions[0]) {
      ActionIsSafe(card, x, actions[0]);
      RunKeepsSafe(card, Do(card, x, actions[0]), actions[1..]);
    }
  }

  /** Transaction safety: in every run from a fresh connection, whatever is granted or refused and
      however guards overlap, every raw exchange, each GET RESPONSE and each block of a file
      included, happens with a transaction open; and the flag is up only while a guard lives. */
  lemma EveryExchangeIsInATransaction<S(!new)>(card: Card<S>, state: S, actions: seq<Action>)
    requires EndsChains(card)
    ensures var y := Run(card, Fresh(state), actions);
      y.Some? ==>
        && (forall raw :: raw in y.value.trace ==> raw.depth > 0)
        && (y.value.inProgress ==> y.value.guards > 0 && y.value.depth > 0)
  {
    RunKeepsSafe(card, Fresh(state), actions);
  }

  /** The last action that made or destroyed a guard, if any, made one. */
  predicate GuardMadeLast(actions: seq<Action>, before: bool) {
    if actions == [] then before
    else
      var last := actions[|actions| - 1];
      match last
      case MakeGuard(true) => true
      case DestroyGuard(_) => false
      case _ => GuardMadeLast(actions[..|actions| - 1], before)
  }

  lemma {:induction false} RunSnoc<S(!new)>(
    card: Card<S>, x: Session<S>, actions: seq<Action>, last: Action)
    requires EndsChains(card)
    ensures var y := Run(card, x, actions);
      Run(card, x, actions + [last])
      == if y.None? || !Possible(card, y.value, last) then None else Some(Do(card, y.value, last))
    decreases |actions|
  {
    hide Do;
    var all := actions + [last];
    if actions == [] {
      assert all == [last];
      assert all[1..] == [];
    } else {
      assert all[1..] == actions[1..] + [last];
      if Possible(card, x, actions[0]) {
        RunSnoc(card, Do(card, x, actions[0]), actions[1..], last);
      }
    }
  }

  /** What the flag really says, over every run: not that some guard lives, but that the last
      guard made or destroyed was made. */
  lemma {:induction false} FlagMeansGuardMadeLast<S(!new)>(card: Card<S>, state: S, actions: seq<Action>)
    requires EndsChains(card)
    ensures var y := Run(card, Fresh(state), actions);
      y.Some? ==> y.value.inProgress == GuardMadeLast(actions, false)
    decreases |actions|
  {
    if actions != [] {
      var front, last := actions[..|actions| - 1], actions[|actions| - 1];
      assert actions == front + [last];
      RunSnoc(card, Fresh(state), front, last);
      FlagMeansGuardMadeLast(card, state, front);
      RunKeepsSafe(card, Fresh(state), front);
      var y := Run(card, Fresh(state), front);
      if y.Some? && Possible(card, y.value, last) {
        ActionIsSafe(card, y.value, last);
      }
    }
  }

  /** So with nested guards the flag can be down while a guard lives and its transaction is open:
      make two, destroy one, and `transmit` refuses. */
  lemma NestedGuardsDropTheFlag<S(!new)>(card: Card<S>, state: S, command: CommandApdu)
    requires EndsChains(card)
    ensures
      var y := Run(card, Fresh(state), [MakeGuard(true), MakeGuard(true), DestroyGuard(true)]);
      && y.Some? && y.value.guards == 1 && y.value.depth == 1 && !y.value.inProgress
      && Transmit(card, y.value, command).result == Err(LogicError)
  {
  }

  /** No guard is destroyed while another lives, starting with `guards` live ones: a condition on the
      program's own actions, whatever PC/SC answers to the ones it refuses. */
  predicate DestroysOnlyTheLast(guards: nat, actions: seq<Action>)
    decreases |actions|
  {
    if actions == [] then true
    else
      match actions[0]
      case MakeGuard(true) => DestroysOnlyTheLast(guards + 1, actions[1..])
      case DestroyGuard(_) => guards == 1 && DestroysOnlyTheLast(0, actions[1..])
      case _ => DestroysOnlyTheLast(guards, actions[1..])
  }

  /** At every point of the run the flag is up iff a guard lives. */
  ghost predicate FlagIsExact<S(!new)>(card: Card<S>, x: Session<S>, actions: seq<Action>)
    requires EndsChains(card) && Run(card, x, actions).Some?
    decreases |actions|
  {
    && (x.inProgress <==> x.guards > 0)
    && (actions != [] ==> FlagIsExact(card, Do(card, x, actions[0]), actions[1..]))
  }

  /** When the flag can be trusted: over a whole run it is up exactly while a guard lives iff no
      guard is destroyed while another lives. */
  lemma {:induction false} FlagIsExactIff<S(!new)>(card: Card<S>, x: Session<S>, actions: seq<Action>)
    requires EndsChains(card) && Safe(x) && Run(card, x, actions).Some?
    requires x.inProgress <==> x.guards > 0
    ensures FlagIsExact(card, x, actions) <==> DestroysOnlyTheLast(x.guards, actions)
    decreases |actions|
  {
    hide Safe, Do;
    if actions != [] {
      var y := Do(card, x, actions[0]);
      ActionIsSafe(card, x, actions[0]);
      if y.inProgress <==> y.guards > 0 {
        FlagIsExactIff(card, y, actions[1..]);
      }
    }
  }
}
