/** Bytes as the library handles them (`byte_type`, `byte_vector`), the byte
    halves of an offset, and results that stand for "returns or throws". */
module Bytes {

  type Byte = x: int | 0 <= x < 256
  type Bytes = seq<Byte>

  /** `HIBYTE` and `LOBYTE`: `(w >> 8) & 0xff` and `w & 0xff`. */
  function HiByte(w: nat): Byte {
    w / 256 % 256
  }

  function LoByte(w: nat): Byte {
    w % 256
  }

  /** `toSW`: the two status bytes as one status word. */
  function Word(hi: Byte, lo: Byte): nat {
    hi * 256 + lo
  }

  /** Splitting a word and putting the halves back loses exactly the bits above the sixteenth. */
  lemma WordOfHalves(w: nat)
    ensures HiByte(w) * 256 + LoByte(w) == w % 0x1_0000
    ensures Word(HiByte(w), LoByte(w)) == w % 0x1_0000
  {
    var high := w / 256;
    assert high == 256 * (high / 256) + high % 256;
    assert w == 0x1_0000 * (high / 256) + (256 * (high % 256) + w % 256);
  }

  /** A status word determines both of its bytes. */
  lemma WordInjective(hi: Byte, lo: Byte)
    ensures HiByte(Word(hi, lo)) == hi && LoByte(Word(hi, lo)) == lo
  {
  }

  /** What the library throws. */
  datatype Error =
    | InvalidArgument                         // std::invalid_argument
    | LogicError                              // std::logic_error
    | ScardError                              // any error code returned by PC/SC
    | BufferTooSmall                          // more bytes reported than the buffer holds
    | ErrorResponse(sw1: Byte, sw2: Byte)     // a status the transport does not let through
    | WrongLe                                 // SW1 = 6C
    | InvalidLength(size: nat)                // readBinary collected another number of bytes
    | NotASequence(tag: Byte)
    | NotATwoByteLength(indicator: Byte)
    | UnexpectedDataLength(length: nat)

  datatype Result<+T> = Ok(value: T) | Err(error: Error) {
    predicate IsFailure() {
      Err?
    }

    function PropagateFailure<U>(): Result<U>
      requires Err?
    {
      Err(error)
    }

    function Extract(): T
      requires Ok?
    {
      value
    }
  }
}
