/** Command and response APDUs and their byte forms
    (`CommandApdu`, `ResponseApdu` in pcsc-cpp.hpp). */
module Apdu {
  import opened Bytes

  const OK: Byte := 0x90
  const MORE_DATA_AVAILABLE: Byte := 0x61
  const VERIFICATION_FAILED: Byte := 0x63
  const VERIFICATION_CANCELLED: Byte := 0x64
  const WRONG_LENGTH: Byte := 0x67
  const COMMAND_NOT_ALLOWED: Byte := 0x69
  const WRONG_PARAMETERS: Byte := 0x6a
  const WRONG_LE_LENGTH: Byte := 0x6c

  const MAX_RESPONSE_DATA := 256
  const MAX_RESPONSE := MAX_RESPONSE_DATA + 2
  const MAX_COMMAND_DATA := 255
  const LE_UNUSED: UnsignedShort := 0xffff

  type UnsignedShort = x: int | 0 <= x < 0x1_0000

  datatype ResponseApdu = ResponseApdu(sw1: Byte, sw2: Byte, data: Bytes) {

    static function FromBytes(bytes: Bytes): Result<ResponseApdu> {
      if |bytes| < 2 then Err(InvalidArgument)
      else Ok(ResponseApdu(bytes[|bytes| - 2], bytes[|bytes| - 1], bytes[..|bytes| - 2]))
    }

    function Encoding(): Bytes {
      data + [sw1, sw2]
    }

    predicate IsOK() {
      sw1 == OK && sw2 == 0x00
    }

    method ToBytes() returns (bytes: Bytes)
      ensures bytes == Encoding() == data + [sw1, sw2]
    {
      bytes := data;
      bytes := bytes + [sw1];
      bytes := bytes + [sw2];
    }
  }

  datatype CommandApdu = CommandApdu(
    cla: Byte, ins: Byte, p1: Byte, p2: Byte, data: Bytes := [], le: UnsignedShort := LE_UNUSED)
  {
    predicate IsLeSet() {
      le != LE_UNUSED
    }

    static function FromBytes(bytes: Bytes, useLe: bool): Result<CommandApdu> {
      if |bytes| < 4 then Err(InvalidArgument)
      else
        var header := CommandApdu(bytes[0], bytes[1], bytes[2], bytes[3]);
        if |bytes| == 4 then Ok(header)
        else if |bytes| == 5 then
          if useLe then Ok(header.(le := bytes[4])) else Err(InvalidArgument)
        else if |bytes| == 6 && useLe then Err(InvalidArgument)
        else if useLe then
          Ok(header.(data := bytes[5..|bytes| - 1], le := bytes[|bytes| - 1]))
        else Ok(header.(data := bytes[5..]))
    }

    /** What `toBytes` returns or throws. */
    function Encoding(): Result<Bytes> {
      if |data| > MAX_COMMAND_DATA || (IsLeSet() && le > MAX_RESPONSE_DATA) then Err(InvalidArgument)
      else Ok([cla, ins, p1, p2] + LcField(data) + if IsLeSet() then [le % 256] else [])
    }

    method ToBytes() returns (r: Result<Bytes>)
      ensures r == Encoding()
    {
      if |data| > MAX_COMMAND_DATA {
        return Err(InvalidArgument);
      }
      var bytes := [cla, ins, p1, p2];
      if data != [] {
        bytes := bytes + [|data| % 256];
        bytes := bytes + data;
      }
      if IsLeSet() {
        if le > MAX_RESPONSE_DATA {
          return Err(InvalidArgument);
        }
        bytes := bytes + [le % 256];
      }
      assert bytes == Encoding().value;
      return Ok(bytes);
    }

    /** The command as the card can tell it: Le 256 is sent as 0. */
    function OnTheWire(): CommandApdu {
      if IsLeSet() then this.(le := le % 256) else this
    }
  }

  /** Lc and the data after it, or nothing when there is no data. */
  function LcField(data: Bytes): Bytes
    requires |data| <= MAX_COMMAND_DATA
  {
    if data == [] then [] else [|data|] + data
  }

  /** Which commands have a byte form, and what it is: header, then Lc and the data if there is any,
      then Le unless it is the value that stands for none, 256 being sent as 0. */
  lemma EncodesIff(c: CommandApdu)
    ensures c.Encoding().Ok? <==> |c.data| <= 255 && (c.le == 0xffff || c.le <= 256)
    ensures c.Encoding().Err? ==> c.Encoding() == Err(InvalidArgument)
    ensures c.Encoding().Ok? ==>
      var bytes := c.Encoding().value;
      && |bytes| == 4 + (if |c.data| == 0 then 0 else 1 + |c.data|) + (if c.le == 0xffff then 0 else 1)
      && bytes[0] == c.cla && bytes[1] == c.ins && bytes[2] == c.p1 && bytes[3] == c.p2
      && (|c.data| > 0 ==> bytes[4] == |c.data| && bytes[5..5 + |c.data|] == c.data)
      && (c.le != 0xffff ==> bytes[|bytes| - 1] == if c.le == 256 then 0 else c.le)
  {
    if c.Encoding().Ok? && c.data != [] {
      var last := if c.IsLeSet() then [c.le % 256] else [];
      assert c.Encoding().value == [c.cla, c.ins, c.p1, c.p2, |c.data|] + c.data + last;
    }
  }

  /** Decoding an encoded command gives the command back, up to Le 256 being sent as 0. */
  lemma CommandRoundTrip(c: CommandApdu)
    requires |c.data| <= 255 && (c.le == 0xffff || c.le <= 256)
    ensures c.Encoding().Ok?
    ensures CommandApdu.FromBytes(c.Encoding().value, c.le != 0xffff)
         == Ok(if c.le == 256 then c.(le := 0) else c) == Ok(c.OnTheWire())
  {
    var bytes := c.Encoding().value;
    if c.data == [] {
      assert |bytes| <= 5;
    } else {
      assert bytes == [c.cla, c.ins, c.p1, c.p2, |c.data|] + c.data
                      + if c.IsLeSet() then [c.le % 256] else [];
      if c.IsLeSet() {
        assert bytes[5..|bytes| - 1] == c.data;
      } else {
        assert bytes[5..] == c.data;
      }
    }
  }

  /** Without knowing whether Le is set, two commands with one encoding are one command on the
      wire: Lc and the total length tell the four short cases of ISO/IEC 7816-3:2006,
      section 12.1.3, apart. */
  lemma EncodingInjective(c: CommandApdu, d: CommandApdu)
    requires c.Encoding().Ok? && d.Encoding().Ok?
    ensures c.Encoding() == d.Encoding() <==> c.OnTheWire() == d.OnTheWire()
  {
    if c.Encoding() == d.Encoding() {
      SameCase(c, d);
      EncodesIff(c);
      EncodesIff(d);
      CommandRoundTrip(c);
      CommandRoundTrip(d);
    }
  }

  lemma SameCase(c: CommandApdu, d: CommandApdu)
    requires c.Encoding().Ok? && c.Encoding() == d.Encoding()
    ensures c.IsLeSet() == d.IsLeSet()
  {
    var bytes := c.Encoding().value;
    assert c.data != [] ==> bytes[4] == |c.data|;
    assert d.data != [] ==> bytes[4] == |d.data|;
    assert |bytes| == 4 + |LcField(c.data)| + if c.IsLeSet() then 1 else 0;
  }

  /** Which byte strings decode, and when encoding the decoded command gives them back:
      exactly when the fifth byte is the length of the data that follows it. */
  lemma BytesRoundTrip(bytes: Bytes, useLe: bool)
    ensures CommandApdu.FromBytes(bytes, useLe).Ok?
       <==> |bytes| == 4 || |bytes| > 6 || |bytes| == (if useLe then 5 else 6)
    ensures CommandApdu.FromBytes(bytes, useLe).Ok? ==>
      var c := CommandApdu.FromBytes(bytes, useLe).value;
      c.Encoding() == Ok(bytes) <==> (|bytes| > 5 ==> bytes[4] == |c.data|)
  {
    var decoded := CommandApdu.FromBytes(bytes, useLe);
    if decoded.Ok? {
      var c := decoded.value;
      if |bytes| <= 5 {
        assert c.Encoding().value == bytes;
      } else if bytes[4] == |c.data| {
        assert LcField(c.data) == bytes[4..5 + |c.data|];
        assert c.Encoding().value == bytes;
      } else if c.Encoding().Ok? {
        assert c.Encoding().value[4] == |c.data|;
      }
    }
  }

  /** What is decoded: the first four bytes are the header whatever follows; then comes Le alone, or the
      data from the sixth byte on, without the last byte if that is Le. The fifth byte is not
      looked at. */
  lemma DecodedFields(bytes: Bytes, useLe: bool)
    ensures var decoded := CommandApdu.FromBytes(bytes, useLe);
      if |bytes| == 4 || |bytes| > 6 || |bytes| == (if useLe then 5 else 6) then
        && decoded.Ok?
        && var c := decoded.value;
           && c.cla == bytes[0] && c.ins == bytes[1] && c.p1 == bytes[2] && c.p2 == bytes[3]
           && (if |bytes| <= 5 then c.data == []
               else c.data == if useLe then bytes[5..|bytes| - 1] else bytes[5..])
           && c.le == if |bytes| > 4 && useLe then bytes[|bytes| - 1] else 0xffff
      else decoded == Err(InvalidArgument)
  {
  }

  /** A response is a success iff its status word is 9000. */
  lemma IsOKIff(r: ResponseApdu)
    ensures r.IsOK() <==> r.Encoding()[|r.data|..] == [0x90, 0x00]
  {
    assert r.Encoding()[|r.data|..] == [r.sw1, r.sw2];
  }

  /** A response and its bytes determine each other. */
  lemma ResponseRoundTrip(r: ResponseApdu, bytes: Bytes)
    ensures ResponseApdu.FromBytes(r.Encoding()) == Ok(r)
    ensures |bytes| < 2 ==> ResponseApdu.FromBytes(bytes) == Err(InvalidArgument)
    ensures |bytes| >= 2 <==> ResponseApdu.FromBytes(bytes).Ok?
    ensures |bytes| >= 2 ==> ResponseApdu.FromBytes(bytes).value.Encoding() == bytes
  {
  }
}
