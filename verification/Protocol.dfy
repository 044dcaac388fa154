// The device side of the wire: requests with bytes in hexadecimal
// (devsim/protocol.py).
module Protocol {
  import opened Wrappers
  import opened Bits
  import opened Buffers

  // ---------- bytes.hex() and bytes.fromhex() ----------

  const DIGITS := "0123456789abcdef"

  function HexDigit(n: nat): char
    requires n < 16
  {
    DIGITS[n]
  }

  // Either case is read, as base16 decoders may (section 8 of RFC 4648).
  function HexValue(ch: char): (n: Option<nat>)
    ensures n.Some? ==> n.value < 16
  {
    if '0' <= ch <= '9' then Some((ch - '0') as int)
    else if 'a' <= ch <= 'f' then Some((ch - 'a') as int + 10)
    else if 'A' <= ch <= 'F' then Some((ch - 'A') as int + 10)
    else None
  }

  predicate IsAsciiSpace(ch: char) {
    ch == ' ' || ch == '\t' || ch == '\n' || ch == '\r' || ch == 11 as char || ch == 12 as char
  }

  function ToHex(bs: seq<byte>): (s: string)
    ensures |s| == 2 * |bs|
  {
    if bs == [] then ""
    else [HexDigit(ToInt(bs[0]) / 16), HexDigit(ToInt(bs[0]) % 16)] + ToHex(bs[1..])
  }

  // Two digits a byte; white space between bytes is skipped; anything else is
  // an error.
  function FromHex(s: string): (bs: Option<seq<byte>>)
    decreases |s|
  {
    if s == "" then Some([])
    else if IsAsciiSpace(s[0]) then FromHex(s[1..])
    else if |s| < 2 then None
    else
      var high := HexValue(s[0]);
      var low := HexValue(s[1]);
      if high.None? || low.None? then None
      else
        var rest := FromHex(s[2..]);
        if rest.None? then None else Some([OfInt(16 * high.value + low.value)] + rest.value)
  }

  lemma HexDigitRoundTrip(n: nat)
    requires n < 16
    ensures HexValue(HexDigit(n)) == Some(n) && !IsAsciiSpace(HexDigit(n))
  {
    if n == 0 {} else if n == 1 {} else if n == 2 {} else if n == 3 {} else if n == 4 {} else if n == 5 {}
    else if n == 6 {} else if n == 7 {} else if n == 8 {} else if n == 9 {} else if n == 10 {}
    else if n == 11 {} else if n == 12 {} else if n == 13 {} else if n == 14 {} else {}
  }

  lemma HexPair(b: byte)
    ensures var high, low := HexDigit(ToInt(b) / 16), HexDigit(ToInt(b) % 16);
            && !IsAsciiSpace(high)
            && HexValue(high).Some? && HexValue(low).Some?
            && OfInt(16 * HexValue(high).value + HexValue(low).value) == b
  {
    hide ToInt, OfInt, HexValue, HexDigit;
    var u := ToInt(b);
    HexDigitRoundTrip(u / 16);
    HexDigitRoundTrip(u % 16);
    OfToInt(b);
    assert 16 * (u / 16) + u % 16 == u;
  }

  lemma {:induction false} HexRoundTrip(bs: seq<byte>)
    ensures FromHex(ToHex(bs)) == Some(bs)
  {
    hide ToInt, OfInt, HexValue, HexDigit, IsAsciiSpace;
    if bs != [] {
      HexPair(bs[0]);
      HexRoundTrip(bs[1..]);
      assert ToHex(bs)[2..] == ToHex(bs[1..]);
      assert bs == [bs[0]] + bs[1..];
    }
  }

  // Read are the decimal digits and the first six letters, in either case.
  lemma HexValueExactly(ch: char, n: nat)
    ensures HexValue(ch) == Some(n) <==>
            || (n < 10 && ch as int == '0' as int + n)
            || (10 <= n < 16 && (ch as int == 'a' as int + n - 10 || ch as int == 'A' as int + n - 10))
  {
  }

  // Each byte is two digits, the high half first, in lower case.
  lemma {:induction false} HexDigits(bs: seq<byte>, k: nat)
    requires k < |bs|
    ensures var high, low := ToInt(bs[k]) / 16, ToInt(bs[k]) % 16;
            && ToHex(bs)[2 * k] as int == (if high < 10 then '0' as int + high else 'a' as int + high - 10)
            && ToHex(bs)[2 * k + 1] as int == (if low < 10 then '0' as int + low else 'a' as int + low - 10)
  {
    hide ToInt;
    if k > 0 {
      HexDigits(bs[1..], k - 1);
      assert ToHex(bs)[2 * k] == ToHex(bs[1..])[2 * (k - 1)];
      assert ToHex(bs)[2 * k + 1] == ToHex(bs[1..])[2 * (k - 1) + 1];
    } else {
      DigitChar(ToInt(bs[0]) / 16);
      DigitChar(ToInt(bs[0]) % 16);
    }
  }

  lemma DigitChar(n: nat)
    requires n < 16
    ensures HexDigit(n) as int == if n < 10 then '0' as int + n else 'a' as int + n - 10
  {
    if n == 0 {} else if n == 1 {} else if n == 2 {} else if n == 3 {} else if n == 4 {} else if n == 5 {}
    else if n == 6 {} else if n == 7 {} else if n == 8 {} else if n == 9 {} else if n == 10 {}
    else if n == 11 {} else if n == 12 {} else if n == 13 {} else if n == 14 {} else {}
  }

  // Digits are read byte by byte ...
  lemma {:induction false} HexPrefix(bs: seq<byte>, rest: string)
    ensures FromHex(ToHex(bs) + rest) ==
            if FromHex(rest).None? then None else Some(bs + FromHex(rest).value)
    decreases |bs|
  {
    hide FromHex, ToHex;
    HexParts(bs);
    if bs == [] {
      assert ToHex(bs) + rest == rest;
      if FromHex(rest).Some? {
        assert bs + FromHex(rest).value == FromHex(rest).value;
      }
    } else {
      HexPrefix(bs[1..], rest);
      assert ToHex(bs) + rest == ToHex([bs[0]]) + (ToHex(bs[1..]) + rest);
      HexOne(bs[0], ToHex(bs[1..]) + rest);
      if FromHex(rest).Some? {
        assert [bs[0]] + (bs[1..] + FromHex(rest).value) == bs + FromHex(rest).value;
      }
    }
  }

  lemma HexParts(bs: seq<byte>)
    ensures ToHex([]) == ""
    ensures bs != [] ==> ToHex(bs) == ToHex([bs[0]]) + ToHex(bs[1..])
  {
    if bs != [] {
      assert [bs[0]][1..] == [];
    }
  }

  lemma HexOne(b: byte, rest: string)
    ensures FromHex(ToHex([b]) + rest) ==
            if FromHex(rest).None? then None else Some([b] + FromHex(rest).value)
  {
    hide ToInt, OfInt, HexValue, HexDigit, IsAsciiSpace;
    HexPair(b);
    var s := ToHex([b]) + rest;
    assert [b][1..] == [];
    assert s[2..] == rest;
  }

  // ... and between bytes there may be white space.
  lemma HexSpace(bs: seq<byte>, space: char, rest: string)
    requires IsAsciiSpace(space)
    ensures FromHex(ToHex(bs) + [space] + rest) == FromHex(ToHex(bs) + rest)
  {
    HexPrefix(bs, [space] + rest);
    HexPrefix(bs, rest);
    assert ToHex(bs) + [space] + rest == ToHex(bs) + ([space] + rest);
    assert ([space] + rest)[1..] == rest;
  }

  // ---------- messages ----------

  datatype Message =
    | ReadBytesMessage(handle: int, index: nat, size: nat)
    | WriteBytesMessage(handle: int, index: nat, hex: string)
    | ReadBitMessage(handle: int, byteIndex: nat, bitIndex: nat)
    | WriteBitMessage(handle: int, byteIndex: nat, bitIndex: nat, value: bool)
    | OtherMessage(op: string, handle: int)

  datatype Response = DataResponse(hex: string) | ValueResponse(value: bool) | OkResponse

  datatype ProtocolError = UnknownOperation | BadHex | BadBit

  // What a message asks for: None for an unknown operation or malformed hex.
  function Asked(message: Message): Option<Access> {
    match message
    case ReadBytesMessage(_, i, n) => Some(Access.ReadBytes(i, n))
    case WriteBytesMessage(_, i, hex) =>
      var data := FromHex(hex);
      if data.Some? then Some(Access.WriteBytes(i, data.value)) else None
    case ReadBitMessage(_, i, k) => Some(Access.ReadBit(i, k))
    case WriteBitMessage(_, i, k, v) => Some(Access.WriteBit(i, k, v))
    case OtherMessage(_, _) => None
  }

  function Responding(reply: Reply): Response
    requires reply != Raised
  {
    match reply
    case Data(bs) => DataResponse(ToHex(bs))
    case Bit(v) => ValueResponse(v)
    case Done => OkResponse
  }

  // What a device makes of a message: an error, or the response.
  function Outcome(b: seq<byte>, message: Message): Result<Response, ProtocolError> {
    if message.OtherMessage? then Err(UnknownOperation)
    else if Asked(message).None? then Err(BadHex)
    else
      var reply := Answer(b, Asked(message).value);
      if reply == Raised then Err(BadBit) else Ok(Responding(reply))
  }

  // What each message does to the memory and how it is answered.
  ghost predicate Carried(message: Message, r: Result<Response, ProtocolError>, before: Memory, after: Memory) {
    var b := BufferOf(before, message.handle);
    match message
    case ReadBytesMessage(handle, index, size) =>
      && r == Ok(DataResponse(ToHex(Slice(b, index, size))))
      && after == before[handle := Extend(b, index + size)]
    case WriteBytesMessage(handle, index, hex) =>
      if FromHex(hex).None? then r == Err(BadHex) && after == before
      else r == Ok(OkResponse) && after == before[handle := PutBytes(b, index, FromHex(hex).value)]
    case ReadBitMessage(handle, byteIndex, bitIndex) =>
      && r == Ok(ValueResponse(bitIndex < 8 && BitAt(b, byteIndex, bitIndex)))
      && after == before[handle := Extend(b, byteIndex + 1)]
    case WriteBitMessage(handle, byteIndex, bitIndex, value) =>
      if bitIndex < 8 then r == Ok(OkResponse) && after == before[handle := PutBitAt(b, byteIndex, bitIndex, value)]
      else r == (if value then Err(BadBit) else Ok(OkResponse)) && after == before[handle := Extend(b, byteIndex + 1)]
    case OtherMessage(_, _) => r == Err(UnknownOperation) && after == before
  }

  // A request is carried out on the buffer it names and answered. One that is
  // not understood leaves every buffer alone; one that raises on its bit index
  // has been carried out as far as it goes.
  method Apply(io: InMemoryUnidriverIO, message: Message) returns (r: Result<Response, ProtocolError>)
    modifies io
    ensures r == Outcome(BufferOf(old(io.buffers), message.handle), message)
    ensures io.buffers ==
            if Asked(message).None? then old(io.buffers)
            else Execute(old(io.buffers), message.handle, Asked(message).value)
    ensures Carried(message, r, old(io.buffers), io.buffers)
  {
    hide FromHex, ToHex;
    match message
    case ReadBytesMessage(handle, index, size) =>
      var data := io.ReadBytes(handle, index, size);
      return Ok(DataResponse(ToHex(data)));
    case WriteBytesMessage(handle, index, hex) =>
      var data := FromHex(hex);
      if data.None? {
        return Err(BadHex);
      }
      io.WriteBytes(handle, index, data.value);
      return Ok(OkResponse);
    case ReadBitMessage(handle, byteIndex, bitIndex) =>
      var value := io.ReadBit(handle, byteIndex, bitIndex);
      return Ok(ValueResponse(value));
    case WriteBitMessage(handle, byteIndex, bitIndex, value) =>
      var ok := io.WriteBit(handle, byteIndex, bitIndex, value);
      return if ok then Ok(OkResponse) else Err(BadBit);
    case OtherMessage(_, _) =>
      return Err(UnknownOperation);
  }
}
