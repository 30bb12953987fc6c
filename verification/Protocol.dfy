/** The binary message format between controller and reader: the controller's codec, which
    is Python, and the reader's, which is C++, and the proof that they are one format. */
module Protocol {
  import opened Words
  import opened Wrappers

  const MAGIC: seq<byte> := [0x48, 0x4B]
  const VERSION: byte := 1
  const HEADER_SIZE := 12
  const MAX_PAYLOAD := 1100

  datatype MessageType =
    | Execute | ReadFrame | Reset | AccessResult | Discover | StartDiscovery | ResumeDiscovery
    | Transceive | ButtonEvent | ButtonResult | FirmwareUpdateCheck | TargetEvent | ReaderStatus
    | Response | ErrorResponse

  function TypeCode(t: MessageType): byte {
    match t
    case Execute => 0x10
    case ReadFrame => 0x11
    case Reset => 0x12
    case AccessResult => 0x13
    case Discover => 0x14
    case StartDiscovery => 0x15
    case ResumeDiscovery => 0x16
    case Transceive => 0x17
    case ButtonEvent => 0x20
    case ButtonResult => 0x21
    case FirmwareUpdateCheck => 0x22
    case TargetEvent => 0x23
    case ReaderStatus => 0x24
    case Response => 0x80
    case ErrorResponse => 0x7F
  }

  function TypeOf(code: byte): (t: Option<MessageType>)
    ensures t.Some? ==> TypeCode(t.value) == code
    ensures t.None? ==> forall k: MessageType :: TypeCode(k) != code
  {
    if code == 0x10 then Some(Execute)
    else if code == 0x11 then Some(ReadFrame)
    else if code == 0x12 then Some(Reset)
    else if code == 0x13 then Some(AccessResult)
    else if code == 0x14 then Some(Discover)
    else if code == 0x15 then Some(StartDiscovery)
    else if code == 0x16 then Some(ResumeDiscovery)
    else if code == 0x17 then Some(Transceive)
    else if code == 0x20 then Some(ButtonEvent)
    else if code == 0x21 then Some(ButtonResult)
    else if code == 0x22 then Some(FirmwareUpdateCheck)
    else if code == 0x23 then Some(TargetEvent)
    else if code == 0x24 then Some(ReaderStatus)
    else if code == 0x80 then Some(Response)
    else if code == 0x7F then Some(ErrorResponse)
    else None
  }

  datatype ErrorCode =
    | BadMessage | BadVersion | UnsupportedType | Pn532Timeout | Pn532BadAck
    | Pn532FrameTooLarge | Pn532Busy | Pn532BadFrame

  function ErrorByte(e: ErrorCode): byte {
    match e
    case BadMessage => 1
    case BadVersion => 2
    case UnsupportedType => 3
    case Pn532Timeout => 4
    case Pn532BadAck => 5
    case Pn532FrameTooLarge => 6
    case Pn532Busy => 7
    case Pn532BadFrame => 8
  }

  /** What the controller takes an error byte for. */
  function ErrorFrom(value: byte): Option<ErrorCode> {
    match value
    case 1 => Some(BadMessage)
    case 2 => Some(BadVersion)
    case 3 => Some(UnsupportedType)
    case 4 => Some(Pn532Timeout)
    case 5 => Some(Pn532BadAck)
    case 6 => Some(Pn532FrameTooLarge)
    case 7 => Some(Pn532Busy)
    case 8 => Some(Pn532BadFrame)
    case _ => None
  }

  /** The controller names every error as the reader meant it. */
  lemma ErrorsAgree(e: ErrorCode, value: byte)
    ensures ErrorFrom(value) == Some(e) <==> value == ErrorByte(e)
  {
  }

  // ----- Big-endian fields -----

  function U16Bytes(x: u16): seq<byte> {
    [x / 0x100, x % 0x100]
  }

  function U32Bytes(x: u32): seq<byte> {
    U16Bytes(x / 0x1_0000) + U16Bytes(x % 0x1_0000)
  }

  function ReadU16(s: seq<byte>, at: nat): u16
    requires at + 2 <= |s|
  {
    s[at] as int * 0x100 + s[at + 1] as int
  }

  function ReadU32(s: seq<byte>, at: nat): u32
    requires at + 4 <= |s|
  {
    ReadU16(s, at) as int * 0x1_0000 + ReadU16(s, at + 2) as int
  }

  lemma U16RoundTrip(s: seq<byte>, at: nat, x: u16)
    requires at + 2 <= |s|
    ensures ReadU16(s, at) == x <==> s[at..at + 2] == U16Bytes(x)
  {
  }

  lemma U32RoundTrip(s: seq<byte>, at: nat, x: u32)
    requires at + 4 <= |s|
    ensures ReadU32(s, at) == x <==> s[at..at + 4] == U32Bytes(x)
  {
  }

  // ----- The format -----

  /** The bytes of one message. */
  function Encoding(code: byte, requestId: u32, timeoutMs: u16, payload: seq<byte>): seq<byte>
    requires |payload| <= MAX_PAYLOAD
  {
    MAGIC + [VERSION, code] + U32Bytes(requestId) + U16Bytes(timeoutMs) + U16Bytes(|payload|) + payload
  }

  /** A header whose magic, version and length fields all fit its message. */
  predicate WellFormed(data: seq<byte>) {
    && |data| >= HEADER_SIZE
    && data[..2] == MAGIC
    && data[2] == VERSION
    && ReadU16(data, 10) <= MAX_PAYLOAD
    && |data| == HEADER_SIZE + ReadU16(data, 10) as int
  }

  lemma FieldsEncoding(data: seq<byte>)
    requires WellFormed(data)
    ensures Encoding(data[3], ReadU32(data, 4), ReadU16(data, 8), data[12..]) == data
  {
    U32RoundTrip(data, 4, ReadU32(data, 4));
    U16RoundTrip(data, 8, ReadU16(data, 8));
    U16RoundTrip(data, 10, ReadU16(data, 10));
    assert data == data[..2] + [data[2], data[3]] + data[4..8] + data[8..10] + data[10..12] + data[12..];
  }

  // ----- The controller's codec -----

  /** The fields are Python integers, so an out-of-range one can be held and is refused
      only when the message is encoded. */
  datatype Message = Message(kind: MessageType, requestId: int, timeoutMs: int, payload: seq<byte>)

  datatype CodecError =
    | RequestIdRange | TimeoutRange | PayloadTooLarge | TooShort | InvalidMagic
    | UnsupportedVersion | LengthMismatch | UnknownType

  function Encode(m: Message): Result<seq<byte>, CodecError> {
    if !(0 <= m.requestId <= 0xFFFF_FFFF) then Err(RequestIdRange)
    else if !(0 <= m.timeoutMs <= 0xFFFF) then Err(TimeoutRange)
    else if |m.payload| > MAX_PAYLOAD then Err(PayloadTooLarge)
    else Ok(Encoding(TypeCode(m.kind), m.requestId, m.timeoutMs, m.payload))
  }

  function Decode(data: seq<byte>): Result<Message, CodecError> {
    if |data| < HEADER_SIZE then Err(TooShort)
    else if data[..2] != MAGIC then Err(InvalidMagic)
    else if data[2] != VERSION then Err(UnsupportedVersion)
    else if ReadU16(data, 10) > MAX_PAYLOAD then Err(PayloadTooLarge)
    else if |data| != HEADER_SIZE + ReadU16(data, 10) as int then Err(LengthMismatch)
    else match TypeOf(data[3])
      case None => Err(UnknownType)
      case Some(kind) => Ok(Message(kind, ReadU32(data, 4), ReadU16(data, 8), data[HEADER_SIZE..]))
  }

  /** What encodes, and to which bytes: `HK`, version 1, the type, the id in four bytes, the
      timeout and the payload's length in two each, most significant first, and the payload of
      up to 1100 bytes. */
  lemma EncodesTo(m: Message)
    ensures Encode(m).Ok? <==> 0 <= m.requestId < TWO_32 && 0 <= m.timeoutMs < 0x1_0000 && |m.payload| <= 1100
    ensures Encode(m).Ok? ==>
              var e := Encode(m).value;
              && |e| == 12 + |m.payload| && e[..4] == [0x48, 0x4B, 1, TypeCode(m.kind)] && e[12..] == m.payload
              && m.requestId == e[4] as int * 0x100_0000 + e[5] as int * 0x1_0000 + e[6] as int * 0x100 + e[7] as int
              && m.timeoutMs == e[8] as int * 0x100 + e[9] as int && |m.payload| == e[10] as int * 0x100 + e[11] as int
  {
    if Encode(m).Ok? {
      LayoutOf(TypeCode(m.kind), m.requestId, m.timeoutMs, m.payload);
    }
  }

  lemma LayoutOf(code: byte, requestId: u32, timeoutMs: u16, payload: seq<byte>)
    requires |payload| <= MAX_PAYLOAD
    ensures var e := Encoding(code, requestId, timeoutMs, payload);
            && |e| == 12 + |payload| && e[..4] == MAGIC + [VERSION, code] && e[4..8] == U32Bytes(requestId)
            && e[8..10] == U16Bytes(timeoutMs) && e[10..12] == U16Bytes(|payload|) && e[12..] == payload
  {
  }

  /** Decoding undoes encoding, for every message that encodes at all. */
  lemma EncodeDecode(m: Message)
    ensures Encode(m).Ok? ==> Decode(Encode(m).value) == Ok(m)
  {
  }

  /** Encoding undoes decoding: no two accepted byte strings decode to one message. */
  lemma DecodeEncode(data: seq<byte>)
    ensures Decode(data).Ok? ==> Encode(Decode(data).value) == Ok(data)
  {
    if Decode(data).Ok? {
      FieldsEncoding(data);
    }
  }

  // ----- The reader's codec -----

  /** The type stays the byte that was received: the reader casts it to its enumeration
      unchecked and rejects an unknown one only when it dispatches. */
  datatype ProtocolMessage = ProtocolMessage(code: byte, requestId: u32, timeoutMs: u16, payload: seq<byte>)

  function DecodeMessage(data: seq<byte>): Option<ProtocolMessage> {
    if |data| < HEADER_SIZE || data[0] != 0x48 || data[1] != 0x4B || data[2] != VERSION then None
    else
      var payloadLength := ReadU16(data, 10) as int;
      if payloadLength > MAX_PAYLOAD || |data| != HEADER_SIZE + payloadLength then None
      else Some(ProtocolMessage(data[3], ReadU32(data, 4), ReadU16(data, 8), data[HEADER_SIZE..]))
  }

  method WriteU16(buffer: array<byte>, at: nat, value: u16)
    requires at + 2 <= buffer.Length
    modifies buffer
    ensures buffer[..] == old(buffer[..at]) + U16Bytes(value) + old(buffer[at + 2..])
  {
    buffer[at] := value / 0x100;
    buffer[at + 1] := value % 0x100;
  }

  lemma HighDigit(x: u32)
    ensures x / 0x100_0000 == x / 0x1_0000 / 0x100
  {
  }

  lemma ThirdDigit(x: u32)
    ensures x / 0x100 % 0x100 == x % 0x1_0000 / 0x100
  {
    var high, low := x / 0x1_0000, x % 0x1_0000;
    assert x == 0x1_0000 * high + low;
    assert x / 0x100 == 0x100 * high + low / 0x100;
  }

  lemma LowDigit(x: u32)
    ensures x % 0x100 == x % 0x1_0000 % 0x100
  {
  }

  method WriteU32(buffer: array<byte>, at: nat, value: u32)
    requires at + 4 <= buffer.Length
    modifies buffer
    ensures buffer[..] == old(buffer[..at]) + U32Bytes(value) + old(buffer[at + 4..])
  {
    HighDigit(value);
    ThirdDigit(value);
    LowDigit(value);
    buffer[at] := value / 0x100_0000;
    buffer[at + 1] := value / 0x1_0000 % 0x100;
    buffer[at + 2] := value / 0x100 % 0x100;
    buffer[at + 3] := value % 0x100;
  }

  /** What the reader puts on the socket for one message. */
  method WriteProtocolMessage(buffer: array<byte>, m: ProtocolMessage) returns (length: nat)
    requires buffer.Length == HEADER_SIZE + MAX_PAYLOAD && |m.payload| <= MAX_PAYLOAD
    modifies buffer
    ensures length <= buffer.Length
    ensures buffer[..length] == Encoding(m.code, m.requestId, m.timeoutMs, m.payload)
  {
    WriteHeader(buffer, m);
    ghost var header := buffer[..HEADER_SIZE];
    for i := 0 to |m.payload|
      invariant buffer[..HEADER_SIZE + i] == header + m.payload[..i]
    {
      buffer[HEADER_SIZE + i] := m.payload[i];
      assert m.payload[..i + 1] == m.payload[..i] + [m.payload[i]];
    }
    assert m.payload[..|m.payload|] == m.payload;
    length := HEADER_SIZE + |m.payload|;
  }

  method WriteHeader(buffer: array<byte>, m: ProtocolMessage)
    requires buffer.Length == HEADER_SIZE + MAX_PAYLOAD && |m.payload| <= MAX_PAYLOAD
    modifies buffer
    ensures buffer[..HEADER_SIZE]
         == MAGIC + [VERSION, m.code] + U32Bytes(m.requestId) + U16Bytes(m.timeoutMs) + U16Bytes(|m.payload|)
  {
    buffer[0], buffer[1], buffer[2], buffer[3] := 0x48, 0x4B, VERSION, m.code;
    assert buffer[..4] == MAGIC + [VERSION, m.code];
    WriteU32(buffer, 4, m.requestId);
    assert buffer[..8] == MAGIC + [VERSION, m.code] + U32Bytes(m.requestId);
    WriteU16(buffer, 8, m.timeoutMs);
    assert buffer[..10] == MAGIC + [VERSION, m.code] + U32Bytes(m.requestId) + U16Bytes(m.timeoutMs);
    WriteU16(buffer, 10, |m.payload|);
  }

  // ----- One format -----

  /** The two decoders accept the same bytes and read the same fields, except that the
      controller also refuses a type byte it does not know. */
  lemma DecodersAgree(data: seq<byte>)
    ensures match DecodeMessage(data)
            case None => Decode(data).Err?
            case Some(w) =>
              match TypeOf(w.code)
              case None => Decode(data) == Err(UnknownType)
              case Some(kind) => Decode(data) == Ok(Message(kind, w.requestId, w.timeoutMs, w.payload))
    ensures DecodeMessage(data).Some? <==> WellFormed(data)
  {
  }

  /** A message written by one side is read by the other with every field intact, and the
      two writers produce the same bytes for it. */
  lemma OneFormat(m: Message)
    requires Encode(m).Ok?
    ensures DecodeMessage(Encode(m).value)
            == Some(ProtocolMessage(TypeCode(m.kind), m.requestId, m.timeoutMs, m.payload))
    ensures Encode(m).value == Encoding(TypeCode(m.kind), m.requestId, m.timeoutMs, m.payload)
  {
  }

  /** And in the other direction, for whatever the reader writes. */
  lemma ReaderWritesDecode(w: ProtocolMessage)
    requires |w.payload| <= MAX_PAYLOAD
    ensures var data := Encoding(w.code, w.requestId, w.timeoutMs, w.payload);
            && DecodeMessage(data) == Some(w)
            && Decode(data) == match TypeOf(w.code)
                               case None => Err(UnknownType)
                               case Some(kind) => Ok(Message(kind, w.requestId, w.timeoutMs, w.payload))
  {
  }
}
