/**
 * The i3/sway IPC message frame: the six bytes `i3-ipc`, a 32-bit payload
 * length, a 32-bit message type and the payload in UTF-8. Both `sway_ipc.py`
 * copies (sway_restore_workspace and Reminder.app) pack with `struct` format
 * `=II` and unpack with `=6sII`; `zoom_bar_d.py` (Python 2) packs with `=II`
 * but unpacks with `<6sII`, and decodes strictly (modelled as well-formed UTF-8,
 * without the encoded surrogates Python 2 lets through).
 */
module Frame {
  import opened Bytes
  import opened Wrappers
  import Utf8

  /** The `MessageType` enumeration of the IPC protocol (sway adds 100 and 101). */
  datatype MessageType =
    | Command | GetWorkspaces | Subscribe | GetOutputs | GetTree | GetMarks
    | GetBarConfig | GetVersion | GetBindingModes | GetConfig | SendTick
    | GetInputs | GetSeats
  {
    /** The number the enumeration member stands for on the wire. */
    function Code(): (n: nat)
      ensures n <= 10 || n == 100 || n == 101
    {
      match this
      case Command => 0
      case GetWorkspaces => 1
      case Subscribe => 2
      case GetOutputs => 3
      case GetTree => 4
      case GetMarks => 5
      case GetBarConfig => 6
      case GetVersion => 7
      case GetBindingModes => 8
      case GetConfig => 9
      case SendTick => 10
      case GetInputs => 100
      case GetSeats => 101
    }
  }

  /** `MessageType(n)`: the member with value `n`, None where Python raises ValueError. */
  function FromCode(n: nat): (t: Option<MessageType>)
    ensures t.Some? ==> t.value.Code() == n
  {
    if n == 0 then Some(Command)
    else if n == 1 then Some(GetWorkspaces)
    else if n == 2 then Some(Subscribe)
    else if n == 3 then Some(GetOutputs)
    else if n == 4 then Some(GetTree)
    else if n == 5 then Some(GetMarks)
    else if n == 6 then Some(GetBarConfig)
    else if n == 7 then Some(GetVersion)
    else if n == 8 then Some(GetBindingModes)
    else if n == 9 then Some(GetConfig)
    else if n == 10 then Some(SendTick)
    else if n == 100 then Some(GetInputs)
    else if n == 101 then Some(GetSeats)
    else None
  }

  /** Every member is found again from its value: the codes are distinct. */
  lemma FromCodeOfCode(t: MessageType)
    ensures FromCode(t.Code()) == Some(t)
  {
  }

  /** A value names a member exactly when it is one of the thirteen codes. */
  lemma FromCodeDefined(n: nat)
    ensures FromCode(n).Some? <==> (n <= 10 || n == 100 || n == 101)
  {
  }

  /** `MAGIC.encode('utf-8')`: the bytes of `i3-ipc`. */
  const Magic: seq<byte> := [0x69, 0x33, 0x2D, 0x69, 0x70, 0x63]

  /** `struct.calcsize('=6sII')`. */
  const HeaderSize: nat := 14

  /** The magic constant is the UTF-8 form of the text `i3-ipc`. */
  lemma MagicIsUtf8()
    ensures Utf8.Encode("i3-ipc") == Magic
    ensures HeaderSize == |Magic| + 8
  {
    var s := "i3-ipc";
    assert s[1..][1..][1..][1..][1..][1..] == [];
  }

  /** What `struct.pack` or `struct.unpack` raise on. */
  datatype FrameError =
    | LengthOverflow   // `struct.pack('=II', ...)` of a length of 2^32 or more
    | ShortHeader      // `struct.unpack('=6sII', data[:14])` of fewer than 14 bytes
    | AsciiEncode      // Python 2 `payload.encode()` of a non-ASCII payload
    | Utf8Decode       // Python 2 strict `decode('utf-8')` of ill-formed bytes

  /** The three fields of `unpack_header`: magic, payload length and message type. */
  datatype Header = Header(magic: seq<byte>, length: nat, code: nat)

  /** `pack(msg_type, payload)`. */
  function Pack(order: ByteOrder, t: MessageType, payload: string): (r: Result<seq<byte>, FrameError>)
    ensures r.Ok? <==> |Utf8.Encode(payload)| < U32Limit
    ensures r.Ok? ==> |r.value| == HeaderSize + |Utf8.Encode(payload)|
    ensures r.Ok? ==> r.value[..6] == Magic && r.value[HeaderSize..] == Utf8.Encode(payload)
    ensures r.Ok? ==> r.value[6..10] == EncodeU32(order, |Utf8.Encode(payload)|)
    ensures r.Ok? ==> r.value[10..14] == EncodeU32(order, t.Code())
  {
    var pb := Utf8.Encode(payload);
    if |pb| >= U32Limit then Err(LengthOverflow)
    else Ok(Magic + EncodeU32(order, |pb|) + EncodeU32(order, t.Code()) + pb)
  }

  /** `unpack_header(data)`: the magic is returned, never compared. */
  function UnpackHeader(order: ByteOrder, data: seq<byte>): (r: Result<Header, FrameError>)
    ensures r.Err? <==> |data| < HeaderSize
    ensures r.Ok? ==> r.value.magic == data[..6]
    ensures r.Ok? ==> r.value.length < U32Limit && r.value.code < U32Limit
  {
    if |data| < HeaderSize then Err(ShortHeader)
    else Ok(Header(data[..6], DecodeU32(order, data[6..10]), DecodeU32(order, data[10..14])))
  }

  /**
   * The bytes `data[HEADER_SIZE:HEADER_SIZE + length]` that `unpack` decodes;
   * Python's slice stops at the end of the data when the frame is short.
   */
  function PayloadBytes(data: seq<byte>, length: nat): (pb: seq<byte>)
    requires |data| >= HeaderSize
    ensures |pb| == if HeaderSize + length <= |data| then length else |data| - HeaderSize
    ensures data[..HeaderSize] + pb == data[..HeaderSize + |pb|]
  {
    if HeaderSize + length <= |data| then data[HeaderSize..HeaderSize + length]
    else data[HeaderSize..]
  }

  /** `unpack(data)`: the declared payload, decoded with U+FFFD replacement. */
  function Unpack(order: ByteOrder, data: seq<byte>): (r: Result<string, FrameError>)
    ensures r.Err? <==> |data| < HeaderSize
  {
    var h :- UnpackHeader(order, data);
    Ok(Utf8.DecodeReplace(PayloadBytes(data, h.length)))
  }

  /** The header of a packed frame reads back as the magic, the byte length and the type. */
  lemma UnpackHeaderPack(order: ByteOrder, t: MessageType, payload: string, rest: seq<byte>)
    requires Pack(order, t, payload).Ok?
    ensures UnpackHeader(order, Pack(order, t, payload).value + rest)
         == Ok(Header(Magic, |Utf8.Encode(payload)|, t.Code()))
  {
    var f := Pack(order, t, payload).value;
    var data := f + rest;
    assert data[..6] == f[..6];
    assert data[6..10] == f[6..10];
    assert data[10..14] == f[10..14];
    DecodeEncodeU32(order, |Utf8.Encode(payload)|);
    DecodeEncodeU32(order, t.Code());
  }

  /**
   * `unpack(pack(t, p)) == p` for every type and payload, and whatever follows
   * the frame in the buffer is ignored.
   */
  lemma UnpackPack(order: ByteOrder, t: MessageType, payload: string, rest: seq<byte>)
    requires Pack(order, t, payload).Ok?
    ensures Unpack(order, Pack(order, t, payload).value + rest) == Ok(payload)
  {
    var f := Pack(order, t, payload).value;
    var pb := Utf8.Encode(payload);
    UnpackHeaderPack(order, t, payload, rest);
    assert PayloadBytes(f + rest, |pb|) == pb;
    Utf8.DecodeReplaceEncode(payload);
  }

  /** `unpack` never fails on a full header: ill-formed payload bytes become U+FFFD. */
  lemma UnpackReplacesInvalid(order: ByteOrder)
    ensures Unpack(order, Magic + EncodeU32(order, 1) + EncodeU32(order, 0) + [0xFF as byte])
         == Ok([Utf8.Replacement])
  {
    var data := Magic + EncodeU32(order, 1) + EncodeU32(order, 0) + [0xFF as byte];
    assert data[6..10] == EncodeU32(order, 1);
    DecodeEncodeU32(order, 1);
    assert |data| == 15 && data[14] == 0xFF;
    assert PayloadBytes(data, 1) == [0xFF as byte];
    assert !Utf8.StartsWellFormed([0xFF as byte]);
    assert Utf8.DecodeReplace([0xFF as byte][1..]) == [];
    assert Utf8.DecodeReplace([0xFF as byte]) == [Utf8.Replacement];
    assert UnpackHeader(order, data).value.length == 1;
  }

  /** `unpack` reads only the header and the declared payload: bytes after them do not matter. */
  lemma UnpackIgnoresTrailing(order: ByteOrder, data: seq<byte>, rest: seq<byte>)
    requires UnpackHeader(order, data).Ok?
    requires |data| >= HeaderSize + UnpackHeader(order, data).value.length
    ensures Unpack(order, data + rest) == Unpack(order, data)
  {
    var d := data + rest;
    assert d[..6] == data[..6];
    assert d[6..10] == data[6..10];
    assert d[10..14] == data[10..14];
    var n := UnpackHeader(order, data).value.length;
    assert d[HeaderSize..HeaderSize + n] == data[HeaderSize..HeaderSize + n];
  }

  // ---------------------------------------------------------------------------
  // The Python 2 copy in zoom_bar_d.py.
  // ---------------------------------------------------------------------------

  /**
   * `_pack(msg_type, payload)` as written: Python 2's `payload.encode()` uses the
   * ASCII codec, so any non-ASCII payload raises UnicodeEncodeError.
   */
  function Py2Pack(order: ByteOrder, code: nat, payload: string): (r: Result<seq<byte>, FrameError>)
    requires code < U32Limit
    ensures r.Ok? <==> Utf8.IsAscii(payload) && |payload| < U32Limit
    ensures !Utf8.IsAscii(payload) ==> r == Err(AsciiEncode)
    ensures r.Ok? ==> |r.value| == HeaderSize + |payload|
  {
    if !Utf8.IsAscii(payload) then Err(AsciiEncode)
    else
      Utf8.EncodeAscii(payload);
      var pb := Utf8.Encode(payload);
      if |pb| >= U32Limit then Err(LengthOverflow)
      else Ok(Magic + EncodeU32(order, |pb|) + EncodeU32(order, code) + pb)
  }

  /**
   * `_unpack(data)`: `_unpack_header` is always little-endian (`<6sII`) and the
   * declared payload is decoded as well-formed UTF-8 (encoded surrogates, which
   * Python 2 accepts, are refused), so a result is exactly what re-encodes to the
   * payload bytes.
   */
  function Py2Unpack(data: seq<byte>): (r: Result<string, FrameError>)
    ensures |data| < HeaderSize ==> r == Err(ShortHeader)
    ensures r.Ok? ==> Utf8.Encode(r.value) == PayloadBytes(data, UnpackHeader(Little, data).value.length)
  {
    var h :- UnpackHeader(Little, data);
    match Utf8.DecodeStrict(PayloadBytes(data, h.length))
    case None => Err(Utf8Decode)
    case Some(s) =>
      Utf8.EncodeDecodeStrict(PayloadBytes(data, h.length));
      Ok(s)
  }

  /**
   * On a little-endian host `_unpack(_pack(t, p)) == p` for every ASCII payload,
   * whatever follows the frame.
   */
  lemma Py2UnpackPack(code: nat, payload: string, rest: seq<byte>)
    requires code < U32Limit
    requires Py2Pack(Little, code, payload).Ok?
    ensures Py2Unpack(Py2Pack(Little, code, payload).value + rest) == Ok(payload)
  {
    Utf8.EncodeAscii(payload);
    var pb := Utf8.Encode(payload);
    var data := Py2Pack(Little, code, payload).value + rest;
    assert data[6..10] == EncodeU32(Little, |pb|);
    DecodeEncodeU32(Little, |pb|);
    assert PayloadBytes(data, |pb|) == pb;
    Utf8.DecodeStrictEncode(payload);
  }

  /**
   * The strict Python 2 decoder also reads back frames packed with UTF-8, which
   * is what `_pack` evidently intends: with the payload encoded as UTF-8, every
   * payload survives the round trip.
   */
  lemma Py2UnpackUtf8Pack(t: MessageType, payload: string, rest: seq<byte>)
    requires Pack(Little, t, payload).Ok?
    ensures Py2Unpack(Pack(Little, t, payload).value + rest) == Ok(payload)
  {
    UnpackHeaderPack(Little, t, payload, rest);
    var pb := Utf8.Encode(payload);
    assert PayloadBytes(Pack(Little, t, payload).value + rest, |pb|) == pb;
    Utf8.DecodeStrictEncode(payload);
  }

  /** A workspace named `é` cannot be sent by `_pack`, while `pack` sends it. */
  lemma Py2PackRejectsNonAscii()
    ensures Py2Pack(Little, 0, "é") == Err(AsciiEncode)
    ensures Pack(Little, Command, "é") == Ok(Magic + [2, 0, 0, 0] + [0, 0, 0, 0] + [0xC3, 0xA9])
  {
    assert "é"[0] as int == 0xE9;
    assert Utf8.Encode("é") == [0xC3, 0xA9];
  }
}
