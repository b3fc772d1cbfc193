/**
 * Reading frames from the IPC socket, and the requests the applets send.
 *
 * The socket is a `Peer`: the bytes the window manager has written and will
 * write (`stream`), and how many bytes each successive `recv` call is granted
 * by the kernel (`grants`). `recv(n)` returns between one and `n` bytes while
 * data remains, and `b''` once the stream is exhausted (end of file).
 */
module Transport {
  import opened Bytes
  import opened Wrappers
  import opened Frame
  import Utf8

  datatype Peer = Peer(stream: seq<byte>, grants: seq<nat>)

  function Min(a: nat, b: nat): nat
  {
    if a <= b then a else b
  }

  /** `sock.recv(n)`: the chunk received and the socket afterwards. */
  function Recv(p: Peer, n: nat): (r: (seq<byte>, Peer))
    ensures r.0 + r.1.stream == p.stream
    ensures |r.0| <= n
    ensures n > 0 && |p.stream| > 0 ==> |r.0| > 0
    ensures |r.1.grants| == if |p.grants| > 0 then |p.grants| - 1 else 0
  {
    var grant := if |p.grants| > 0 && p.grants[0] > 0 then p.grants[0] else |p.stream|;
    var k := Min(n, Min(grant, |p.stream|));
    assert p.stream[..k] + p.stream[k..] == p.stream;
    (p.stream[..k], Peer(p.stream[k..], if |p.grants| > 0 then p.grants[1..] else []))
  }

  /** Why a read does not produce a message. */
  datatype ReadError =
    | ShortRead   // the header could not be unpacked from the first chunk
    | Hangs       // the source keeps calling `recv` on a closed socket forever
    | Eof         // the corrected reader: the socket closed inside a frame
    | Decode      // strict UTF-8 decoding failed (Python 2)

  /**
   * The loop `while len(data) < msg_size: data += sock.recv(ask)`. Once the
   * stream is exhausted `recv` keeps returning `b''` and the loop never ends.
   */
  function FillAsWritten(p: Peer, data: seq<byte>, size: nat, ask: nat): (r: Result<(seq<byte>, Peer), ReadError>)
    requires ask > 0 || |data| >= size
    ensures r.Err? <==> |data| + |p.stream| < size
    ensures r.Err? ==> r.error == Hangs
    ensures r.Ok? ==> r.value.0 + r.value.1.stream == data + p.stream
    ensures r.Ok? ==> |r.value.0| >= size
    decreases |p.stream|
  {
    if |data| >= size then Ok((data, p))
    else if |p.stream| == 0 then Err(Hangs)
    else
      var (chunk, p') := Recv(p, ask);
      assert data + chunk + p'.stream == data + p.stream;
      FillAsWritten(p', data + chunk, size, ask)
  }

  /**
   * `read(sock)` of sway_ipc.py as written, up to `json.loads`: the decoded payload
   * and the socket after the call.
   */
  function ReadAsWritten(order: ByteOrder, p: Peer): (r: Result<(string, Peer), ReadError>)
    ensures r.Ok? ==> |p.stream| >= HeaderSize
                      && |p.stream| >= HeaderSize + UnpackHeader(order, p.stream).value.length
    ensures r.Ok? ==> Ok(r.value.0) == Unpack(order, p.stream)
    ensures r.Ok? ==> |r.value.1.stream| <= |p.stream| - HeaderSize - UnpackHeader(order, p.stream).value.length
                      && r.value.1.stream == p.stream[|p.stream| - |r.value.1.stream|..]
  {
    var (first, p1) := Recv(p, HeaderSize);
    if |first| < HeaderSize then Err(ShortRead)
    else
      var h := UnpackHeader(order, first).value;
      var size := HeaderSize + h.length;
      match FillAsWritten(p1, first, size, h.length)
      case Err(e) => Err(e)
      case Ok((data, p2)) =>
        Prefix(first, p1.stream, p.stream);
        Prefix(data, p2.stream, p.stream);
        SameHeader(order, first, p.stream);
        SameHeader(order, data, p.stream);
        assert PayloadBytes(p.stream, h.length) == data[HeaderSize..size];
        Ok((Utf8.DecodeReplace(data[HeaderSize..size]), p2))
  }

  /** A buffer carries the header of any longer buffer it begins. */
  lemma SameHeader(order: ByteOrder, a: seq<byte>, b: seq<byte>)
    requires HeaderSize <= |a| <= |b| && a == b[..|a|]
    ensures UnpackHeader(order, a) == UnpackHeader(order, b)
  {
    assert a[..6] == b[..6] && a[6..10] == b[6..10] && a[10..14] == b[10..14];
  }

  /** Splitting a stream into a part read and a part left. */
  lemma Prefix(data: seq<byte>, rest: seq<byte>, s: seq<byte>)
    requires data + rest == s
    ensures data == s[..|data|] && rest == s[|data|..]
  {
  }

  /**
   * The corrected loop: ask for exactly the bytes still missing, so that no byte
   * of the next frame is consumed, and stop at end of file.
   */
  function FillExact(p: Peer, data: seq<byte>, size: nat): (r: Result<(seq<byte>, Peer), ReadError>)
    ensures r.Err? <==> |data| + |p.stream| < size
    ensures r.Err? ==> r.error == Eof
    ensures r.Ok? ==> r.value.0 + r.value.1.stream == data + p.stream
    ensures r.Ok? && |data| <= size ==> |r.value.0| == size
    decreases |p.stream|
  {
    if |data| >= size then Ok((data, p))
    else if |p.stream| == 0 then Err(Eof)
    else
      var (chunk, p') := Recv(p, size - |data|);
      assert data + chunk + p'.stream == data + p.stream;
      FillExact(p', data + chunk, size)
  }

  /** A message as read off the socket: its type code and decoded payload. */
  datatype Message = Message(code: nat, payload: string)

  /** The corrected `read`: one whole frame, nothing more. */
  function ReadFrame(order: ByteOrder, p: Peer): (r: Result<(Message, Peer), ReadError>)
    ensures r.Err? <==> (|p.stream| < HeaderSize
                         || |p.stream| < HeaderSize + UnpackHeader(order, p.stream).value.length)
  {
    match FillExact(p, [], HeaderSize)
    case Err(e) => Err(e)
    case Ok((hdr, p1)) =>
      var h := UnpackHeader(order, hdr).value;
      var size := HeaderSize + h.length;
      Prefix(hdr, p1.stream, p.stream);
      SameHeader(order, hdr, p.stream);
      match FillExact(p1, hdr, size)
      case Err(e) => Err(e)
      case Ok((data, p2)) =>
        Ok((Message(h.code, Utf8.DecodeReplace(data[HeaderSize..])), p2))
  }

  /**
   * The corrected reader takes exactly one frame off the stream, whatever sizes
   * `recv` returns, and leaves the following bytes in place.
   */
  lemma ReadFrameAfterPack(order: ByteOrder, t: MessageType, payload: string, rest: seq<byte>, grants: seq<nat>)
    requires Pack(order, t, payload).Ok?
    ensures ReadFrame(order, Peer(Pack(order, t, payload).value + rest, grants)).Ok?
    ensures ReadFrame(order, Peer(Pack(order, t, payload).value + rest, grants)).value.0
         == Message(t.Code(), payload)
    ensures ReadFrame(order, Peer(Pack(order, t, payload).value + rest, grants)).value.1.stream == rest
  {
    var f := Pack(order, t, payload).value;
    var s := f + rest;
    UnpackHeaderPack(order, t, payload, rest);
    var pb := Utf8.Encode(payload);
    assert s[HeaderSize..HeaderSize + |pb|] == pb && s[HeaderSize + |pb|..] == rest;
    ReadFrameShape(order, Peer(s, grants));
    Utf8.DecodeReplaceEncode(payload);
  }

  /** The message and the bytes left behind depend on the stream only, never on the chunking. */
  lemma ReadFrameChunkingIndependent(order: ByteOrder, s: seq<byte>, g1: seq<nat>, g2: seq<nat>)
    ensures ReadFrame(order, Peer(s, g1)).Ok? == ReadFrame(order, Peer(s, g2)).Ok?
    ensures ReadFrame(order, Peer(s, g1)).Ok? ==>
              ReadFrame(order, Peer(s, g1)).value.0 == ReadFrame(order, Peer(s, g2)).value.0
              && ReadFrame(order, Peer(s, g1)).value.1.stream == ReadFrame(order, Peer(s, g2)).value.1.stream
  {
    var r1 := ReadFrame(order, Peer(s, g1));
    var r2 := ReadFrame(order, Peer(s, g2));
    if r1.Ok? {
      ReadFrameShape(order, Peer(s, g1));
      ReadFrameShape(order, Peer(s, g2));
    }
  }

  /** What a successful corrected read returns, stated on the stream alone. */
  lemma ReadFrameShape(order: ByteOrder, p: Peer)
    requires ReadFrame(order, p).Ok?
    ensures var h := UnpackHeader(order, p.stream).value;
            && ReadFrame(order, p).value.0
               == Message(h.code, Utf8.DecodeReplace(p.stream[HeaderSize..HeaderSize + h.length]))
            && ReadFrame(order, p).value.1.stream == p.stream[HeaderSize + h.length..]
  {
    match FillExact(p, [], HeaderSize)
    case Ok((hdr, p1)) =>
      Prefix(hdr, p1.stream, p.stream);
      SameHeader(order, hdr, p.stream);
      var h := UnpackHeader(order, hdr).value;
      match FillExact(p1, hdr, HeaderSize + h.length)
      case Ok((data, p2)) =>
        Prefix(data, p2.stream, p.stream);
  }

  /** The payload `read` returns, when it returns, is the one `unpack` sees in the stream. */
  lemma ReadAsWrittenAfterPack(order: ByteOrder, t: MessageType, payload: string, rest: seq<byte>, grants: seq<nat>)
    requires Pack(order, t, payload).Ok?
    ensures ReadAsWritten(order, Peer(Pack(order, t, payload).value + rest, grants)).Ok? ==>
              ReadAsWritten(order, Peer(Pack(order, t, payload).value + rest, grants)).value.0 == payload
  {
    UnpackPack(order, t, payload, rest);
  }

  /** Finding: a first `recv(14)` that returns fewer bytes makes `unpack_header` raise. */
  lemma ReadAsWrittenShortFirstChunk()
    ensures ReadAsWritten(Little, Peer(Pack(Little, Command, "").value, [7])) == Err(ShortRead)
    ensures ReadFrame(Little, Peer(Pack(Little, Command, "").value, [7])).Ok?
  {
    assert Utf8.Encode("") == [];
    var f := Pack(Little, Command, "").value;
    assert |f| == 14;
    ReadFrameAfterPack(Little, Command, "", [], [7]);
    assert f + [] == f;
  }

  /** The frame `pack(COMMAND, 'abcd')` on a little-endian host, byte by byte. */
  lemma PackAbcd()
    ensures Pack(Little, Command, "abcd")
         == Ok(Magic + [4, 0, 0, 0] + [0, 0, 0, 0] + [0x61, 0x62, 0x63, 0x64])
  {
    assert Utf8.Encode("abcd") == [0x61, 0x62, 0x63, 0x64];
  }

  /**
   * Finding: after a short chunk the loop asks for the whole payload length again,
   * so it swallows the first byte of the next frame, which the next read then misses.
   */
  lemma ReadAsWrittenOverConsumes(next: seq<byte>)
    requires |next| >= 4
    ensures var s := Pack(Little, Command, "abcd").value + next;
            && ReadAsWritten(Little, Peer(s, [14, 1])) == Ok(("abcd", Peer(next[1..], [])))
            && ReadFrame(Little, Peer(s, [14, 1])).value.1.stream == next
  {
    PackAbcd();
    var f := Pack(Little, Command, "abcd").value;
    UnpackHeaderPack(Little, Command, "abcd", next);
    UnpackPack(Little, Command, "abcd", next);
    OverConsumeSteps(f + next);
    assert (f + next)[19..] == next[1..];
    ReadFrameAfterPack(Little, Command, "abcd", next, [14, 1]);
  }

  /** The `recv` calls of `read` on a stream whose first frame declares four payload bytes. */
  lemma OverConsumeSteps(s: seq<byte>)
    requires |s| >= 19
    requires UnpackHeader(Little, s).value.length == 4
    ensures ReadAsWritten(Little, Peer(s, [14, 1])) == Ok((Utf8.DecodeReplace(s[14..18]), Peer(s[19..], [])))
  {
    SameHeader(Little, s[..14], s);
    var p1 := Peer(s[14..], [1]);
    var p2 := Peer(s[15..], []);
    var p3 := Peer(s[19..], []);
    assert Recv(Peer(s, [14, 1]), 14) == (s[..14], p1);
    assert s[14..][..1] == s[14..15] && s[14..][1..] == s[15..];
    assert Recv(p1, 4) == (s[14..15], p2);
    assert s[15..][..4] == s[15..19] && s[15..][4..] == s[19..];
    assert Recv(p2, 4) == (s[15..19], p3);
    assert s[..14] + s[14..15] == s[..15];
    assert s[..15] + s[15..19] == s[..19];
    assert FillAsWritten(p2, s[..15], 18, 4) == Ok((s[..19], p3));
    assert FillAsWritten(p1, s[..14], 18, 4) == Ok((s[..19], p3));
    assert s[..19][HeaderSize..18] == s[14..18];
  }

  /**
   * Finding: when the peer closes inside a frame, `recv` returns `b''` forever and
   * `read` never returns; the corrected reader reports end of file.
   */
  lemma ReadAsWrittenHangsAtEof()
    ensures var s := Pack(Little, Command, "ab").value[..15];
            && ReadAsWritten(Little, Peer(s, [])) == Err(Hangs)
            && ReadFrame(Little, Peer(s, [])) == Err(Eof)
  {
    var f := Pack(Little, Command, "ab").value;
    assert Utf8.Encode("ab") == [0x61, 0x62];
    var s := f[..15];
    UnpackHeaderPack(Little, Command, "ab", []);
    assert f + [] == f;
    SameHeader(Little, s[..14], f);
    SameHeader(Little, s[..14], s);
    SameHeader(Little, s, f);
  }

  // ---------------------------------------------------------------------------
  // `_ipc_recv` of zoom_bar_d.py (Python 2).
  // ---------------------------------------------------------------------------

  /**
   * `_ipc_recv(sock)`: `('', 0)` when the first `recv(14)` returns nothing,
   * otherwise the payload decoded as well-formed UTF-8 and the message type.
   */
  function Py2Recv(p: Peer): (r: Result<(Message, Peer), ReadError>)
    ensures |p.stream| == 0 ==> r.Ok? && r.value.0 == Message(0, "")
    ensures r.Ok? && |p.stream| > 0 ==>
              |p.stream| >= HeaderSize
              && |p.stream| >= HeaderSize + UnpackHeader(Little, p.stream).value.length
              && r.value.0.code == UnpackHeader(Little, p.stream).value.code
              && Ok(r.value.0.payload) == Py2Unpack(p.stream)
  {
    var (first, p1) := Recv(p, HeaderSize);
    if |first| == 0 then Ok((Message(0, ""), p1))
    else if |first| < HeaderSize then Err(ShortRead)
    else
      var h := UnpackHeader(Little, first).value;
      var size := HeaderSize + h.length;
      match FillAsWritten(p1, first, size, h.length)
      case Err(e) => Err(e)
      case Ok((data, p2)) =>
        Prefix(first, p1.stream, p.stream);
        Prefix(data, p2.stream, p.stream);
        SameHeader(Little, first, p.stream);
        SameHeader(Little, data, p.stream);
        assert PayloadBytes(data, h.length) == PayloadBytes(p.stream, h.length);
        match Py2Unpack(data)
        case Err(_) => Err(Decode)
        case Ok(s) => Ok((Message(h.code, s), p2))
  }

  // ---------------------------------------------------------------------------
  // Connecting and the requests built on `pack`.
  // ---------------------------------------------------------------------------

  /** What `get_socket` connects to; None when it returns None without connecting. */
  datatype Connection = Connection(path: string)

  /** `get_socket()`: the path comes from `SWAYSOCK` in the environment. */
  function GetSocket(env: map<string, string>): (c: Option<Connection>)
    ensures c.None? <==> "SWAYSOCK" !in env
    ensures c.Some? ==> c.value.path == env["SWAYSOCK"]
  {
    if "SWAYSOCK" in env then Some(Connection(env["SWAYSOCK"])) else None
  }

  /** `json.dumps(['window'])`, the subscription payload both daemons send. */
  const WindowEvents: string := "[\"window\"]"

  /** A packed request announces its type and carries its payload. */
  lemma PackedRequest(order: ByteOrder, t: MessageType, payload: string)
    requires Pack(order, t, payload).Ok?
    ensures UnpackHeader(order, Pack(order, t, payload).value) == Ok(Header(Magic, |Utf8.Encode(payload)|, t.Code()))
    ensures Unpack(order, Pack(order, t, payload).value) == Ok(payload)
  {
    UnpackHeaderPack(order, t, payload, []);
    UnpackPack(order, t, payload, []);
    var f := Pack(order, t, payload).value;
    assert f + [] == f;
  }

  /** The frame `command(sock, cmd)` sends: type 0 with the command text. */
  function CommandRequest(order: ByteOrder, cmd: string): (r: Result<seq<byte>, FrameError>)
    ensures r.Ok? ==> UnpackHeader(order, r.value).Ok? && UnpackHeader(order, r.value).value.code == 0
    ensures r.Ok? ==> Unpack(order, r.value) == Ok(cmd)
  {
    var f := Pack(order, Command, cmd);
    if f.Ok? then
      PackedRequest(order, Command, cmd);
      f
    else f
  }

  /** The frame `get_workspaces(sock)` sends: type 1 with an empty payload, a bare header. */
  function GetWorkspacesRequest(order: ByteOrder): (r: seq<byte>)
    ensures |r| == HeaderSize
    ensures UnpackHeader(order, r) == Ok(Header(Magic, 0, 1))
  {
    assert Utf8.Encode("") == [];
    PackedRequest(order, GetWorkspaces, "");
    Pack(order, GetWorkspaces, "").value
  }

  /** An ASCII payload packs into a frame that reads back as it, its length being its byte count. */
  lemma PackedAscii(order: ByteOrder, t: MessageType, payload: string)
    requires Utf8.IsAscii(payload) && |payload| < U32Limit
    ensures Pack(order, t, payload).Ok?
    ensures UnpackHeader(order, Pack(order, t, payload).value) == Ok(Header(Magic, |payload|, t.Code()))
    ensures Unpack(order, Pack(order, t, payload).value) == Ok(payload)
  {
    Utf8.EncodeAscii(payload);
    PackedRequest(order, t, payload);
  }

  /** The SUBSCRIBE frame for window events. */
  function SubscribeFrame(order: ByteOrder): (f: seq<byte>)
    ensures UnpackHeader(order, f) == Ok(Header(Magic, 10, 2))
    ensures Unpack(order, f) == Ok(WindowEvents)
  {
    WindowEventsAscii();
    PackedAscii(order, Subscribe, WindowEvents);
    Pack(order, Subscribe, WindowEvents).value
  }

  lemma WindowEventsAscii()
    ensures Utf8.IsAscii(WindowEvents) && |WindowEvents| == 10 && Subscribe.Code() == 2
  {
  }

  /**
   * `subscribe_window()`: no socket, no subscription; otherwise the connection
   * and the SUBSCRIBE frame for window events.
   */
  function SubscribeWindow(order: ByteOrder, env: map<string, string>): (r: Option<(Connection, seq<byte>)>)
    ensures r.None? <==> "SWAYSOCK" !in env
    ensures r.Some? ==> UnpackHeader(order, r.value.1) == Ok(Header(Magic, 10, 2))
    ensures r.Some? ==> Unpack(order, r.value.1) == Ok(WindowEvents)
  {
    match GetSocket(env)
    case None => None
    case Some(c) => Some((c, SubscribeFrame(order)))
  }
}
