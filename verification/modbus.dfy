/**
 The Modbus RTU master engine of Modbus.cpp: framing, the send/receive pair
 that checks a reply against the pending request, and the connect/disconnect
 state machine over the file-level statics `gHandle`, `gAddress` and
 `gLastFunction`.

 The statics become a `Session` value that every operation takes and
 returns. The serial port is not modelled: an operation receives, as plain
 inputs, what the port's write reported (the byte count) and what its read
 produced (a failure or the bytes read), and it returns the frames it
 handed to the write, so that contracts can speak about the wire.
 */
module Modbus {
  import opened Status
  import opened Wire
  import Crc

  /** MODBUS_MAX_PAYLOAD: the longest payload a frame may carry. */
  const MaxPayload := 252
  /** MODBUS_SERVER_ID: function 0x11, Report Server ID. */
  const ServerId := 0x11
  /** MODBUS_HEADER_LEN: address and function code. */
  const HeaderLength := 2
  /** MODBUS_CRC_LEN. */
  const CrcLength := 2
  /** MODBUS_OVERHEAD: the bytes of a frame that are not payload. */
  const Overhead := HeaderLength + CrcLength
  /** MODBUS_MAX_LEN: the size of the frame buffers, and so the most one read can return. */
  const MaxLength := MaxPayload + Overhead

  /**
   The driver's state: whether `gHandle` holds an open port, the address of
   the sensor (`gAddress`) and the function of the request awaiting its
   reply, 0 when none (`gLastFunction`).
   */
  datatype Session = Session(handleValid: bool, address: Byte, lastFunction: Byte)

  /** The statics at program start: no port, address 0, nothing pending. */
  const Initial := Session(false, 0, 0)

  /** What one read of the serial port can return: at most a frame buffer's worth of bytes. */
  type Reading = s: seq<Byte> | |s| <= MaxLength witness []

  /** ReadFromSerialPort: a negative result, or the bytes read (possibly none). */
  datatype ReadResult = ReadFailed | Read(bytes: Reading)

  /** The port's side of one request and its reply: the count the write reported and what the read produced. */
  datatype Exchange = Exchange(written: int, reply: ReadResult)

  /**
   What an operation leaves behind: the new session, its result, and the
   frames it handed to the port's write, in order.
   */
  datatype Outcome<T> = Outcome(session: Session, result: Result<T>, frames: seq<seq<Byte>>)

  /** ModbusConnected. */
  predicate Connected(s: Session) {
    s.handleValid
  }

  /** The arguments ModbusSend accepts: a payload that fits and a function code in 1..127. */
  predicate ValidRequest(functionCode: Byte, payload: seq<Byte>) {
    |payload| <= MaxPayload && 1 <= functionCode <= 127
  }

  /** The RTU frame `[address, function] ++ payload ++ CRC`, the CRC over header and payload. */
  function Frame(address: Byte, functionCode: Byte, payload: seq<Byte>): (r: seq<Byte>)
    ensures |r| == |payload| + Overhead
    ensures r[0] == address && r[1] == functionCode
    ensures r[HeaderLength..|r| - CrcLength] == payload
    ensures Crc.Matches(r)
  {
    var header := [address, functionCode] + payload;
    Crc.AppendThenMatch(header);
    assert Crc.Append(header)[..|header|] == header;
    Crc.Append(header)
  }

  /** Any byte string the CRC check accepts is the frame of its own header and payload. */
  lemma MatchingIsFrame(m: seq<Byte>)
    requires |m| >= Overhead && Crc.Matches(m)
    ensures m == Frame(m[0], m[1], m[HeaderLength..|m| - CrcLength])
  {
    Crc.MatchesIffAppended(m);
    assert m[..|m| - CrcLength] == [m[0], m[1]] + m[HeaderLength..|m| - CrcLength];
  }

  /** A frame determines its address, function code and payload. */
  lemma FrameInjective(a: Byte, f: Byte, p: seq<Byte>, a': Byte, f': Byte, p': seq<Byte>)
    requires Frame(a, f, p) == Frame(a', f', p')
    ensures a == a' && f == f' && p == p'
  {
    var m := Frame(a, f, p);
    assert p == m[HeaderLength..|m| - CrcLength] == p';
  }

  /** The bytes of a read between the header and the CRC. */
  function ReplyPayload(read: ReadResult): seq<Byte>
    requires read.Read? && |read.bytes| >= Overhead
  {
    read.bytes[HeaderLength..|read.bytes| - CrcLength]
  }

  /** `read` delivered a well-formed frame from `address` for `functionCode`. */
  predicate Answers(read: ReadResult, address: Byte, functionCode: Byte) {
    read.Read? && |read.bytes| >= Overhead
    && read.bytes == Frame(address, functionCode, ReplyPayload(read))
  }

  /**
   ModbusSend: rejects a bad argument before touching anything; otherwise
   hands the frame to the port and succeeds exactly when the port reports
   writing all of it, and only then records the function as pending.
   */
  function Send(s: Session, functionCode: Byte, payload: seq<Byte>, written: int): (o: Outcome<()>)
    ensures !ValidRequest(functionCode, payload) ==> o == Outcome(s, Err(InvalidArgument), [])
    ensures ValidRequest(functionCode, payload) ==>
      o.frames == [Frame(s.address, functionCode, payload)]
      && (o.result.Ok? <==> written == |payload| + Overhead)
      && (o.result.Err? ==> o.result.error == GeneralError)
    ensures o.session == (if o.result.Ok? then s.(lastFunction := functionCode) else s)
  {
    if !ValidRequest(functionCode, payload) then
      Outcome(s, Err(InvalidArgument), [])
    else
      var frame := Frame(s.address, functionCode, payload);
      if written == |frame| then
        Outcome(s.(lastFunction := functionCode), Ok(()), [frame])
      else
        Outcome(s, Err(GeneralError), [frame])
  }

  /**
   ModbusReceive: classifies what the read produced, in the source's order:
   a failed read, fewer bytes than a minimal frame, a CRC mismatch, a frame
   from another address or for another function; otherwise the payload, and
   nothing is pending any more. No error changes the session.
   */
  function Receive(s: Session, read: ReadResult): (o: Outcome<seq<Byte>>)
    ensures o.frames == []
    ensures o.result.Ok? <==> Answers(read, s.address, s.lastFunction)
    ensures o.result.Ok? ==>
      read.bytes == Frame(s.address, s.lastFunction, o.result.value)
      && |o.result.value| <= MaxPayload
      && o.session == s.(lastFunction := 0)
    ensures o.result.Err? ==> o.session == s
    ensures o.result == Err(GeneralError) <==> read.ReadFailed?
    ensures o.result == Err(Timeout) <==> read.Read? && |read.bytes| < Overhead
    ensures o.result == Err(BadCrc) <==> read.Read? && |read.bytes| >= Overhead && !Crc.Matches(read.bytes)
    ensures o.result == Err(ProtocolError) <==>
      read.Read? && |read.bytes| >= Overhead && Crc.Matches(read.bytes)
      && (read.bytes[0] != s.address || read.bytes[1] != s.lastFunction)
  {
    match read
    case ReadFailed => Outcome(s, Err(GeneralError), [])
    case Read(m) =>
      if |m| < Overhead then
        Outcome(s, Err(Timeout), [])
      else if !Crc.Matches(m) then
        Outcome(s, Err(BadCrc), [])
      else if m[0] != s.address || m[1] != s.lastFunction then
        MatchingIsFrame(m);
        var p := m[HeaderLength..|m| - CrcLength];
        assert m == Frame(m[0], m[1], p);
        assert !Answers(read, s.address, s.lastFunction) by {
          if Answers(read, s.address, s.lastFunction) {
            FrameInjective(m[0], m[1], p, s.address, s.lastFunction, p);
          }
        }
        Outcome(s, Err(ProtocolError), [])
      else
        MatchingIsFrame(m);
        Outcome(s.(lastFunction := 0), Ok(m[HeaderLength..|m| - CrcLength]), [])
  }

  /** The reply frame the sensor sends for the pending function is accepted, and yields exactly its payload. */
  lemma ReceiveFrame(s: Session, payload: seq<Byte>)
    requires |payload| <= MaxPayload
    ensures Receive(s, Read(Frame(s.address, s.lastFunction, payload))) == Outcome(s.(lastFunction := 0), Ok(payload), [])
  {
    var m := Frame(s.address, s.lastFunction, payload);
    assert Answers(Read(m), s.address, s.lastFunction);
  }

  /**
   Once a reply was taken, nothing is pending: a second valid frame, for any
   real function code (1..127) or an exception reply (code with bit 7 set),
   is refused as a protocol error.
   */
  lemma NoReplyWithoutRequest(s: Session, functionCode: Byte, payload: seq<Byte>)
    requires s.lastFunction == 0 && functionCode != 0 && |payload| <= MaxPayload
    ensures Receive(s, Read(Frame(s.address, functionCode, payload))).result == Err(ProtocolError)
  {
  }

  /**
   The other side of the same comparison: with nothing pending, a frame
   for function 0 matches the 0 left behind and is accepted.
   */
  lemma FunctionZeroAcceptedWithoutRequest(s: Session, payload: seq<Byte>)
    requires s.lastFunction == 0 && |payload| <= MaxPayload
    ensures Receive(s, Read(Frame(s.address, 0, payload))).result == Ok(payload)
  {
    ReceiveFrame(s, payload);
  }

  /** A frame with any one byte changed in transit fails the CRC check: the receive reports LT_BAD_CRC. */
  lemma CorruptedFrameIsBadCrc(s: Session, address: Byte, functionCode: Byte, payload: seq<Byte>, g: seq<Byte>, i: nat)
    requires |payload| <= MaxPayload
    requires |g| == |payload| + Overhead && i < |g| && g[i] != Frame(address, functionCode, payload)[i]
    requires forall j :: 0 <= j < |g| && j != i ==> g[j] == Frame(address, functionCode, payload)[j]
    ensures Receive(s, Read(g)).result == Err(BadCrc)
  {
    Crc.CheckDetectsOneByteChange(Frame(address, functionCode, payload), g, i);
  }

  /**
   A second send before the reply replaces the pending function, so the
   reply to the first request is then refused as a protocol error.
   */
  lemma SecondSendReplacesPending(s: Session, f1: Byte, p1: seq<Byte>, f2: Byte, p2: seq<Byte>, reply: seq<Byte>)
    requires ValidRequest(f1, p1) && ValidRequest(f2, p2) && f1 != f2 && |reply| <= MaxPayload
    ensures var second := Send(Send(s, f1, p1, |p1| + Overhead).session, f2, p2, |p2| + Overhead);
            second.result == Ok(()) && second.session == s.(lastFunction := f2)
            && Receive(second.session, Read(Frame(s.address, f1, reply))).result == Err(ProtocolError)
  {
    var t := s.(lastFunction := f2);
    var m := Frame(s.address, f1, reply);
    if Answers(Read(m), t.address, t.lastFunction) {
      FrameInjective(s.address, f1, reply, s.address, f2, ReplyPayload(Read(m)));
    }
  }

  /**
   A request followed by its reply: send then receive. An error of either
   step is returned unchanged; a receive is only attempted after a send that
   succeeded.
   */
  function Transact(s: Session, functionCode: Byte, request: seq<Byte>, ex: Exchange): (o: Outcome<seq<Byte>>)
    ensures o.frames == (if ValidRequest(functionCode, request) then [Frame(s.address, functionCode, request)] else [])
    ensures o.result.Ok? <==>
      ValidRequest(functionCode, request) && ex.written == |request| + Overhead
      && Answers(ex.reply, s.address, functionCode)
    ensures o.result.Ok? ==>
      ex.reply.bytes == Frame(s.address, functionCode, o.result.value)
      && o.result.value == ReplyPayload(ex.reply)
      && |o.result.value| <= MaxPayload
      && o.session == s.(lastFunction := 0)
    ensures !ValidRequest(functionCode, request) ==> o.result == Err(InvalidArgument) && o.session == s
    ensures ValidRequest(functionCode, request) && ex.written != |request| + Overhead ==>
      o.result == Err(GeneralError) && o.session == s
    ensures ValidRequest(functionCode, request) && ex.written == |request| + Overhead ==>
      var got := Receive(s.(lastFunction := functionCode), ex.reply);
      o.result == got.result && o.session == got.session
    ensures o.result.Err? ==> o.session == s || o.session == s.(lastFunction := functionCode)
  {
    var sent := Send(s, functionCode, request, ex.written);
    if sent.result.Err? then
      Outcome(sent.session, Err(sent.result.error), sent.frames)
    else
      var got := Receive(sent.session, ex.reply);
      Outcome(got.session, got.result, sent.frames)
  }

  /** A request the port wrote whole, answered by the sensor's frame, yields that frame's payload. */
  lemma TransactFrame(s: Session, functionCode: Byte, request: seq<Byte>, payload: seq<Byte>)
    requires ValidRequest(functionCode, request) && |payload| <= MaxPayload
    ensures Transact(s, functionCode, request, Exchange(|request| + Overhead, Read(Frame(s.address, functionCode, payload))))
            == Outcome(s.(lastFunction := 0), Ok(payload), [Frame(s.address, functionCode, request)])
  {
    ReceiveFrame(s.(lastFunction := functionCode), payload);
  }

  /**
   ModbusConnect: opens the port, records the address and checks that a
   sensor answers a Report Server ID request. If anything fails the port is
   closed and the first error is returned.
   */
  function Connect(s: Session, address: Byte, open: Result<()>, ex: Exchange): (o: Outcome<()>)
    ensures Connected(o.session) <==> o.result.Ok?
    ensures o.result.Ok? <==>
      open.Ok? && ex.written == Overhead && Answers(ex.reply, address, ServerId)
    ensures open.Err? ==>
      o.result == Err(open.error) && o.frames == [] && o.session == s.(handleValid := false)
    ensures open.Ok? ==> o.frames == [Frame(address, ServerId, [])] && o.session.address == address
    ensures o.result.Ok? ==> o.session == Session(true, address, 0)
    ensures open.Ok? && ex.written != Overhead ==>
      o.result == Err(GeneralError) && o.session == Session(false, address, s.lastFunction)
    ensures open.Ok? && ex.written == Overhead && !Answers(ex.reply, address, ServerId) ==>
      o.result == Err(Receive(Session(true, address, ServerId), ex.reply).result.error)
      && o.session == Session(false, address, ServerId)
  {
    if open.Err? then
      Outcome(s.(handleValid := false), Err(open.error), [])
    else
      var t := Transact(s.(handleValid := true, address := address), ServerId, [], ex);
      if t.result.Ok? then
        Outcome(t.session, Ok(()), t.frames)
      else
        Outcome(t.session.(handleValid := false), Err(t.result.error), t.frames)
  }

  /** ModbusDisconnect: closes the port; has no other effect. */
  function Disconnect(s: Session): (r: Session)
    ensures !Connected(r)
    ensures r.address == s.address && r.lastFunction == s.lastFunction
  {
    s.(handleValid := false)
  }

  /**
   ModbusConnected reports a successful connect not yet undone: a connect
   leaves the port open exactly when it succeeds, an exchange on the port
   neither opens nor closes it, and a disconnect closes it.
   */
  lemma ConnectedUntilDisconnect(s: Session, address: Byte, open: Result<()>, probe: Exchange,
                                 functionCode: Byte, payload: seq<Byte>, ex: Exchange)
    ensures Connected(Connect(s, address, open, probe).session) <==> Connect(s, address, open, probe).result.Ok?
    ensures Connected(Transact(s, functionCode, payload, ex).session) == Connected(s)
    ensures !Connected(Disconnect(s))
  {
  }

  // ModbusSend as written: the frame length is kept in the LtByte `aLength`.

  /**
   ModbusSend exactly as the source computes the write length: `aLength`
   is an LtByte, so `aLength + 4` wraps modulo 256 and a 252-byte payload
   writes a zero-length prefix of the frame.
   */
  function SendAsWritten(s: Session, functionCode: Byte, payload: seq<Byte>, written: int): (o: Outcome<()>)
    ensures !ValidRequest(functionCode, payload) ==> o == Outcome(s, Err(InvalidArgument), [])
    ensures ValidRequest(functionCode, payload) ==>
      o.frames == [Frame(s.address, functionCode, payload)[..(|payload| + Overhead) % 0x100]]
      && (o.result.Ok? <==> written == (|payload| + Overhead) % 0x100)
      && (o.result.Err? ==> o.result.error == GeneralError)
    ensures o.session == (if o.result.Ok? then s.(lastFunction := functionCode) else s)
  {
    if !ValidRequest(functionCode, payload) then
      Outcome(s, Err(InvalidArgument), [])
    else
      var frame := Frame(s.address, functionCode, payload);
      var length := (|payload| + Overhead) % 0x100;
      if written == length then
        Outcome(s.(lastFunction := functionCode), Ok(()), [frame[..length]])
      else
        Outcome(s, Err(GeneralError), [frame[..length]])
  }

  /** Below the maximum payload the wrap never happens and the source behaves as `Send`. */
  lemma SendAsWrittenAgrees(s: Session, functionCode: Byte, payload: seq<Byte>, written: int)
    requires |payload| < MaxPayload
    ensures SendAsWritten(s, functionCode, payload, written) == Send(s, functionCode, payload, written)
  {
    if ValidRequest(functionCode, payload) {
      var frame := Frame(s.address, functionCode, payload);
      assert frame[..(|payload| + Overhead) % 0x100] == frame;
    }
  }

  /**
   The counterexample: with a full 252-byte payload the source hands the
   port an empty write, the port reports 0 bytes, and the send succeeds and
   marks the function pending although nothing went out. The corrected
   `Send` writes the 256-byte frame and fails on that report.
   */
  lemma FullPayloadSendsNothing(s: Session, functionCode: Byte, payload: seq<Byte>)
    requires 1 <= functionCode <= 127 && |payload| == MaxPayload
    ensures SendAsWritten(s, functionCode, payload, 0) == Outcome(s.(lastFunction := functionCode), Ok(()), [[]])
    ensures Send(s, functionCode, payload, 0).result == Err(GeneralError)
    ensures |Send(s, functionCode, payload, 0).frames[0]| == MaxLength
  {
  }
}
