/**
 The register helpers of Modbus.cpp: Read Input Registers (function 0x04),
 Read Holding Registers for one register (0x03) and Write Single Register
 (0x06), sections 6.4, 6.3 and 6.6 of the Modbus Application Protocol
 Specification V1.1b3.

 A request carries two big-endian 16-bit fields. A read reply carries a
 byte count and then the registers, two bytes each, high byte first.
 */
module Registers {
  import opened Status
  import opened Wire
  import opened Modbus

  const ReadHoldingFunction := 3
  const ReadInputFunction := 4
  const WriteSingleFunction := 6

  /** The 4-byte request payload: a register address, then a count or a value, both big-endian. */
  function Request(first: U16, second: U16): (r: seq<Byte>)
    ensures |r| == 4
  {
    BigEndian(first) + BigEndian(second)
  }

  /** A server reads both fields of the request back. */
  lemma RequestFields(first: U16, second: U16)
    ensures FromBigEndian(Request(first, second)[0], Request(first, second)[1]) == first
    ensures FromBigEndian(Request(first, second)[2], Request(first, second)[3]) == second
  {
    BigEndianRoundTrip(first);
    BigEndianRoundTrip(second);
  }

  /** Register `i` of a read reply: the two bytes after the byte count and the `i` registers before it. */
  function Register(p: seq<Byte>, i: nat): U16
    requires 2 * i + 2 < |p|
  {
    FromBigEndian(p[2 * i + 1], p[2 * i + 2])
  }

  /**
   The registers of a read reply for `count` registers. A reply too short to
   hold them is a protocol error, so no byte beyond the reply is ever read.
   */
  function DecodeReply(p: seq<Byte>, count: nat): (r: Result<seq<U16>>)
    ensures r.Ok? <==> 2 * count + 1 <= |p|
    ensures r.Ok? ==> |r.value| == count
    ensures r.Err? ==> r.error == ProtocolError
  {
    if |p| < 2 * count + 1 then Err(ProtocolError)
    else Ok(seq(count, i requires 0 <= i < count => Register(p, i)))
  }

  /** The bytes of `values`, each big-endian, in order. */
  function EncodeWords(values: seq<U16>): (r: seq<Byte>)
    ensures |r| == 2 * |values|
    ensures forall i :: 0 <= i < |values| ==> FromBigEndian(r[2 * i], r[2 * i + 1]) == values[i]
    decreases |values|
  {
    if |values| == 0 then []
    else
      var init := EncodeWords(values[..|values| - 1]);
      var last := values[|values| - 1];
      BigEndianRoundTrip(last);
      init + BigEndian(last)
  }

  /** The reply payload a sensor sends for `values`: the byte count, then the registers. */
  function EncodeReply(values: seq<U16>): (p: seq<Byte>)
    requires |values| <= 125
    ensures |p| == 2 * |values| + 1 && p[0] == 2 * |values|
  {
    [2 * |values|] + EncodeWords(values)
  }

  /** Decoding the sensor's reply gives back exactly the registers it encoded. */
  lemma DecodeEncode(values: seq<U16>)
    requires |values| <= 125
    ensures DecodeReply(EncodeReply(values), |values|) == Ok(values)
  {
    var p := EncodeReply(values);
    var vs := DecodeReply(p, |values|).value;
    forall i | 0 <= i < |values|
      ensures vs[i] == values[i]
    {
      assert p[2 * i + 1] == EncodeWords(values)[2 * i];
      assert p[2 * i + 2] == EncodeWords(values)[2 * i + 1];
    }
    assert vs == values;
  }

  /**
   The other direction: whatever the byte count `p[0]` claims, the values
   of a successful decode re-encode to exactly the reply bytes after it,
   two per register.
   */
  lemma EncodeDecodeReply(p: seq<Byte>, count: nat)
    requires DecodeReply(p, count).Ok?
    ensures EncodeWords(DecodeReply(p, count).value) == p[1..2 * count + 1]
  {
    var vs := DecodeReply(p, count).value;
    var r := EncodeWords(vs);
    var q := p[1..2 * count + 1];
    forall k | 0 <= k < 2 * count
      ensures r[k] == q[k]
    {
      var i := k / 2;
      assert vs[i] == Register(p, i);
      assert FromBigEndian(r[2 * i], r[2 * i + 1]) == FromBigEndian(p[2 * i + 1], p[2 * i + 2]);
    }
  }

  /** The single register in the reply bytes 0x01 0x2C is 300. */
  lemma SingleRegisterExample()
    ensures DecodeReply([2, 0x01, 0x2C], 1) == Ok([300])
  {
    var r := DecodeReply([2, 0x01, 0x2C], 1).value;
    assert r[0] == Register([2, 0x01, 0x2C], 0) == 300;
    assert r == [300];
  }

  /** The decoded registers depend only on the bytes the registers occupy. */
  lemma DecodeReadsOnlyReply(p: seq<Byte>, q: seq<Byte>, count: nat)
    requires 2 * count + 1 <= |p| && 2 * count + 1 <= |q|
    requires p[..2 * count + 1] == q[..2 * count + 1]
    ensures DecodeReply(p, count) == DecodeReply(q, count)
  {
    var a, b := DecodeReply(p, count).value, DecodeReply(q, count).value;
    forall i | 0 <= i < count
      ensures a[i] == b[i]
    {
      assert p[2 * i + 1] == p[..2 * count + 1][2 * i + 1];
      assert p[2 * i + 2] == p[..2 * count + 1][2 * i + 2];
      assert q[2 * i + 1] == q[..2 * count + 1][2 * i + 1];
      assert q[2 * i + 2] == q[..2 * count + 1][2 * i + 2];
    }
    assert a == b;
  }

  /**
   ModbusReadInputRegisters: one request for `count` registers from `first`;
   write and receive errors are returned unchanged.
   */
  function ReadInputRegisters(s: Session, first: U16, count: U16, ex: Exchange): (o: Outcome<seq<U16>>)
    ensures o.frames == [Frame(s.address, ReadInputFunction, Request(first, count))]
    ensures ex.written != 4 + Overhead ==> o.result == Err(GeneralError) && o.session == s
    ensures ex.written == 4 + Overhead && !Answers(ex.reply, s.address, ReadInputFunction) ==>
      o.result == Receive(s.(lastFunction := ReadInputFunction), ex.reply).result
      && o.session == s.(lastFunction := ReadInputFunction)
    ensures o.result.Ok? <==>
      ex.written == 4 + Overhead && Answers(ex.reply, s.address, ReadInputFunction)
      && 2 * count + 1 + Overhead <= |ex.reply.bytes|
    ensures o.result.Ok? ==>
      o.result == DecodeReply(ReplyPayload(ex.reply), count) && o.session == s.(lastFunction := 0)
    ensures ex.written == 4 + Overhead && Answers(ex.reply, s.address, ReadInputFunction)
            && |ex.reply.bytes| < 2 * count + 1 + Overhead ==>
      o.result == Err(ProtocolError) && o.session == s.(lastFunction := 0)
  {
    var t := Transact(s, ReadInputFunction, Request(first, count), ex);
    if t.result.Err? then Outcome(t.session, Err(t.result.error), t.frames)
    else Outcome(t.session, DecodeReply(t.result.value, count), t.frames)
  }

  /** A sensor that answers with the registers `values` makes the read return exactly them. */
  lemma ReadInputRegistersRoundTrip(s: Session, first: U16, values: seq<U16>)
    requires |values| <= 125
    ensures var o := ReadInputRegisters(s, first, |values|,
              Exchange(4 + Overhead, Read(Frame(s.address, ReadInputFunction, EncodeReply(values)))));
            o.result == Ok(values) && o.session == s.(lastFunction := 0)
  {
    TransactFrame(s, ReadInputFunction, Request(first, |values|), EncodeReply(values));
    DecodeEncode(values);
  }

  /**
   ModbusReadHoldingRegister: reads one register (`count` 1) and returns
   the first register of the reply.
   */
  function ReadHoldingRegister(s: Session, no: U16, ex: Exchange): (o: Outcome<U16>)
    ensures o.frames == [Frame(s.address, ReadHoldingFunction, Request(no, 1))]
    ensures ex.written != 4 + Overhead ==> o.result == Err(GeneralError) && o.session == s
    ensures ex.written == 4 + Overhead && !Answers(ex.reply, s.address, ReadHoldingFunction) ==>
      o.result == Err(Receive(s.(lastFunction := ReadHoldingFunction), ex.reply).result.error)
      && o.session == s.(lastFunction := ReadHoldingFunction)
    ensures o.result.Ok? <==>
      ex.written == 4 + Overhead && Answers(ex.reply, s.address, ReadHoldingFunction)
      && 3 + Overhead <= |ex.reply.bytes|
    ensures o.result.Ok? ==>
      o.result.value == Register(ReplyPayload(ex.reply), 0) && o.session == s.(lastFunction := 0)
    ensures ex.written == 4 + Overhead && Answers(ex.reply, s.address, ReadHoldingFunction)
            && |ex.reply.bytes| < 3 + Overhead ==>
      o.result == Err(ProtocolError) && o.session == s.(lastFunction := 0)
  {
    var t := Transact(s, ReadHoldingFunction, Request(no, 1), ex);
    if t.result.Err? then Outcome(t.session, Err(t.result.error), t.frames)
    else
      var d := DecodeReply(t.result.value, 1);
      if d.Err? then Outcome(t.session, Err(d.error), t.frames)
      else Outcome(t.session, Ok(d.value[0]), t.frames)
  }

  /** A sensor holding `value` in the register makes the read return it. */
  lemma ReadHoldingRegisterRoundTrip(s: Session, no: U16, value: U16)
    ensures var o := ReadHoldingRegister(s, no,
              Exchange(4 + Overhead, Read(Frame(s.address, ReadHoldingFunction, EncodeReply([value])))));
            o.result == Ok(value) && o.session == s.(lastFunction := 0)
  {
    TransactFrame(s, ReadHoldingFunction, Request(no, 1), EncodeReply([value]));
    DecodeEncode([value]);
  }

  /**
   ModbusWriteRegister: sends the register address and the new value. Any
   accepted reply counts as success; its payload is not compared with the
   request.
   */
  function WriteRegister(s: Session, no: U16, value: U16, ex: Exchange): (o: Outcome<()>)
    ensures o.frames == [Frame(s.address, WriteSingleFunction, Request(no, value))]
    ensures ex.written != 4 + Overhead ==> o.result == Err(GeneralError) && o.session == s
    ensures ex.written == 4 + Overhead ==>
      o.result.Err? == Receive(s.(lastFunction := WriteSingleFunction), ex.reply).result.Err?
      && o.session == Receive(s.(lastFunction := WriteSingleFunction), ex.reply).session
    ensures ex.written == 4 + Overhead && !Answers(ex.reply, s.address, WriteSingleFunction) ==>
      o.result == Err(Receive(s.(lastFunction := WriteSingleFunction), ex.reply).result.error)
      && o.session == s.(lastFunction := WriteSingleFunction)
    ensures o.result.Ok? <==> ex.written == 4 + Overhead && Answers(ex.reply, s.address, WriteSingleFunction)
    ensures o.result.Ok? ==> o.session == s.(lastFunction := 0)
  {
    var t := Transact(s, WriteSingleFunction, Request(no, value), ex);
    if t.result.Err? then Outcome(t.session, Err(t.result.error), t.frames)
    else Outcome(t.session, Ok(()), t.frames)
  }

  /** The echo the standard prescribes (the request itself) is accepted, and so is a reply with no payload. */
  lemma WriteRegisterAcceptsAnyReply(s: Session, no: U16, value: U16)
    ensures WriteRegister(s, no, value,
              Exchange(4 + Overhead, Read(Frame(s.address, WriteSingleFunction, Request(no, value))))).result == Ok(())
    ensures WriteRegister(s, no, value,
              Exchange(4 + Overhead, Read(Frame(s.address, WriteSingleFunction, [])))).result == Ok(())
  {
    TransactFrame(s, WriteSingleFunction, Request(no, value), Request(no, value));
    TransactFrame(s, WriteSingleFunction, Request(no, value), []);
  }

  /** A reply for another function is refused, even though the write went out. */
  lemma WriteRegisterWrongFunction(s: Session, no: U16, value: U16, f: Byte, payload: seq<Byte>)
    requires f != WriteSingleFunction && |payload| <= MaxPayload
    ensures WriteRegister(s, no, value, Exchange(4 + Overhead, Read(Frame(s.address, f, payload)))).result
            == Err(ProtocolError)
  {
    var t := s.(lastFunction := WriteSingleFunction);
    var m := Frame(s.address, f, payload);
    if Answers(Read(m), t.address, t.lastFunction) {
      FrameInjective(s.address, f, payload, s.address, WriteSingleFunction, ReplyPayload(Read(m)));
    }
  }

  // The register decode as written: it reads the receive buffer whatever the reply's length.

  /**
   The loop of ModbusReadInputRegisters over the 252-byte `lPayload` after
   the receive copied the reply into its start. The buffer still holds the
   request in bytes 0..3 and uninitialised bytes after that.
   */
  function DecodeAsWritten(buffer: seq<Byte>, count: nat): (vs: seq<U16>)
    requires 2 * count + 1 <= |buffer|
    ensures |vs| == count
  {
    seq(count, i requires 0 <= i < count => Register(buffer, i))
  }

  /**
   ModbusReadInputRegisters as written. `junk` is what `lPayload` held past
   the request. The source reads past the end of `lPayload` for counts above
   125, which is not modelled.
   */
  function ReadInputRegistersAsWritten(s: Session, first: U16, count: U16, ex: Exchange, junk: seq<Byte>)
    : (o: Outcome<seq<U16>>)
    requires |junk| == MaxPayload - 4 && 2 * count + 1 <= MaxPayload
    ensures o.frames == ReadInputRegisters(s, first, count, ex).frames
    ensures o.result.Ok? <==> ex.written == 4 + Overhead && Answers(ex.reply, s.address, ReadInputFunction)
  {
    var t := Transact(s, ReadInputFunction, Request(first, count), ex);
    if t.result.Err? then Outcome(t.session, Err(t.result.error), t.frames)
    else Outcome(t.session, Ok(DecodeAsWritten(Overlay(t.result.value, Request(first, count) + junk), count)), t.frames)
  }

  /** When the reply holds all requested registers the two decodes agree. */
  lemma DecodeAsWrittenAgrees(p: seq<Byte>, prior: seq<Byte>, count: nat)
    requires |p| <= |prior| && 2 * count + 1 <= |p|
    ensures DecodeReply(p, count) == Ok(DecodeAsWritten(Overlay(p, prior), count))
  {
    var b := Overlay(p, prior);
    DecodeReadsOnlyReply(p, b, count);
    assert DecodeReply(b, count) == Ok(DecodeAsWritten(b, count));
  }

  /**
   The counterexample: a valid reply with an empty payload to the request
   for 10 registers from address 20 yields, as register 0, bytes 1 and 2 of
   the request still in the buffer: the address's low byte 0x14 and the
   count's high byte 0x00, read back as 0x1400 = 5120. The corrected read
   reports a protocol error.
   */
  lemma EmptyReplyEchoesRequest(s: Session, junk: seq<Byte>)
    requires |junk| == MaxPayload - 4
    ensures var ex := Exchange(4 + Overhead, Read(Frame(s.address, ReadInputFunction, [])));
            var o := ReadInputRegistersAsWritten(s, 20, 10, ex, junk);
            o.result.Ok? && o.result.value[0] == 5120
            && ReadInputRegisters(s, 20, 10, ex).result == Err(ProtocolError)
  {
    var ex := Exchange(4 + Overhead, Read(Frame(s.address, ReadInputFunction, [])));
    TransactFrame(s, ReadInputFunction, Request(20, 10), []);
    var b := Overlay([], Request(20, 10) + junk);
    assert b[1] == 20 && b[2] == 0;
    assert DecodeAsWritten(b, 10)[0] == 20 * 256;
  }

  /**
   ModbusReadHoldingRegister as written: the value is taken from bytes 1 and
   2 of `lPayload` whatever the reply's length.
   */
  function ReadHoldingRegisterAsWritten(s: Session, no: U16, ex: Exchange, junk: seq<Byte>): (o: Outcome<U16>)
    requires |junk| == MaxPayload - 4
    ensures o.frames == ReadHoldingRegister(s, no, ex).frames
    ensures o.result.Ok? <==> ex.written == 4 + Overhead && Answers(ex.reply, s.address, ReadHoldingFunction)
  {
    var t := Transact(s, ReadHoldingFunction, Request(no, 1), ex);
    if t.result.Err? then Outcome(t.session, Err(t.result.error), t.frames)
    else Outcome(t.session, Ok(Register(Overlay(t.result.value, Request(no, 1) + junk), 0)), t.frames)
  }

  /**
   The counterexample for one register: a valid reply with an empty payload
   yields the low byte of the register address times 256, left over from
   the request. The corrected read reports a protocol error.
   */
  lemma EmptyReplyEchoesRegisterNumber(s: Session, no: U16, junk: seq<Byte>)
    requires |junk| == MaxPayload - 4
    ensures var ex := Exchange(4 + Overhead, Read(Frame(s.address, ReadHoldingFunction, [])));
            ReadHoldingRegisterAsWritten(s, no, ex, junk).result == Ok(LowByte(no) * 256)
            && ReadHoldingRegister(s, no, ex).result == Err(ProtocolError)
  {
    TransactFrame(s, ReadHoldingFunction, Request(no, 1), []);
    var b := Overlay([], Request(no, 1) + junk);
    assert b[1] == LowByte(no) && b[2] == 0;
  }
}
