/**
 The LeddarOne layer of Leddar.cpp: connecting with an identification
 check, decoding the ten input registers that hold one acquisition, the
 generic parameter accessors and the request to save the configuration.
 */
module LeddarOne {
  import opened Status
  import opened Wire
  import opened Modbus
  import opened Registers

  /** LEDDAR_MAX_DETECTIONS of the LeddarOne header. */
  const MaxDetections := 3
  /** The acquisition occupies input registers 20..29. */
  const ResultsAddress := 20
  const ResultsCount := 10
  /** The divisors the source applies to the raw registers. */
  const TemperatureScale := 256
  const DistanceScale := 1000
  const AmplitudeScale := 256
  /** The Leddar custom function that saves the configuration to permanent memory. */
  const WriteConfigurationFunction := 0x46

  /** LtDetection: a distance in metres and an amplitude. */
  datatype Detection = Detection(distance: Fixed, amplitude: Fixed)

  /** LtAcquisition; `mDetectionCount` is the length of `detections`. */
  datatype Acquisition = Acquisition(timestamp: U32, temperature: Fixed, detections: seq<Detection>)

  /** An acquisition the registers can express: the source's divisors, 16-bit numerators, at most three detections. */
  predicate WellFormed(a: Acquisition) {
    && a.temperature.scale == TemperatureScale && 0 <= a.temperature.raw < 0x1_0000
    && |a.detections| <= MaxDetections
    && forall i :: 0 <= i < |a.detections| ==>
         && a.detections[i].distance.scale == DistanceScale && 0 <= a.detections[i].distance.raw < 0x1_0000
         && a.detections[i].amplitude.scale == AmplitudeScale && 0 <= a.detections[i].amplitude.raw < 0x1_0000
  }

  /** Detection slot `i` occupies registers 4 + 2i (distance) and 5 + 2i (amplitude). */
  function DetectionAt(r: seq<U16>, i: nat): Detection
    requires |r| == ResultsCount && i < MaxDetections
  {
    Detection(Fixed(r[2 * i + 4], DistanceScale), Fixed(r[2 * i + 5], AmplitudeScale))
  }

  /**
   The decode of LeddarGetResults: the timestamp from registers 0 (low half)
   and 1 (high half), the temperature from register 2, and as many
   detections as register 3 says, but never more than three, so that every
   register read lies inside the ten.
   */
  function Decode(r: seq<U16>): (a: Acquisition)
    requires |r| == ResultsCount
    ensures WellFormed(a)
    ensures |a.detections| == Min(r[3], MaxDetections)
    ensures a.timestamp % 0x1_0000 == r[0] && a.timestamp / 0x1_0000 == r[1]
    ensures a.temperature == Fixed(r[2], TemperatureScale)
    ensures forall i :: 0 <= i < |a.detections| ==>
      a.detections[i] == Detection(Fixed(r[2 * i + 4], DistanceScale), Fixed(r[2 * i + 5], AmplitudeScale))
  {
    var count := Min(r[3], MaxDetections);
    HalvesOfWord(r[0], r[1]);
    var stamp: U32 := r[0] as int + r[1] as int * 0x1_0000;
    Acquisition(stamp, Fixed(r[2], TemperatureScale),
                seq(count, i requires 0 <= i < count => DetectionAt(r, i)))
  }

  /** Register `j` of the block a sensor holding `a` exposes; unused detection slots read 0. */
  function EncodedRegister(a: Acquisition, j: nat): U16
    requires WellFormed(a) && j < ResultsCount
  {
    if j == 0 then a.timestamp % 0x1_0000
    else if j == 1 then a.timestamp / 0x1_0000
    else if j == 2 then a.temperature.raw
    else if j == 3 then |a.detections|
    else if (j - 4) / 2 >= |a.detections| then 0
    else if j % 2 == 0 then a.detections[(j - 4) / 2].distance.raw
    else a.detections[(j - 4) / 2].amplitude.raw
  }

  /** The ten registers of a sensor holding `a`. */
  function Encode(a: Acquisition): (r: seq<U16>)
    requires WellFormed(a)
    ensures |r| == ResultsCount
  {
    seq(ResultsCount, j requires 0 <= j < ResultsCount => EncodedRegister(a, j))
  }

  /** Decoding the registers of a sensor holding `a` gives back `a`, detections included. */
  lemma DecodeEncode(a: Acquisition)
    requires WellFormed(a)
    ensures Decode(Encode(a)) == a
  {
    var r := Encode(a);
    var d := Decode(r);
    assert d.timestamp == a.timestamp by {
      assert r[0] == a.timestamp % 0x1_0000 && r[1] == a.timestamp / 0x1_0000;
    }
    assert |d.detections| == |a.detections|;
    forall i | 0 <= i < |a.detections|
      ensures d.detections[i] == a.detections[i]
    {
      assert (2 * i + 4 - 4) / 2 == i && (2 * i + 5 - 4) / 2 == i;
      assert r[2 * i + 4] == a.detections[i].distance.raw;
      assert r[2 * i + 5] == a.detections[i].amplitude.raw;
    }
    assert d.detections == a.detections;
  }

  /** A concrete decode: 0x12345678 ticks, 25 degrees, one detection at 1.5 m with amplitude 2. */
  lemma DecodeExample()
    ensures var a := Decode([0x5678, 0x1234, 6400, 1, 1500, 512, 0, 0, 0, 0]);
            a.timestamp == 0x1234_5678 && a.temperature.Value() == 25.0
            && |a.detections| == 1 && a.detections[0].distance.Value() == 1.5
            && a.detections[0].amplitude.Value() == 2.0
  {
    var a := Decode([0x5678, 0x1234, 6400, 1, 1500, 512, 0, 0, 0, 0]);
    assert a.detections[0] == Detection(Fixed(1500, 1000), Fixed(512, 256));
  }

  /**
   Register 3 is the count: registers 0, 0, 512, 0, 0, 1, 1000, 256, 0, 0
   describe temperature 2 and no detection, whatever registers 4..9 hold.
   */
  lemma ZeroCountExample()
    ensures var a := Decode([0, 0, 512, 0, 0, 1, 1000, 256, 0, 0]);
            a.timestamp == 0 && a.temperature.Value() == 2.0 && a.detections == []
  {
  }

  /**
   LeddarGetResults: exactly one read of the ten registers from 20; an
   error of the read is returned unchanged.
   */
  function GetResults(s: Session, ex: Exchange): (o: Outcome<Acquisition>)
    ensures o.frames == [Frame(s.address, ReadInputFunction, Request(ResultsAddress, ResultsCount))]
    ensures o.session == ReadInputRegisters(s, ResultsAddress, ResultsCount, ex).session
    ensures o.result.Err? <==> ReadInputRegisters(s, ResultsAddress, ResultsCount, ex).result.Err?
    ensures o.result.Err? ==> o.result.error == ReadInputRegisters(s, ResultsAddress, ResultsCount, ex).result.error
    ensures o.result.Ok? ==> WellFormed(o.result.value)
    ensures o.result.Ok? ==>
      ReadInputRegisters(s, ResultsAddress, ResultsCount, ex).result.Ok?
      && o.result.value == Decode(ReadInputRegisters(s, ResultsAddress, ResultsCount, ex).result.value)
  {
    var read := ReadInputRegisters(s, ResultsAddress, ResultsCount, ex);
    if read.result.Err? then Outcome(read.session, Err(read.result.error), read.frames)
    else Outcome(read.session, Ok(Decode(read.result.value)), read.frames)
  }

  /** A sensor holding `a` that answers the read makes GetResults return `a`. */
  lemma GetResultsRoundTrip(s: Session, a: Acquisition)
    requires WellFormed(a)
    ensures GetResults(s, Exchange(4 + Overhead, Read(Frame(s.address, ReadInputFunction, EncodeReply(Encode(a)))))).result
            == Ok(a)
  {
    ReadInputRegistersRoundTrip(s, ResultsAddress, Encode(a));
    DecodeEncode(a);
  }

  /** The identification of a LeddarOne: bytes 50 and 51 of the Report Server ID payload are 10 and 0. */
  predicate IsLeddarOne(id: seq<Byte>) {
    |id| >= 52 && id[50] == 10 && id[51] == 0
  }

  /**
   LeddarConnect: a Modbus connect, then a second Report Server ID whose
   answer must identify a LeddarOne. A failure after the port was opened
   closes it again; an unrecognised device is a general error.
   */
  function Connect(s: Session, address: Byte, open: Result<()>, probe: Exchange, id: Exchange): (o: Outcome<()>)
    ensures Connected(o.session) <==> o.result.Ok?
    ensures Modbus.Connect(s, address, open, probe).result.Err? ==> o == Modbus.Connect(s, address, open, probe)
    ensures o.result.Ok? <==>
      Modbus.Connect(s, address, open, probe).result.Ok? && id.written == Overhead
      && Answers(id.reply, address, ServerId) && IsLeddarOne(ReplyPayload(id.reply))
    ensures (Modbus.Connect(s, address, open, probe).result.Ok? && id.written == Overhead
             && Answers(id.reply, address, ServerId) && !IsLeddarOne(ReplyPayload(id.reply))) ==>
      o.result == Err(GeneralError)
    ensures Modbus.Connect(s, address, open, probe).result.Ok? ==>
      o.frames == [Frame(address, ServerId, []), Frame(address, ServerId, [])] && o.session.address == address
    ensures o.result.Ok? ==> o.session == Session(true, address, 0)
    ensures Modbus.Connect(s, address, open, probe).result.Ok? && id.written != Overhead ==>
      o.result == Err(GeneralError) && o.session == Session(false, address, 0)
    ensures Modbus.Connect(s, address, open, probe).result.Ok? && id.written == Overhead
            && !Answers(id.reply, address, ServerId) ==>
      o.result == Err(Receive(Session(true, address, ServerId), id.reply).result.error)
      && o.session == Session(false, address, ServerId)
    ensures Modbus.Connect(s, address, open, probe).result.Ok? && o.result.Err? && id.written == Overhead
            && Answers(id.reply, address, ServerId) ==>
      o.session == Session(false, address, 0)
  {
    var c := Modbus.Connect(s, address, open, probe);
    if c.result.Err? then c
    else
      var t := Transact(c.session, ServerId, [], id);
      if t.result.Ok? && IsLeddarOne(t.result.value) then Outcome(t.session, Ok(()), c.frames + t.frames)
      else Outcome(Disconnect(t.session), Err(if t.result.Err? then t.result.error else GeneralError), c.frames + t.frames)
  }

  /** The exchange in which a sensor answers Report Server ID with `payload`. */
  function IdentifyExchange(address: Byte, payload: seq<Byte>): Exchange
    requires |payload| <= MaxPayload
  {
    Exchange(Overhead, Read(Frame(address, ServerId, payload)))
  }

  /** A sensor that identifies as a LeddarOne in both exchanges is connected. */
  lemma ConnectLeddarOne(s: Session, address: Byte, probe: seq<Byte>, id: seq<Byte>)
    requires |probe| <= MaxPayload && |id| <= MaxPayload && IsLeddarOne(id)
    ensures var o := Connect(s, address, Ok(()), IdentifyExchange(address, probe), IdentifyExchange(address, id));
            o.result == Ok(()) && o.session == Session(true, address, 0)
  {
    TransactFrame(s.(handleValid := true, address := address), ServerId, [], probe);
    TransactFrame(Session(true, address, 0), ServerId, [], id);
  }

  /** LeddarDisconnect: closes the port. */
  function Disconnect(s: Session): (r: Session)
    ensures !Connected(r) && r.address == s.address && r.lastFunction == s.lastFunction
  {
    Modbus.Disconnect(s)
  }

  /** LeddarGetParameter: the register number goes to the holding-register read unchecked. */
  function GetParameter(s: Session, no: U16, ex: Exchange): (o: Outcome<U16>)
    ensures o.frames == [Frame(s.address, ReadHoldingFunction, Request(no, 1))]
    ensures o.result != Err(InvalidArgument)
    ensures o.result.Ok? <==>
      ex.written == 4 + Overhead && Answers(ex.reply, s.address, ReadHoldingFunction)
      && 3 + Overhead <= |ex.reply.bytes|
    ensures o.result.Ok? ==> o.result.value == Register(ReplyPayload(ex.reply), 0) && o.session == s.(lastFunction := 0)
    ensures ex.written != 4 + Overhead ==> o.result == Err(GeneralError) && o.session == s
    ensures ex.written == 4 + Overhead && !Answers(ex.reply, s.address, ReadHoldingFunction) ==>
      o.result == Err(Receive(s.(lastFunction := ReadHoldingFunction), ex.reply).result.error)
      && o.session == s.(lastFunction := ReadHoldingFunction)
    ensures ex.written == 4 + Overhead && Answers(ex.reply, s.address, ReadHoldingFunction)
            && |ex.reply.bytes| < 3 + Overhead ==>
      o.result == Err(ProtocolError) && o.session == s.(lastFunction := 0)
  {
    ReadHoldingRegister(s, no, ex)
  }

  /** A sensor holding `value` in parameter `no`, whatever the number, makes GetParameter return it. */
  lemma GetParameterRoundTrip(s: Session, no: U16, value: U16)
    ensures var o := GetParameter(s, no,
              Exchange(4 + Overhead, Read(Frame(s.address, ReadHoldingFunction, EncodeReply([value])))));
            o.result == Ok(value) && o.session == s.(lastFunction := 0)
  {
    ReadHoldingRegisterRoundTrip(s, no, value);
  }

  /** LeddarSetParameter: the register number goes to the register write unchecked. */
  function SetParameter(s: Session, no: U16, value: U16, ex: Exchange): (o: Outcome<()>)
    ensures o.frames == [Frame(s.address, WriteSingleFunction, Request(no, value))]
    ensures o.result != Err(InvalidArgument)
    ensures o.result.Ok? <==> ex.written == 4 + Overhead && Answers(ex.reply, s.address, WriteSingleFunction)
    ensures o.result.Ok? ==> o.session == s.(lastFunction := 0)
    ensures ex.written != 4 + Overhead ==> o.result == Err(GeneralError) && o.session == s
    ensures ex.written == 4 + Overhead && !Answers(ex.reply, s.address, WriteSingleFunction) ==>
      o.result == Err(Receive(s.(lastFunction := WriteSingleFunction), ex.reply).result.error)
      && o.session == s.(lastFunction := WriteSingleFunction)
  {
    WriteRegister(s, no, value, ex)
  }

  /** A sensor that echoes the write of `value` to parameter `no` makes SetParameter succeed with nothing pending. */
  lemma SetParameterRoundTrip(s: Session, no: U16, value: U16)
    ensures var o := SetParameter(s, no, value,
              Exchange(4 + Overhead, Read(Frame(s.address, WriteSingleFunction, Request(no, value)))));
            o.result == Ok(()) && o.session == s.(lastFunction := 0)
  {
    WriteRegisterAcceptsAnyReply(s, no, value);
  }

  /**
   LeddarWriteConfiguration: sends 0x46 with no payload, ignores whether
   the send succeeded and returns what the receive returns, the payload
   length on success.
   */
  function WriteConfiguration(s: Session, written: int, read: ReadResult): (o: Outcome<nat>)
    ensures o.frames == [Frame(s.address, WriteConfigurationFunction, [])]
    ensures o.result.Ok? <==>
      Answers(read, s.address, if written == Overhead then WriteConfigurationFunction else s.lastFunction)
    ensures o.result.Ok? ==> o.result.value == |read.bytes| - Overhead && o.session == s.(lastFunction := 0)
    ensures o.result.Err? ==>
      o.session == if written == Overhead then s.(lastFunction := WriteConfigurationFunction) else s
    ensures o.result.Err? ==>
      o.result.error
      == Receive(if written == Overhead then s.(lastFunction := WriteConfigurationFunction) else s, read).result.error
  {
    var sent := Send(s, WriteConfigurationFunction, [], written);
    var got := Receive(sent.session, read);
    if got.result.Err? then Outcome(got.session, Err(got.result.error), sent.frames)
    else Outcome(got.session, Ok(|got.result.value|), sent.frames)
  }

  /** A whole write answered by the sensor's 0x46 frame returns the reply's payload length with nothing pending. */
  lemma WriteConfigurationRoundTrip(s: Session, payload: seq<Byte>)
    requires |payload| <= MaxPayload
    ensures var o := WriteConfiguration(s, Overhead, Read(Frame(s.address, WriteConfigurationFunction, payload)));
            o.result == Ok(|payload|) && o.session == s.(lastFunction := 0)
  {
    ReceiveFrame(s.(lastFunction := WriteConfigurationFunction), payload);
  }

  /**
   Because the send result is ignored, a write that failed is followed by a
   receive against the function pending from before: a late reply to that
   earlier request is taken as the answer.
   */
  lemma WriteConfigurationAcceptsEarlierReply(s: Session, payload: seq<Byte>)
    requires |payload| <= MaxPayload
    ensures WriteConfiguration(s, 0, Read(Frame(s.address, s.lastFunction, payload))).result == Ok(|payload|)
  {
    ReceiveFrame(s, payload);
  }

  // The identification check as written: it reads the receive buffer whatever the reply's length.

  /** The check of Leddar.cpp on the 252-byte `lId` buffer after the receive copied the reply into its start. */
  predicate IsLeddarOneAsWritten(buffer: seq<Byte>)
    requires |buffer| == MaxPayload
  {
    buffer[50] == 10 && buffer[51] == 0
  }

  /** LeddarConnect as written; `junk` is what the uninitialised `lId` held. */
  function ConnectAsWritten(s: Session, address: Byte, open: Result<()>, probe: Exchange, id: Exchange, junk: seq<Byte>)
    : (o: Outcome<()>)
    requires |junk| == MaxPayload
    ensures o.frames == Connect(s, address, open, probe, id).frames
    ensures Connected(o.session) <==> o.result.Ok?
    ensures o.result.Ok? <==>
      Modbus.Connect(s, address, open, probe).result.Ok? && id.written == Overhead
      && Answers(id.reply, address, ServerId) && IsLeddarOneAsWritten(Overlay(ReplyPayload(id.reply), junk))
    ensures !(Modbus.Connect(s, address, open, probe).result.Ok? && id.written == Overhead
              && Answers(id.reply, address, ServerId)) ==>
      o == Connect(s, address, open, probe, id)
  {
    var c := Modbus.Connect(s, address, open, probe);
    if c.result.Err? then c
    else
      var t := Transact(c.session, ServerId, [], id);
      if t.result.Ok? && IsLeddarOneAsWritten(Overlay(t.result.value, junk)) then Outcome(t.session, Ok(()), c.frames + t.frames)
      else Outcome(Disconnect(t.session), Err(if t.result.Err? then t.result.error else GeneralError), c.frames + t.frames)
  }

  /** On an identification payload of at least 52 bytes the two checks agree. */
  lemma IdentificationAgrees(payload: seq<Byte>, junk: seq<Byte>)
    requires 52 <= |payload| <= |junk| == MaxPayload
    ensures IsLeddarOneAsWritten(Overlay(payload, junk)) == IsLeddarOne(payload)
  {
  }

  /**
   The counterexample: a sensor that answers Report Server ID with an empty
   payload is accepted when the stack under `lId` happens to hold 10 and 0
   at offsets 50 and 51. The corrected check refuses it.
   */
  lemma EmptyIdentificationAccepted(s: Session, address: Byte, junk: seq<Byte>)
    requires |junk| == MaxPayload && junk[50] == 10 && junk[51] == 0
    ensures var ex := IdentifyExchange(address, []);
            ConnectAsWritten(s, address, Ok(()), ex, ex, junk).result == Ok(())
            && Connect(s, address, Ok(()), ex, ex).result == Err(GeneralError)
  {
    TransactFrame(s.(handleValid := true, address := address), ServerId, [], []);
    TransactFrame(Session(true, address, 0), ServerId, [], []);
    assert Overlay([], junk) == junk;
  }
}
