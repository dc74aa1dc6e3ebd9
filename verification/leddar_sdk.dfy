/**
 The sensor layer of the RS-485 demo (SDK/Rs485Demo/Leddar.c), on top of
 the Modbus engine of Modbus.cpp, which stands in for the demo's own
 Modbus layer: connecting with a configuration level taken from the
 identification, the Leddar custom function 0x41 that returns a variable
 number of detections, range-checked parameter access and the signed
 detection threshold.
 */
module LeddarSdk {
  import opened Status
  import opened Wire
  import opened Modbus
  import opened Registers

  /** LEDDAR_MAX_DETECTIONS of the SDK header: the most detections one reply can hold. */
  const MaxDetections := 48
  /** The Leddar custom function that returns the latest detections. */
  const ResultsFunction := 0x41
  /** LEDDAR_CONFIG_THRESHOLD. */
  const ThresholdParameter := 4
  /** LEDDAR_CONFIG_MAX_DETECTIONS, the highest parameter number the accessors accept. */
  const MaxParameter := 8
  /** One detection record: distance (2 bytes), amplitude (2 bytes), segment and flags (1 byte). */
  const RecordLength := 5
  /** The trailer after the records: a 4-byte timestamp and 2 bytes of states. */
  const TrailerLength := 6
  /** Byte 150 of the Report Server ID payload identifies the sensor model. */
  const ModelIndex := 150
  const DistanceScale := 100
  const AmplitudeScale := 64
  const ThresholdScale := 256

  /** The LEDDAR_*_CONFIGURATION levels. */
  datatype Level = NoConfiguration | SimpleConfiguration | FullConfiguration {
    /** The constant the source uses for the level. */
    function Code(): (c: int)
      ensures 0 <= c <= 2
      ensures c == 0 <==> this == NoConfiguration
      ensures c == 1 <==> this == SimpleConfiguration
      ensures c == 2 <==> this == FullConfiguration
    {
      match this
      case NoConfiguration => 0
      case SimpleConfiguration => 1
      case FullConfiguration => 2
    }
  }

  /** The driver state of the demo: the Modbus session and `gConfigurationLevel`. */
  datatype Sensor = Sensor(link: Session, level: Level)

  /** The state at program start. */
  const Initial := Sensor(Modbus.Initial, NoConfiguration)

  /** What a sensor operation leaves behind, as `Outcome` but with the whole sensor state. */
  datatype SensorOutcome<T> = SensorOutcome(sensor: Sensor, result: Result<T>, frames: seq<seq<Byte>>)

  /** The model byte each kind of sensor reports: module 9, industrial sensor 8, evaluation kit 7. */
  function ModelByte(l: Level): Byte {
    match l
    case FullConfiguration => 9
    case SimpleConfiguration => 8
    case NoConfiguration => 7
  }

  /** The configuration level an identification payload announces, if it names a known model. */
  function LevelOf(id: seq<Byte>): (r: Option<Level>)
    ensures r.Some? <==> |id| > ModelIndex && id[ModelIndex] in {7, 8, 9}
    ensures r.Some? ==> ModelByte(r.value) == id[ModelIndex]
  {
    if |id| <= ModelIndex then None
    else if id[ModelIndex] == 9 then Some(FullConfiguration)
    else if id[ModelIndex] == 8 then Some(SimpleConfiguration)
    else if id[ModelIndex] == 7 then Some(NoConfiguration)
    else None
  }

  /** A payload announces level `l` exactly when its model byte is the one of `l`. */
  lemma LevelOfIffModelByte(id: seq<Byte>, l: Level)
    ensures LevelOf(id) == Some(l) <==> |id| > ModelIndex && id[ModelIndex] == ModelByte(l)
  {
  }

  /** Every model byte other than 7, 8 and 9 is unrecognised. */
  lemma UnknownModel(id: seq<Byte>)
    requires |id| > ModelIndex && id[ModelIndex] !in {7, 8, 9}
    ensures LevelOf(id) == None
  {
  }

  /**
   LeddarConnect of the demo: a Modbus connect, then a second Report Server
   ID whose model byte sets the configuration level. A failed exchange or
   an unknown model closes the port and leaves the level as it was.
   */
  function Connect(sensor: Sensor, address: Byte, open: Result<()>, probe: Exchange, id: Exchange)
    : (o: SensorOutcome<()>)
    ensures Connected(o.sensor.link) <==> o.result.Ok?
    ensures Modbus.Connect(sensor.link, address, open, probe).result.Err? ==>
      o.result == Modbus.Connect(sensor.link, address, open, probe).result
      && o.sensor == Sensor(Modbus.Connect(sensor.link, address, open, probe).session, sensor.level)
    ensures o.result.Ok? <==>
      Modbus.Connect(sensor.link, address, open, probe).result.Ok? && id.written == Overhead
      && Answers(id.reply, address, ServerId) && LevelOf(ReplyPayload(id.reply)).Some?
    ensures o.result.Ok? ==> o.sensor.level == LevelOf(ReplyPayload(id.reply)).value
    ensures o.result.Err? ==> o.sensor.level == sensor.level
    ensures (Modbus.Connect(sensor.link, address, open, probe).result.Ok? && id.written == Overhead
             && Answers(id.reply, address, ServerId) && LevelOf(ReplyPayload(id.reply)).None?) ==>
      o.result == Err(GeneralError) && o.sensor.link == Session(false, address, 0)
    ensures Modbus.Connect(sensor.link, address, open, probe).result.Ok? ==>
      o.frames == [Frame(address, ServerId, []), Frame(address, ServerId, [])]
    ensures o.result.Ok? ==> o.sensor.link == Session(true, address, 0)
    ensures Modbus.Connect(sensor.link, address, open, probe).result.Ok? && id.written != Overhead ==>
      o.result == Err(GeneralError) && o.sensor.link == Session(false, address, 0)
    ensures Modbus.Connect(sensor.link, address, open, probe).result.Ok? && id.written == Overhead
            && !Answers(id.reply, address, ServerId) ==>
      o.result == Err(Receive(Session(true, address, ServerId), id.reply).result.error)
      && o.sensor.link == Session(false, address, ServerId)
  {
    var c := Modbus.Connect(sensor.link, address, open, probe);
    if c.result.Err? then SensorOutcome(Sensor(c.session, sensor.level), c.result, c.frames)
    else
      var t := Transact(c.session, ServerId, [], id);
      if t.result.Ok? && LevelOf(t.result.value).Some? then
        SensorOutcome(Sensor(t.session, LevelOf(t.result.value).value), Ok(()), c.frames + t.frames)
      else
        SensorOutcome(Sensor(Modbus.Disconnect(t.session), sensor.level),
                      Err(if t.result.Err? then t.result.error else GeneralError), c.frames + t.frames)
  }

  /** The exchange in which a sensor answers Report Server ID with `payload`. */
  function IdentifyExchange(address: Byte, payload: seq<Byte>): Exchange
    requires |payload| <= MaxPayload
  {
    Exchange(Overhead, Read(Frame(address, ServerId, payload)))
  }

  /** A sensor of a known model is connected at the level of its model byte. */
  lemma ConnectKnownModel(sensor: Sensor, address: Byte, probe: seq<Byte>, id: seq<Byte>, l: Level)
    requires |probe| <= MaxPayload && |id| <= MaxPayload
    requires |id| > ModelIndex && id[ModelIndex] == ModelByte(l)
    ensures var o := Connect(sensor, address, Ok(()), IdentifyExchange(address, probe), IdentifyExchange(address, id));
            o.result == Ok(()) && o.sensor == Sensor(Session(true, address, 0), l)
  {
    TransactFrame(sensor.link.(handleValid := true, address := address), ServerId, [], probe);
    TransactFrame(Session(true, address, 0), ServerId, [], id);
    LevelOfIffModelByte(id, l);
  }

  /** LeddarDisconnect: closes the port and drops the level to no configuration. */
  function Disconnect(sensor: Sensor): (r: Sensor)
    ensures !Connected(r.link) && ConfigurationLevel(r) == NoConfiguration.Code()
    ensures r.link.address == sensor.link.address && r.link.lastFunction == sensor.link.lastFunction
  {
    Sensor(Modbus.Disconnect(sensor.link), NoConfiguration)
  }

  /** LeddarConfigurationLevel: the level of the connected sensor, as its constant. */
  function ConfigurationLevel(sensor: Sensor): (c: int)
    ensures 0 <= c <= 2
    ensures c == ModelByte(sensor.level) - 7
  {
    sensor.level.Code()
  }

  /**
   After a successful connect the level reported is the identification's
   model byte less 7: full configuration (2) for 9, simple (1) for 8 and
   none (0) for 7.
   */
  lemma ConnectSetsLevel(sensor: Sensor, address: Byte, open: Result<()>, probe: Exchange, id: Exchange)
    requires Connect(sensor, address, open, probe, id).result.Ok?
    ensures |ReplyPayload(id.reply)| > ModelIndex
    ensures ConfigurationLevel(Connect(sensor, address, open, probe, id).sensor) == ReplyPayload(id.reply)[ModelIndex] - 7
  {
    var o := Connect(sensor, address, open, probe, id);
    assert o.sensor.level == LevelOf(ReplyPayload(id.reply)).value;
  }

  // The 0x41 reply: a count byte, five-byte detection records and an optional trailer.

  /** LtDetection of the demo: distance in metres, amplitude, segment number and flags. */
  datatype Detection = Detection(distance: Fixed, amplitude: Fixed, segment: nat, flags: nat)

  /** LtAcquisition of the demo; `mDetectionCount` is the length of `detections`. */
  datatype Results = Results(detections: seq<Detection>, timestamp: U32, states: U16)

  /** The five bytes at `at`: distance and amplitude little-endian, then segment (high nibble) and flags (low nibble). */
  function DecodeRecord(p: seq<Byte>, at: nat): (d: Detection)
    requires at + RecordLength <= |p|
    ensures d.distance.scale == DistanceScale && d.distance.raw % 256 == p[at] && d.distance.raw / 256 == p[at + 1]
    ensures d.amplitude.scale == AmplitudeScale && d.amplitude.raw % 256 == p[at + 2] && d.amplitude.raw / 256 == p[at + 3]
    ensures d.segment < 16 && d.flags < 16 && d.segment * 16 + d.flags == p[at + 4]
  {
    Detection(Fixed(LittleEndian16(p[at], p[at + 1]), DistanceScale),
              Fixed(LittleEndian16(p[at + 2], p[at + 3]), AmplitudeScale),
              p[at + 4] / 16, p[at + 4] % 16)
  }

  /** The detections the reply announces, clamped to 48. */
  function Count(p: seq<Byte>): (n: nat)
    requires |p| > 0
    ensures n <= MaxDetections && n <= p[0]
  {
    Min(p[0], MaxDetections)
  }

  /** Where the trailer starts: after as many records as the count byte says, not clamped. */
  function TrailerOffset(p: seq<Byte>): nat
    requires |p| > 0
  {
    p[0] * RecordLength + 1
  }

  /** The reply holds the whole trailer. */
  predicate HasTrailer(p: seq<Byte>)
    requires |p| > 0
  {
    TrailerOffset(p) + TrailerLength <= |p|
  }

  /**
   The decode of LeddarGetResults, for a reply of at least one byte. A
   reply that ends before the records it announces is a protocol error; a
   trailer that is not wholly present reads as timestamp and states 0.
   */
  function DecodeResults(p: seq<Byte>): (r: Result<Results>)
    requires |p| > 0
    ensures r.Ok? <==> 1 + RecordLength * Count(p) <= |p|
    ensures r.Err? ==> r.error == ProtocolError
    ensures r.Ok? ==> |r.value.detections| == Count(p)
    ensures r.Ok? && !HasTrailer(p) ==> r.value.timestamp == 0 && r.value.states == 0
  {
    var count := Count(p);
    if |p| < 1 + RecordLength * count then Err(ProtocolError)
    else
      var detections := seq(count, i requires 0 <= i < count => DecodeRecord(p, 1 + RecordLength * i));
      var at := TrailerOffset(p);
      if HasTrailer(p) then
        Ok(Results(detections, LittleEndian32(p[at], p[at + 1], p[at + 2], p[at + 3]), LittleEndian16(p[at + 4], p[at + 5])))
      else
        Ok(Results(detections, 0, 0))
  }

  /** A detection a record can express. */
  predicate RecordFits(d: Detection) {
    && d.distance.scale == DistanceScale && 0 <= d.distance.raw < 0x1_0000
    && d.amplitude.scale == AmplitudeScale && 0 <= d.amplitude.raw < 0x1_0000
    && d.segment < 16 && d.flags < 16
  }

  /** Results a reply can express: at most 48 detections, each fitting a record. */
  predicate WellFormed(r: Results) {
    |r.detections| <= MaxDetections && forall i :: 0 <= i < |r.detections| ==> RecordFits(r.detections[i])
  }

  /** The record a sensor sends for `d`. */
  function RecordBytes(d: Detection): (b: seq<Byte>)
    requires RecordFits(d)
    ensures |b| == RecordLength
  {
    LittleEndianBytes16(d.distance.raw) + LittleEndianBytes16(d.amplitude.raw) + [d.segment * 16 + d.flags]
  }

  /** A record decodes to the detection it was made from. */
  lemma DecodeRecordBytes(d: Detection)
    requires RecordFits(d)
    ensures DecodeRecord(RecordBytes(d), 0) == d
  {
    LittleEndian16RoundTrip(d.distance.raw);
    LittleEndian16RoundTrip(d.amplitude.raw);
  }

  /** A record decodes the same wherever it sits. */
  lemma DecodeRecordShift(p: seq<Byte>, at: nat, q: seq<Byte>, bt: nat)
    requires at + RecordLength <= |p| && bt + RecordLength <= |q|
    requires p[at] == q[bt] && p[at + 1] == q[bt + 1] && p[at + 2] == q[bt + 2]
    requires p[at + 3] == q[bt + 3] && p[at + 4] == q[bt + 4]
    ensures DecodeRecord(p, at) == DecodeRecord(q, bt)
  {
  }

  /** The records of `ds`, in order. */
  function Records(ds: seq<Detection>): (b: seq<Byte>)
    requires forall i :: 0 <= i < |ds| ==> RecordFits(ds[i])
    ensures |b| == RecordLength * |ds|
    ensures forall i :: 0 <= i < |ds| ==> DecodeRecord(b, RecordLength * i) == ds[i]
    decreases |ds|
  {
    if |ds| == 0 then []
    else
      var init := Records(ds[..|ds| - 1]);
      var last := RecordBytes(ds[|ds| - 1]);
      var b := init + last;
      forall i | 0 <= i < |ds|
        ensures DecodeRecord(b, RecordLength * i) == ds[i]
      {
        if i < |ds| - 1 {
          DecodeRecordShift(b, RecordLength * i, init, RecordLength * i);
        } else {
          DecodeRecordShift(b, RecordLength * i, last, 0);
          DecodeRecordBytes(ds[i]);
        }
      }
      b
  }

  /** A decoded record fits a record and re-encodes to the five bytes it was read from. */
  lemma RecordBytesOfDecode(p: seq<Byte>, at: nat)
    requires at + RecordLength <= |p|
    ensures RecordFits(DecodeRecord(p, at))
    ensures RecordBytes(DecodeRecord(p, at)) == p[at..at + RecordLength]
  {
    LittleEndianBytes16Inverse(p[at], p[at + 1]);
    LittleEndianBytes16Inverse(p[at + 2], p[at + 3]);
  }

  /** Detections decoded from consecutive records starting at byte 1 re-encode to exactly those bytes. */
  lemma {:induction false} RecordsOfDecoded(p: seq<Byte>, ds: seq<Detection>)
    requires 1 + RecordLength * |ds| <= |p|
    requires forall i :: 0 <= i < |ds| ==> ds[i] == DecodeRecord(p, 1 + RecordLength * i)
    ensures forall i :: 0 <= i < |ds| ==> RecordFits(ds[i])
    ensures Records(ds) == p[1..1 + RecordLength * |ds|]
    decreases |ds|
  {
    forall i | 0 <= i < |ds|
      ensures RecordFits(ds[i])
    {
      RecordBytesOfDecode(p, 1 + RecordLength * i);
    }
    if |ds| > 0 {
      var n := |ds| - 1;
      RecordsOfDecoded(p, ds[..n]);
      RecordBytesOfDecode(p, 1 + RecordLength * n);
      assert p[1..1 + RecordLength * |ds|]
          == p[1..1 + RecordLength * n] + p[1 + RecordLength * n..1 + RecordLength * |ds|];
    }
  }

  /** The trailer a sensor sends for a timestamp and states. */
  function TrailerBytes(timestamp: U32, states: U16): (b: seq<Byte>)
    ensures |b| == TrailerLength
  {
    LittleEndianBytes32(timestamp) + LittleEndianBytes16(states)
  }

  /**
   The 0x41 payload a sensor sends for `r`: the count, the records and, when
   `trailer` holds, the trailer. Without the trailer the results carry
   timestamp and states 0, as the decode reports them.
   */
  function EncodeResults(r: Results, trailer: bool): (p: seq<Byte>)
    requires WellFormed(r) && (!trailer ==> r.timestamp == 0 && r.states == 0)
    ensures 0 < |p| <= MaxPayload && p[0] == |r.detections|
  {
    [|r.detections|] + Records(r.detections) + (if trailer then TrailerBytes(r.timestamp, r.states) else [])
  }

  /** Decoding the sensor's payload gives back the results it encoded, with or without trailer. */
  lemma DecodeEncodeResults(r: Results, trailer: bool)
    requires WellFormed(r) && (!trailer ==> r.timestamp == 0 && r.states == 0)
    ensures DecodeResults(EncodeResults(r, trailer)) == Ok(r)
  {
    var p := EncodeResults(r, trailer);
    var n := |r.detections|;
    var records := Records(r.detections);
    assert TrailerOffset(p) == 1 + RecordLength * n;
    var d := DecodeResults(p).value;
    forall i | 0 <= i < n
      ensures d.detections[i] == r.detections[i]
    {
      DecodeRecordShift(p, 1 + RecordLength * i, records, RecordLength * i);
    }
    assert d.detections == r.detections;
    if trailer {
      var at := 1 + RecordLength * n;
      var t := TrailerBytes(r.timestamp, r.states);
      assert p[at..] == t;
      assert p[at] == t[0] && p[at + 1] == t[1] && p[at + 2] == t[2];
      assert p[at + 3] == t[3] && p[at + 4] == t[4] && p[at + 5] == t[5];
      LittleEndian16RoundTrip(r.states);
      LittleEndian32RoundTrip(r.timestamp);
    }
  }

  /**
   The other direction, for every payload the decode accepts, including a
   count byte above 48 and bytes after the trailer: the results are well
   formed, their records re-encode to the bytes from offset 1 on, one
   record per clamped count, and, when the whole trailer is present at the
   offset of the unclamped count, its timestamp and states re-encode to
   the six bytes there.
   */
  lemma EncodeDecodeResults(p: seq<Byte>)
    requires |p| > 0 && DecodeResults(p).Ok?
    ensures WellFormed(DecodeResults(p).value)
    ensures Records(DecodeResults(p).value.detections) == p[1..1 + RecordLength * Count(p)]
    ensures HasTrailer(p) ==>
      TrailerBytes(DecodeResults(p).value.timestamp, DecodeResults(p).value.states)
      == p[TrailerOffset(p)..TrailerOffset(p) + TrailerLength]
  {
    var r := DecodeResults(p).value;
    DecodedDetections(p);
    RecordsOfDecoded(p, r.detections);
    if HasTrailer(p) {
      DecodedTrailer(p);
      TrailerBytesOfDecode(p, TrailerOffset(p));
    }
  }

  /** Detection `i` of a successful decode is the record at byte 1 + 5i. */
  lemma DecodedDetections(p: seq<Byte>)
    requires |p| > 0 && DecodeResults(p).Ok?
    ensures 1 + RecordLength * |DecodeResults(p).value.detections| <= |p|
    ensures forall i :: 0 <= i < |DecodeResults(p).value.detections| ==>
      DecodeResults(p).value.detections[i] == DecodeRecord(p, 1 + RecordLength * i)
  {
  }

  /** With the whole trailer present, the timestamp and states are read from it. */
  lemma DecodedTrailer(p: seq<Byte>)
    requires |p| > 0 && DecodeResults(p).Ok? && HasTrailer(p)
    ensures var at := TrailerOffset(p);
      DecodeResults(p).value.timestamp == LittleEndian32(p[at], p[at + 1], p[at + 2], p[at + 3])
      && DecodeResults(p).value.states == LittleEndian16(p[at + 4], p[at + 5])
  {
  }

  /** A trailer read from six bytes re-encodes to those bytes. */
  lemma TrailerBytesOfDecode(p: seq<Byte>, at: nat)
    requires at + TrailerLength <= |p|
    ensures TrailerBytes(LittleEndian32(p[at], p[at + 1], p[at + 2], p[at + 3]), LittleEndian16(p[at + 4], p[at + 5]))
            == p[at..at + TrailerLength]
  {
    LittleEndianBytes32Inverse(p[at], p[at + 1], p[at + 2], p[at + 3]);
    LittleEndianBytes16Inverse(p[at + 4], p[at + 5]);
    assert p[at..at + TrailerLength] == [p[at], p[at + 1], p[at + 2], p[at + 3]] + [p[at + 4], p[at + 5]];
  }

  /**
   LeddarGetResults of the demo: sends 0x41 without payload. An empty reply
   is a success that reports nothing (`None`); a longer one is decoded.
   Errors of the exchange are returned unchanged.
   */
  function GetResults(s: Session, ex: Exchange): (o: Outcome<Option<Results>>)
    ensures o.frames == [Frame(s.address, ResultsFunction, [])]
    ensures ex.written != Overhead ==> o.result == Err(GeneralError) && o.session == s
    ensures ex.written == Overhead && !Answers(ex.reply, s.address, ResultsFunction) ==>
      o.result == Err(Receive(s.(lastFunction := ResultsFunction), ex.reply).result.error)
      && o.session == s.(lastFunction := ResultsFunction)
    ensures o.result == Ok(None) <==>
      ex.written == Overhead && Answers(ex.reply, s.address, ResultsFunction) && |ex.reply.bytes| == Overhead
    ensures o.result.Ok? && o.result.value.Some? ==>
      |ex.reply.bytes| > Overhead && DecodeResults(ReplyPayload(ex.reply)) == Ok(o.result.value.value)
    ensures o.result.Ok? ==> o.session == s.(lastFunction := 0)
    ensures ex.written == Overhead && Answers(ex.reply, s.address, ResultsFunction) && |ex.reply.bytes| > Overhead ==>
      var d := DecodeResults(ReplyPayload(ex.reply));
      o.result == (if d.Ok? then Ok(Some(d.value)) else Err(d.error)) && o.session == s.(lastFunction := 0)
  {
    var t := Transact(s, ResultsFunction, [], ex);
    if t.result.Err? then Outcome(t.session, Err(t.result.error), t.frames)
    else if |t.result.value| == 0 then Outcome(t.session, Ok(None), t.frames)
    else
      var d := DecodeResults(t.result.value);
      if d.Err? then Outcome(t.session, Err(d.error), t.frames)
      else Outcome(t.session, Ok(Some(d.value)), t.frames)
  }

  /** A sensor that answers with the payload for `r` makes GetResults return `r`. */
  lemma GetResultsRoundTrip(s: Session, r: Results, trailer: bool)
    requires WellFormed(r) && (!trailer ==> r.timestamp == 0 && r.states == 0)
    ensures GetResults(s, Exchange(Overhead, Read(Frame(s.address, ResultsFunction, EncodeResults(r, trailer))))).result
            == Ok(Some(r))
  {
    var p := EncodeResults(r, trailer);
    var ex := Exchange(Overhead, Read(Frame(s.address, ResultsFunction, p)));
    TransactFrame(s, ResultsFunction, [], p);
    assert Transact(s, ResultsFunction, [], ex).result == Ok(p);
    DecodeEncodeResults(r, trailer);
  }

  /** LeddarGetParameter of the demo: a number above 8 is refused before anything is sent. */
  function GetParameter(s: Session, no: U16, ex: Exchange): (o: Outcome<U16>)
    ensures no > MaxParameter ==> o == Outcome(s, Err(InvalidArgument), [])
    ensures no <= MaxParameter ==> o.frames == [Frame(s.address, ReadHoldingFunction, Request(no, 1))]
    ensures o.result.Ok? <==>
      no <= MaxParameter && ex.written == 4 + Overhead && Answers(ex.reply, s.address, ReadHoldingFunction)
      && 3 + Overhead <= |ex.reply.bytes|
    ensures o.result.Ok? ==> o.result.value == Register(ReplyPayload(ex.reply), 0) && o.session == s.(lastFunction := 0)
    ensures no <= MaxParameter && ex.written != 4 + Overhead ==> o.result == Err(GeneralError) && o.session == s
    ensures no <= MaxParameter && ex.written == 4 + Overhead && !Answers(ex.reply, s.address, ReadHoldingFunction) ==>
      o.result == Err(Receive(s.(lastFunction := ReadHoldingFunction), ex.reply).result.error)
      && o.session == s.(lastFunction := ReadHoldingFunction)
    ensures no <= MaxParameter && ex.written == 4 + Overhead && Answers(ex.reply, s.address, ReadHoldingFunction)
            && |ex.reply.bytes| < 3 + Overhead ==>
      o.result == Err(ProtocolError) && o.session == s.(lastFunction := 0)
  {
    if no > MaxParameter then Outcome(s, Err(InvalidArgument), [])
    else ReadHoldingRegister(s, no, ex)
  }

  /** A sensor holding `value` in parameter `no`, for a number up to 8, makes GetParameter return it. */
  lemma GetParameterRoundTrip(s: Session, no: U16, value: U16)
    requires no <= MaxParameter
    ensures var o := GetParameter(s, no,
              Exchange(4 + Overhead, Read(Frame(s.address, ReadHoldingFunction, EncodeReply([value])))));
            o.result == Ok(value) && o.session == s.(lastFunction := 0)
  {
    ReadHoldingRegisterRoundTrip(s, no, value);
  }

  /** LeddarSetParameter of the demo: a number above 8 is refused before anything is sent. */
  function SetParameter(s: Session, no: U16, value: U16, ex: Exchange): (o: Outcome<()>)
    ensures no > MaxParameter ==> o == Outcome(s, Err(InvalidArgument), [])
    ensures no <= MaxParameter ==> o.frames == [Frame(s.address, WriteSingleFunction, Request(no, value))]
    ensures o.result.Ok? <==>
      no <= MaxParameter && ex.written == 4 + Overhead && Answers(ex.reply, s.address, WriteSingleFunction)
    ensures o.result.Ok? ==> o.session == s.(lastFunction := 0)
    ensures no <= MaxParameter && ex.written != 4 + Overhead ==> o.result == Err(GeneralError) && o.session == s
    ensures no <= MaxParameter && ex.written == 4 + Overhead && !Answers(ex.reply, s.address, WriteSingleFunction) ==>
      o.result == Err(Receive(s.(lastFunction := WriteSingleFunction), ex.reply).result.error)
      && o.session == s.(lastFunction := WriteSingleFunction)
  {
    if no > MaxParameter then Outcome(s, Err(InvalidArgument), [])
    else WriteRegister(s, no, value, ex)
  }

  /** A sensor that echoes the write of `value` to parameter `no`, for a number up to 8, makes SetParameter succeed. */
  lemma SetParameterRoundTrip(s: Session, no: U16, value: U16)
    requires no <= MaxParameter
    ensures var o := SetParameter(s, no, value,
              Exchange(4 + Overhead, Read(Frame(s.address, WriteSingleFunction, Request(no, value)))));
            o.result == Ok(()) && o.session == s.(lastFunction := 0)
  {
    WriteRegisterAcceptsAnyReply(s, no, value);
  }

  /**
   LeddarGetThreshold: the threshold register read as a two's-complement
   16-bit number, in 1/256 units.
   */
  function GetThreshold(s: Session, ex: Exchange): (o: Outcome<Fixed>)
    ensures o.frames == [Frame(s.address, ReadHoldingFunction, Request(ThresholdParameter, 1))]
    ensures o.result.Ok? <==> ReadHoldingRegister(s, ThresholdParameter, ex).result.Ok?
    ensures o.result.Ok? ==>
      o.result.value.scale == ThresholdScale && -0x8000 <= o.result.value.raw < 0x8000
      && Unsigned16(o.result.value.raw) == Register(ReplyPayload(ex.reply), 0)
      && o.session == s.(lastFunction := 0)
    ensures ex.written != 4 + Overhead ==> o.result == Err(GeneralError) && o.session == s
    ensures ex.written == 4 + Overhead && !Answers(ex.reply, s.address, ReadHoldingFunction) ==>
      o.result == Err(Receive(s.(lastFunction := ReadHoldingFunction), ex.reply).result.error)
      && o.session == s.(lastFunction := ReadHoldingFunction)
    ensures ex.written == 4 + Overhead && Answers(ex.reply, s.address, ReadHoldingFunction)
            && |ex.reply.bytes| < 3 + Overhead ==>
      o.result == Err(ProtocolError) && o.session == s.(lastFunction := 0)
  {
    var read := ReadHoldingRegister(s, ThresholdParameter, ex);
    if read.result.Err? then Outcome(read.session, Err(read.result.error), read.frames)
    else Outcome(read.session, Ok(Fixed(Signed16(read.result.value), ThresholdScale)), read.frames)
  }

  /** A sensor whose threshold is `t` (negative values included) makes GetThreshold return `t`/256. */
  lemma GetThresholdRoundTrip(s: Session, t: int)
    requires -0x8000 <= t < 0x8000
    ensures GetThreshold(s, Exchange(4 + Overhead,
              Read(Frame(s.address, ReadHoldingFunction, EncodeReply([Unsigned16(t)]))))).result
            == Ok(Fixed(t, ThresholdScale))
  {
    ReadHoldingRegisterRoundTrip(s, ThresholdParameter, Unsigned16(t));
    SignedRoundTrip(Unsigned16(t), t);
  }

  /** The register pattern 0xFF00 is the threshold -1. */
  lemma ThresholdExample()
    ensures Fixed(Signed16(0xFF00), ThresholdScale).Value() == -1.0
  {
  }

  // The decodes as written: they read the receive buffers whatever the reply's length.

  /** The identification check of the demo on the 252-byte `lId` buffer. */
  function LevelOfAsWritten(buffer: seq<Byte>): (r: Option<Level>)
    requires |buffer| == MaxPayload
    ensures r.Some? <==> buffer[ModelIndex] in {7, 8, 9}
  {
    LevelOf(buffer)
  }

  /** On an identification payload of more than 150 bytes the two checks agree. */
  lemma LevelOfAgrees(payload: seq<Byte>, junk: seq<Byte>)
    requires ModelIndex < |payload| <= |junk| == MaxPayload
    ensures LevelOfAsWritten(Overlay(payload, junk)) == LevelOf(payload)
  {
  }

  /**
   The counterexample: a LeddarOne-style identification of 52 bytes leaves
   byte 150 to whatever `lId` held; if that is 9 the sensor is taken for a
   module with full configuration. The corrected check finds no model.
   */
  lemma ShortIdentificationTakesStaleModel(payload: seq<Byte>, junk: seq<Byte>)
    requires |payload| == 52 && |junk| == MaxPayload && junk[ModelIndex] == 9
    ensures LevelOfAsWritten(Overlay(payload, junk)) == Some(FullConfiguration)
    ensures LevelOf(payload) == None
  {
  }

  /** How far past the end of `lBuffer` the trailer read of the demo can reach. */
  const Beyond := 5

  /**
   The decode of the demo's LeddarGetResults exactly as written, over
   `memory`: the 252 bytes of `lBuffer` after the receive copied the
   `length`-byte reply into its start, then the 5 bytes that follow it.
   */
  function DecodeResultsAsWritten(memory: seq<Byte>, length: nat): (r: Results)
    requires |memory| == MaxPayload + Beyond && 0 < length <= MaxPayload
    ensures |r.detections| == Count(memory)
  {
    var count := Count(memory);
    var detections := seq(count, i requires 0 <= i < count => DecodeRecord(memory, 1 + RecordLength * i));
    var at := TrailerOffset(memory);
    if length > at then
      Results(detections, LittleEndian32(memory[at], memory[at + 1], memory[at + 2], memory[at + 3]),
              LittleEndian16(memory[at + 4], memory[at + 5]))
    else
      Results(detections, 0, 0)
  }

  /** LeddarGetResults of the demo as written; `memory` is what `lBuffer` and the bytes after it held. */
  function GetResultsAsWritten(s: Session, ex: Exchange, memory: seq<Byte>): (o: Outcome<Option<Results>>)
    requires |memory| == MaxPayload + Beyond
    ensures o.frames == GetResults(s, ex).frames
    ensures o.result.Ok? <==> ex.written == Overhead && Answers(ex.reply, s.address, ResultsFunction)
  {
    var t := Transact(s, ResultsFunction, [], ex);
    if t.result.Err? then Outcome(t.session, Err(t.result.error), t.frames)
    else if |t.result.value| == 0 then Outcome(t.session, Ok(None), t.frames)
    else Outcome(t.session, Ok(Some(DecodeResultsAsWritten(Overlay(t.result.value, memory), |t.result.value|))), t.frames)
  }

  /**
   When the reply holds the records it announces, and either the whole
   trailer or nothing after the records, the two decodes agree.
   */
  lemma DecodeResultsAgrees(p: seq<Byte>, memory: seq<Byte>)
    requires 0 < |p| <= MaxPayload && |memory| == MaxPayload + Beyond
    requires 1 + RecordLength * Count(p) <= |p|
    requires HasTrailer(p) || |p| <= TrailerOffset(p)
    ensures DecodeResults(p) == Ok(DecodeResultsAsWritten(Overlay(p, memory), |p|))
  {
    var m := Overlay(p, memory);
    var a, b := DecodeResults(p).value, DecodeResultsAsWritten(m, |p|);
    forall i | 0 <= i < Count(p)
      ensures a.detections[i] == b.detections[i]
    {
      DecodeRecordShift(p, 1 + RecordLength * i, m, 1 + RecordLength * i);
    }
    assert a.detections == b.detections;
  }

  /**
   The counterexample for the records: a reply `[1]` announces a detection
   it does not carry; as written, the detection is decoded from bytes 1..5
   of the stale buffer. The corrected decode reports a protocol error.
   */
  lemma MissingRecordReadsStale(memory: seq<Byte>)
    requires |memory| == MaxPayload + Beyond
    ensures DecodeResultsAsWritten(Overlay([1], memory), 1).detections == [DecodeRecord(memory, 1)]
    ensures DecodeResults([1]) == Err(ProtocolError)
  {
    var m := Overlay([1], memory);
    DecodeRecordShift(m, 1, memory, 1);
  }

  /**
   The counterexample for the trailer guard: a 7-byte reply with one
   record passes `length > offset` (7 > 6), so the timestamp is built from
   reply byte 6 and three stale bytes. The corrected decode reports 0.
   */
  lemma ShortTrailerReadsStale(p: seq<Byte>, memory: seq<Byte>)
    requires |p| == 7 && p[0] == 1 && |memory| == MaxPayload + Beyond
    ensures DecodeResultsAsWritten(Overlay(p, memory), 7).timestamp
            == LittleEndian32(p[6], memory[7], memory[8], memory[9])
    ensures DecodeResults(p).Ok? && DecodeResults(p).value.timestamp == 0
  {
  }

  /**
   The counterexample past the buffer: a full 252-byte reply whose count
   byte is 50 puts the trailer at 251; the guard lets the read through and
   bytes 252..256 lie after `lBuffer`. The states come from those bytes
   alone. The corrected decode reports 0.
   */
  lemma TrailerReadsPastBuffer(p: seq<Byte>, memory: seq<Byte>)
    requires |p| == MaxPayload && p[0] == 50 && |memory| == MaxPayload + Beyond
    ensures TrailerOffset(p) + TrailerLength > MaxPayload
    ensures DecodeResultsAsWritten(Overlay(p, memory), MaxPayload).states == LittleEndian16(memory[255], memory[256])
    ensures DecodeResults(p).Ok? && DecodeResults(p).value.states == 0
  {
  }
}
