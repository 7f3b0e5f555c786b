/**
 * The Device Management service access point (SAP id 0x01): the message-id
 * tables, the decoders of its responses and its startup indication, and the
 * mask/options rule of its "set system options" request.
 *
 * Only what the decoders decide is modelled: whether a message is handled,
 * the "Event" and "Status" texts and the system-option flags. The nested
 * dictionaries with device, firmware and date-time details are recorded by
 * their key only.
 */
module DeviceManagement {
  import opened SerialMessages
  import opened ServiceAccessPoints
  import opened AMaps
  import opened Crc16

  const SapId: bv8 := 0x01

  // Message identifiers.
  const StartupInd: bv8 := 0x00
  const PingReq: bv8 := 0x01
  const PingRsp: bv8 := 0x02
  const GetDeviceInfoReq: bv8 := 0x03
  const GetDeviceInfoRsp: bv8 := 0x04
  const GetFirmwareVersionReq: bv8 := 0x05
  const GetFirmwareVersionRsp: bv8 := 0x06
  const RestartDeviceReq: bv8 := 0x07
  const RestartDeviceRsp: bv8 := 0x08
  const SetDateTimeReq: bv8 := 0x0D
  const SetDateTimeRsp: bv8 := 0x0E
  const GetDateTimeReq: bv8 := 0x0F
  const GetDateTimeRsp: bv8 := 0x10
  const SetSystemOptionsReq: bv8 := 0xF7
  const SetSystemOptionsRsp: bv8 := 0xF8
  const GetSystemOptionsReq: bv8 := 0xF9
  const GetSystemOptionsRsp: bv8 := 0xFA

  // Status codes.
  const Ok: bv8 := 0x00
  const Error: bv8 := 0x01
  const CommandNotSupported: bv8 := 0x02
  const WrongParameter: bv8 := 0x03
  const WrongApplicationMode: bv8 := 0x04
  const Reserved: bv8 := 0x05
  const ApplicationBusy: bv8 := 0x06
  const WrongMessageLength: bv8 := 0x07
  const NvmWriteError: bv8 := 0x08
  const NvmReadError: bv8 := 0x09
  const CommandRejected: bv8 := 0x0A

  // System option bits.
  const SoAps: bv32 := 1 << 0
  const SoTrace: bv32 := 1 << 1
  const SoRtc: bv32 := 1 << 2
  const SoWatchDog: bv32 := 1 << 3
  const SoStartupEvent: bv32 := 1 << 4

  // Field sizes.
  const ReservedInfoSize: int := 0
  const DeviceInfoSize: int := 1 + 4 + 4 + 4
  const FirmwareInfoMinSize: int := 2 + 2 + 10 + 1

  /** _StatusCodes. */
  const StatusCodes: map<bv8, string> := map[
    Ok := "ok",
    Error := "error",
    CommandNotSupported := "command not supported",
    WrongParameter := "wrong parameter",
    WrongApplicationMode := "wrong application mode",
    Reserved := "reserved",
    ApplicationBusy := "application busy",
    WrongMessageLength := "wrong message length",
    NvmWriteError := "NVM write error",
    NvmReadError := "NVM read error",
    CommandRejected := "command rejected"]

  /** _EventNames. */
  const EventNames: map<bv8, string> := map[
    StartupInd := "startup indication",
    PingRsp := "ping device response",
    GetDeviceInfoRsp := "get device info response",
    GetFirmwareVersionRsp := "get firmware version response",
    GetDateTimeRsp := "get date time response",
    SetDateTimeRsp := "set date time response",
    RestartDeviceRsp := "restart device response",
    SetSystemOptionsRsp := "set system options response",
    GetSystemOptionsRsp := "get system options response"]

  /** The member function a _Handlers entry points to; NoHandler is the nullptr default. */
  datatype Handler =
    | NoHandler
    | DefaultResponse
    | StartupIndication
    | DeviceInfoResponse
    | FirmwareVersionResponse
    | DateTimeResponse
    | SystemOptionsResponse

  /** _Handlers. */
  const Handlers: map<bv8, Handler> := map[
    StartupInd := StartupIndication,
    PingRsp := DefaultResponse,
    GetDeviceInfoRsp := DeviceInfoResponse,
    GetFirmwareVersionRsp := FirmwareVersionResponse,
    GetDateTimeRsp := DateTimeResponse,
    SetDateTimeRsp := DefaultResponse,
    RestartDeviceRsp := DefaultResponse,
    SetSystemOptionsRsp := DefaultResponse,
    GetSystemOptionsRsp := SystemOptionsResponse]

  /**
   * `_StatusCodes.value(status, "error")`: codes 0 to CommandRejected are in
   * the table and any other reads "error", so "error" is the text exactly of
   * Error and of the codes past CommandRejected.
   */
  function StatusText(status: bv8): (r: string)
    ensures status in StatusCodes <==> status <= CommandRejected
    ensures status !in StatusCodes ==> r == "error"
    ensures status == Ok ==> r == "ok"
    ensures r == "error" <==> status == Error || status > CommandRejected
  {
    ValueOr(StatusCodes, status, "error")
  }

  /** The "Status" entry of a response. */
  function StatusField(m: seq<bv8>): Field {
    Text("Status", StatusText(StatusOf(m)))
  }

  /** OnDefaultResponse: the HCI status only, once there is a byte after the header. */
  function OnDefaultResponse(m: seq<bv8>): (r: Outcome)
    ensures r.handled <==> |m| >= 3
    ensures r.handled ==> r.fields == [Text("Status", StatusText(m[StatusIndex]))]
    ensures !r.handled ==> r.fields == []
  {
    if PayloadLength(m) >= 1 then Outcome(true, [StatusField(m)]) else Unhandled
  }

  /** OnStartupIndication: device info and firmware info, once the payload is long enough for both. */
  function OnStartupIndication(m: seq<bv8>): (r: Outcome)
    ensures r.handled <==> |m| >= HeaderSize + ReservedInfoSize + DeviceInfoSize + FirmwareInfoMinSize
    ensures r.handled ==> r.fields == [Detail("Device Info"), Detail("Firmware Info")]
    ensures !r.handled ==> r.fields == []
  {
    if PayloadLength(m) < ReservedInfoSize + DeviceInfoSize + FirmwareInfoMinSize then Unhandled
    else Outcome(true, [Detail("Device Info"), Detail("Firmware Info")])
  }

  /** The shape shared by the four responses with a guard and details: status, then details when Ok. */
  function StatusThen(m: seq<bv8>, minLength: nat, details: seq<Field>): (r: Outcome)
    ensures r.handled <==> |m| >= StatusIndex + 1 + minLength
    ensures r.handled ==> |r.fields| >= 1 && r.fields[0] == Text("Status", StatusText(m[StatusIndex]))
    ensures r.handled ==> r.fields[1..] == if m[StatusIndex] == Ok then details else []
    ensures !r.handled ==> r.fields == []
  {
    if ResponsePayloadLength(m) < minLength then Unhandled
    else Outcome(true, [StatusField(m)] + if StatusOf(m) == Ok then details else [])
  }

  /** OnDeviceInfoResponse. */
  function OnDeviceInfoResponse(m: seq<bv8>): (r: Outcome)
    ensures r.handled <==> |m| >= 16
    ensures r.handled ==> |r.fields| >= 1 && r.fields[0] == Text("Status", StatusText(m[StatusIndex]))
    ensures r.handled ==> r.fields[1..] == if m[StatusIndex] == Ok then [Detail("Device Info")] else []
    ensures !r.handled ==> r.fields == []
  {
    StatusThen(m, DeviceInfoSize, [Detail("Device Info")])
  }

  /** OnFirmwareVersionResponse. */
  function OnFirmwareVersionResponse(m: seq<bv8>): (r: Outcome)
    ensures r.handled <==> |m| >= 18
    ensures r.handled ==> |r.fields| >= 1 && r.fields[0] == Text("Status", StatusText(m[StatusIndex]))
    ensures r.handled ==> r.fields[1..] == if m[StatusIndex] == Ok then [Detail("Firmware Info")] else []
    ensures !r.handled ==> r.fields == []
  {
    StatusThen(m, FirmwareInfoMinSize, [Detail("Firmware Info")])
  }

  /** OnDateTimeResponse. */
  function OnDateTimeResponse(m: seq<bv8>): (r: Outcome)
    ensures r.handled <==> |m| >= 7
    ensures r.handled ==> |r.fields| >= 1 && r.fields[0] == Text("Status", StatusText(m[StatusIndex]))
    ensures r.handled ==> r.fields[1..] == if m[StatusIndex] == Ok then [Detail("Date Time Info")] else []
    ensures !r.handled ==> r.fields == []
  {
    StatusThen(m, 4, [Detail("Date Time Info")])
  }

  /** `(options & bit) ? "on" : "off"`. */
  function OnOff(options: bv32, bit: bv32): string {
    if options & bit != 0 then "on" else "off"
  }

  /** The five option entries of a system options response, in the order they are appended. */
  function OptionFields(options: bv32): seq<Field> {
    [Text("System Options.Options.APS", OnOff(options, SoAps)),
     Text("System Options.Options.Trace", OnOff(options, SoTrace)),
     Text("System Options.Options.RTC", OnOff(options, SoRtc)),
     Text("System Options.Options.WatchDog", OnOff(options, SoWatchDog)),
     Text("System Options.Options.Startup Event", OnOff(options, SoStartupEvent))]
  }

  /** OnSystemOptionsResponse: the options word follows the status byte. */
  function OnSystemOptionsResponse(m: seq<bv8>): (r: Outcome)
    ensures r.handled <==> |m| >= 7
    ensures r.handled ==> |r.fields| >= 1 && r.fields[0] == Text("Status", StatusText(m[StatusIndex]))
    ensures r.handled && m[StatusIndex] == Ok ==> |r.fields| == 6
    ensures r.handled && m[StatusIndex] != Ok ==> |r.fields| == 1
    ensures !r.handled ==> r.fields == []
  {
    StatusThen(m, 4, OptionFields(U32At(m, ResponseDataIndex)))
  }

  /** `(this->*handler)(serialMsg, result)`. */
  function Handle(h: Handler, m: seq<bv8>): Outcome {
    match h
    case NoHandler => Unhandled
    case DefaultResponse => OnDefaultResponse(m)
    case StartupIndication => OnStartupIndication(m)
    case DeviceInfoResponse => OnDeviceInfoResponse(m)
    case FirmwareVersionResponse => OnFirmwareVersionResponse(m)
    case DateTimeResponse => OnDateTimeResponse(m)
    case SystemOptionsResponse => OnSystemOptionsResponse(m)
  }

  /**
   * OnDecodeMessage: with a handler for the message id, an "Event" entry
   * naming it, then whatever the handler decides; without one, an error entry,
   * and the message still counts as handled. That includes the 0xFF id of a
   * message too short for a header. Every handled id has an event name, so
   * "unknown handler name" is never used.
   */
  function OnDecodeMessage(m: seq<bv8>): (r: Outcome)
    ensures MsgIdOf(m) in Handlers ==>
              var h := ValueOr(Handlers, MsgIdOf(m), NoHandler);
              var name := ValueOr(EventNames, MsgIdOf(m), "unknown handler name");
              h != NoHandler && name != "unknown handler name" &&
              r.handled == Handle(h, m).handled &&
              r.fields == [Text("Event", name)] + Handle(h, m).fields
    ensures MsgIdOf(m) !in Handlers ==> r == Outcome(true, [UnsupportedMsgId(MsgIdOf(m))])
    ensures |m| < HeaderSize ==> r == Outcome(true, [UnsupportedMsgId(Invalid)])
  {
    var id := MsgIdOf(m);
    var h := ValueOr(Handlers, id, NoHandler);
    if h != NoHandler then
      var r := Handle(h, m);
      Outcome(r.handled, [Text("Event", ValueOr(EventNames, id, "unknown handler name"))] + r.fields)
    else Outcome(true, [UnsupportedMsgId(id)])
  }

  /** Responses and the startup indication have handlers; no request id and no other id has one. */
  lemma HandledIds(id: bv8)
    ensures ValueOr(Handlers, id, NoHandler) != NoHandler <==>
              id in {StartupInd, PingRsp, GetDeviceInfoRsp, GetFirmwareVersionRsp, RestartDeviceRsp,
                     SetDateTimeRsp, GetDateTimeRsp, SetSystemOptionsRsp, GetSystemOptionsRsp}
    ensures id in {PingReq, GetDeviceInfoReq, GetFirmwareVersionReq, RestartDeviceReq, SetDateTimeReq,
                   GetDateTimeReq, SetSystemOptionsReq, GetSystemOptionsReq} ==>
              ValueOr(Handlers, id, NoHandler) == NoHandler
  {
  }

  /** Every id with a handler has an event name, so "unknown handler name" is never used. */
  lemma EventNamesCoverHandlers()
    ensures Handlers.Keys == EventNames.Keys
  {
  }

  /** The shortest message, header and status included, each handler accepts. */
  function MinMessageLength(h: Handler): nat {
    match h
    case NoHandler => 0
    case DefaultResponse => 3
    case StartupIndication => 30
    case DeviceInfoResponse => 16
    case FirmwareVersionResponse => 18
    case DateTimeResponse => 7
    case SystemOptionsResponse => 7
  }

  /** Each handler's payload guard, restated in whole-message bytes: it handles exactly the long-enough messages. */
  lemma HandlerGuard(h: Handler, m: seq<bv8>)
    requires h != NoHandler
    ensures Handle(h, m).handled <==> |m| >= MinMessageLength(h)
    ensures !Handle(h, m).handled ==> Handle(h, m).fields == []
  {
  }

  /**
   * A handled response of the four guarded kinds starts with its status text;
   * details follow exactly when the status is Ok.
   */
  lemma DetailsOnlyWhenOk(h: Handler, m: seq<bv8>)
    requires h in {DeviceInfoResponse, FirmwareVersionResponse, DateTimeResponse, SystemOptionsResponse}
    requires Handle(h, m).handled
    ensures |Handle(h, m).fields| >= 1 && Handle(h, m).fields[0] == Text("Status", StatusText(m[StatusIndex]))
    ensures |Handle(h, m).fields| > 1 <==> m[StatusIndex] == Ok
  {
  }

  /** Whether bit k (0..4) of the options byte that starts the response data is set. */
  predicate OptionBit(m: seq<bv8>, k: nat)
    requires |m| > ResponseDataIndex && k < 5
  {
    (m[ResponseDataIndex] >> k) & 1 == 1
  }

  /**
   * In a handled system-options response with status Ok, APS, Trace, RTC,
   * WatchDog and Startup Event read "on" exactly when bit 0, 1, 2, 3 or 4 of
   * the first response-data byte is set.
   */
  lemma SystemOptionFlags(m: seq<bv8>)
    requires OnSystemOptionsResponse(m).handled && m[StatusIndex] == Ok
    ensures |m| >= 7 && |OnSystemOptionsResponse(m).fields| == 6
    ensures forall k :: 0 <= k < 5 ==>
              OnSystemOptionsResponse(m).fields[k + 1].value == (if OptionBit(m, k) then "on" else "off")
  {
    var o := U32At(m, ResponseDataIndex);
    var fs := OnSystemOptionsResponse(m).fields;
    assert fs == [StatusField(m)] + OptionFields(o);
    LowBits(m[3], m[4], m[5], m[6]);
    forall k | 0 <= k < 5
      ensures fs[k + 1].value == (if OptionBit(m, k) then "on" else "off")
    {
      assert fs[k + 1] == OptionFields(o)[k];
    }
  }

  /** The low five bits of a little-endian word are those of its first byte. */
  lemma LowBits(b0: bv8, b1: bv8, b2: bv8, b3: bv8)
    ensures var o := (b0 as bv32) | ((b1 as bv32) << 8) | ((b2 as bv32) << 16) | ((b3 as bv32) << 24);
      (o & SoAps != 0 <==> (b0 >> 0) & 1 == 1) &&
      (o & SoTrace != 0 <==> (b0 >> 1) & 1 == 1) &&
      (o & SoRtc != 0 <==> (b0 >> 2) & 1 == 1) &&
      (o & SoWatchDog != 0 <==> (b0 >> 3) & 1 == 1) &&
      (o & SoStartupEvent != 0 <==> (b0 >> 4) & 1 == 1)
  {
  }

  /** Whether the option list turns an option on ("X = on") or names it at all ("X = on" or "X = off"). */
  predicate TurnsOn(optList: seq<string>, name: string) {
    name + " = on" in optList
  }
  predicate Mentions(optList: seq<string>, name: string) {
    name + " = on" in optList || name + " = off" in optList
  }

  /**
   * OnSetSystemOptions' mask and options, built by the `|=` updates: "on"
   * sets both bits and is checked first, "off" sets the mask bit only.
   */
  method SystemOptionsWords(optList: seq<string>) returns (mask: bv32, options: bv32)
    ensures mask & SoTrace != 0 <==> Mentions(optList, "Trace")
    ensures options & SoTrace != 0 <==> TurnsOn(optList, "Trace")
    ensures mask & SoStartupEvent != 0 <==> Mentions(optList, "Startup Event")
    ensures options & SoStartupEvent != 0 <==> TurnsOn(optList, "Startup Event")
    ensures mask & !(SoTrace | SoStartupEvent) == 0
    ensures options & !mask == 0
  {
    assert "Trace" + " = on" == "Trace = on" && "Trace" + " = off" == "Trace = off";
    assert "Startup Event" + " = on" == "Startup Event = on" && "Startup Event" + " = off" == "Startup Event = off";
    mask := 0;
    options := 0;
    if "Trace = on" in optList {
      mask := mask | SoTrace;
      options := options | SoTrace;
    } else if "Trace = off" in optList {
      mask := mask | SoTrace;
    }
    if "Startup Event = on" in optList {
      mask := mask | SoStartupEvent;
      options := options | SoStartupEvent;
    } else if "Startup Event = off" in optList {
      mask := mask | SoStartupEvent;
    }
  }

  /** The SAP object DeviceManagement constructs: SAP id 0x01 and the default of no wakeup characters. */
  const DeviceSap := Sap(SapId, 0)

  /**
   * OnSetSystemOptions(params) up to the port write, with the option list
   * already split out of params["Options"]: the request header, mask, options
   * and CRC (appended in place), sent as SendMessage does.
   */
  method OnSetSystemOptions(optList: seq<string>) returns (request: seq<bv8>, mask: bv32, options: bv32)
    ensures mask & SoTrace != 0 <==> Mentions(optList, "Trace")
    ensures options & SoTrace != 0 <==> TurnsOn(optList, "Trace")
    ensures mask & SoStartupEvent != 0 <==> Mentions(optList, "Startup Event")
    ensures options & SoStartupEvent != 0 <==> TurnsOn(optList, "Startup Event")
    ensures var m := Header(SapId, SetSystemOptionsReq) + U32Bytes(mask) + U32Bytes(options);
      request == m + CrcBytes(m)
    ensures U32At(request, 2) == mask && U32At(request, 6) == options
  {
    mask, options := SystemOptionsWords(optList);
    var msg := new SerialMessage(SapId, SetSystemOptionsReq);
    msg.AppendU32(mask);
    msg.AppendU32(options);
    ghost var m := msg.bytes;
    var _ := SendMessage(DeviceSap, msg);
    request := msg.bytes;
    U32RoundTrip(Header(SapId, SetSystemOptionsReq), mask, U32Bytes(options) + CrcBytes(m));
    U32RoundTrip(Header(SapId, SetSystemOptionsReq) + U32Bytes(mask), options, CrcBytes(m));
    assert request == Header(SapId, SetSystemOptionsReq) + U32Bytes(mask) + (U32Bytes(options) + CrcBytes(m));
  }

  /**
   * OnSetDateTime() up to the port write, with the clock reading passed in as
   * `secondsSinceEpoch`: the request header, that uint32 little-endian and the
   * CRC, sent as SendMessage does.
   */
  method OnSetDateTime(secondsSinceEpoch: bv32) returns (request: seq<bv8>)
    ensures var m := Header(SapId, SetDateTimeReq) + U32Bytes(secondsSinceEpoch);
      request == m + CrcBytes(m)
    ensures SapIdOf(request) == SapId && MsgIdOf(request) == SetDateTimeReq
    ensures U32At(request, 2) == secondsSinceEpoch
  {
    var msg := new SerialMessage(SapId, SetDateTimeReq);
    msg.AppendU32(secondsSinceEpoch);
    ghost var m := msg.bytes;
    var _ := SendMessage(DeviceSap, msg);
    request := msg.bytes;
    U32RoundTrip(Header(SapId, SetDateTimeReq), secondsSinceEpoch, CrcBytes(m));
  }

  /** The decoders of this program's registry: DeviceManagement's own, and the base class's for any other SAP. */
  function Decoders(s: Sap, m: seq<bv8>): Outcome {
    if s == DeviceSap then OnDecodeMessage(m) else Unhandled
  }

  /**
   * End to end, a well-formed ping response with its CRC, received by a
   * registry whose newest SAP is DeviceManagement, is handled and yields the
   * event name and the status text.
   */
  lemma PingResponseDispatched(saps: seq<Sap>, status: bv8)
    ensures var m := [SapId, PingRsp, status];
      Dispatched([DeviceSap] + saps, m + CrcBytes(m), Decoders) ==
        Outcome(true, [Text("Event", "ping device response"), Text("Status", StatusText(status))])
  {
    var m := [SapId, PingRsp, status];
    NewestSapWins(DeviceSap, saps, m, Decoders);
  }
}
