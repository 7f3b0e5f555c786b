/**
 * Service access points: the registry every SAP joins on construction, the
 * dispatch of an incoming message to the first SAP with its SAP id, and the
 * send path (CRC, wakeup characters, SLIP framing).
 *
 * The static list head `_First` and the `_Next` links become the `saps`
 * sequence of a Registry, head first. A SAP's virtual OnDecodeMessage is a
 * parameter `decode` of dispatch: the subclass decoders are outside this
 * module (DeviceManagement supplies one).
 */
module ServiceAccessPoints {
  import opened Options
  import opened ByteArrays
  import opened Crc16
  import Slip
  import opened SerialMessages

  /** One entry a decoder adds to the caller's result dictionary. */
  datatype Field =
    | Text(key: string, value: string)
    /** a nested dictionary whose text rendering is not modelled */
    | Detail(key: string)
    /** the "unsupported MsgID: <id> received" error text */
    | UnsupportedMsgId(msgID: bv8)

  /** What OnDecodeMessage returns, with the result entries it appended. */
  datatype Outcome = Outcome(handled: bool, fields: seq<Field>)

  /** The base OnDecodeMessage, and every path that decodes nothing. */
  const Unhandled := Outcome(false, [])

  /** A service access point: its _SapID and _NumWakeupChars. */
  datatype Sap = Sap(sapID: bv8, numWakeupChars: int)

  /** The walk of the list from position k: the first SAP with this id. */
  function FindSap(saps: seq<Sap>, id: bv8, k: nat): (r: Option<nat>)
    ensures r.Some? ==> k <= r.value < |saps|
    decreases |saps| - k
  {
    if k >= |saps| then None
    else if saps[k].sapID == id then Some(k)
    else FindSap(saps, id, k + 1)
  }

  /** The walk finds the first SAP from k on with the id, and finds none exactly when there is none. */
  lemma {:induction false} FindSapSpec(saps: seq<Sap>, id: bv8, k: nat)
    ensures FindSap(saps, id, k).Some? ==>
              var i := FindSap(saps, id, k).value;
              k <= i < |saps| && saps[i].sapID == id &&
              forall j :: k <= j < i ==> saps[j].sapID != id
    ensures FindSap(saps, id, k).None? <==> forall j :: k <= j < |saps| ==> saps[j].sapID != id
    decreases |saps| - k
  {
    if k < |saps| && saps[k].sapID != id {
      FindSapSpec(saps, id, k + 1);
    }
  }

  /**
   * OnDispatchMessage on the bytes received: a bad CRC decodes nothing;
   * otherwise the CRC is stripped and the first SAP with the message's SAP
   * id decodes it; with no such SAP nothing is decoded.
   */
  function Dispatched(saps: seq<Sap>, m: seq<bv8>, decode: (Sap, seq<bv8>) -> Outcome): Outcome {
    if !CheckX25(m) then Unhandled
    else
      var body := WithoutCrc(m);
      match FindSap(saps, SapIdOf(body), 0)
      case None => Unhandled
      case Some(i) => decode(saps[i], body)
  }

  /** A message failing CheckCRC16 is never handed to a decoder. */
  lemma DispatchNeedsCrc(saps: seq<Sap>, m: seq<bv8>, decode: (Sap, seq<bv8>) -> Outcome)
    requires !CheckX25(m)
    ensures Dispatched(saps, m, decode) == Unhandled
  {
  }

  /**
   * A message sent with its CRC reaches the first registered SAP with its SAP
   * id, which decodes exactly the message as built; when no SAP has that id,
   * nothing is decoded.
   */
  lemma DispatchSent(saps: seq<Sap>, m: seq<bv8>, decode: (Sap, seq<bv8>) -> Outcome)
    requires |m| >= HeaderSize
    ensures FindSap(saps, SapIdOf(m), 0).Some? ==>
              Dispatched(saps, m + CrcBytes(m), decode) == decode(saps[FindSap(saps, SapIdOf(m), 0).value], m)
    ensures (forall j :: 0 <= j < |saps| ==> saps[j].sapID != SapIdOf(m)) ==>
              Dispatched(saps, m + CrcBytes(m), decode) == Unhandled
  {
    CrcRoundTrip(m);
    FindSapSpec(saps, SapIdOf(m), 0);
  }

  /** The SAP constructed last shadows every earlier SAP with the same id. */
  lemma NewestSapWins(s: Sap, saps: seq<Sap>, m: seq<bv8>, decode: (Sap, seq<bv8>) -> Outcome)
    requires |m| >= HeaderSize && SapIdOf(m) == s.sapID
    ensures Dispatched([s] + saps, m + CrcBytes(m), decode) == decode(s, m)
  {
    DispatchSent([s] + saps, m, decode);
  }

  /** _First and the chain of _Next links. */
  class Registry {
    var saps: seq<Sap>

    /** Before any SAP is constructed the list is empty. */
    constructor ()
      ensures saps == []
    {
      saps := [];
    }

    /** The ServiceAccessPoint constructor: `_Next = _First; _First = this`. */
    method Register(s: Sap)
      modifies this
      ensures saps == [s] + old(saps)
    {
      saps := [s] + saps;
    }

    /** OnDispatchMessage(serialMsg, result): strips the CRC in place and walks the list. */
    method OnDispatchMessage(msg: SerialMessage, decode: (Sap, seq<bv8>) -> Outcome) returns (r: Outcome)
      modifies msg
      ensures msg.bytes == if CheckX25(old(msg.bytes)) then WithoutCrc(old(msg.bytes)) else old(msg.bytes)
      ensures r == Dispatched(saps, old(msg.bytes), decode)
    {
      if !msg.CheckCrc16() {
        return Unhandled;
      }
      msg.RemoveCrc16();
      var id := SapIdOf(msg.bytes);
      var i := 0;
      while i < |saps|
        invariant i <= |saps|
        invariant FindSap(saps, id, i) == FindSap(saps, id, 0)
        decreases |saps| - i
      {
        if saps[i].sapID == id {
          return decode(saps[i], msg.bytes);
        }
        i := i + 1;
      }
      return Unhandled;
    }
  }

  /** The wakeup characters: n Begin characters (none for n <= 0). */
  function Wakeups(n: int): (r: seq<bv8>)
    ensures |r| == if n > 0 then n else 0
    ensures forall i :: 0 <= i < |r| ==> r[i] == Slip.Begin
    decreases if n > 0 then n else 0
  {
    if n <= 0 then [] else Wakeups(n - 1) + [Slip.Begin]
  }

  /** What the send path writes for a message already carrying its CRC: wakeups, then the SLIP frame. */
  function Output(numWakeupChars: int, wire: seq<bv8>): seq<bv8> {
    Wakeups(numWakeupChars) + Slip.Encode(wire)
  }

  /** One append, traced against the bytes appended so far. */
  method AppendTraced(out: ByteArray, x: bv8, ghost b0: Buf, ghost done: seq<bv8>)
    requires out.Valid() && BufValid(b0) && out.Model() == AppendedAll(b0, done)
    modifies out, out.data
    ensures out.Valid() && out.Model() == AppendedAll(b0, done + [x])
  {
    var _ := out.Append(x);
    assert (done + [x])[..|done|] == done;
  }

  /**
   * `i` of the wakeup loop after k increments: a uint8_t, so it wraps at 256.
   * The loop runs while `i < _NumWakeupChars`, an int.
   */
  function WakeupCounter(k: nat): (i: nat)
    decreases k
  {
    if k == 0 then 0 else (WakeupCounter(k - 1) + 1) % 256
  }

  /** The uint8_t counter after k increments is k modulo 256. */
  lemma {:induction false} WakeupCounterWraps(k: nat)
    ensures WakeupCounter(k) == k % 256
    decreases k
  {
    if k > 0 {
      WakeupCounterWraps(k - 1);
      assert ((k - 1) % 256 + 1) % 256 == k % 256;
    }
  }

  /**
   * As written, a SAP with 256 or more wakeup characters never leaves the
   * wakeup loop: after any number of increments the counter is still below
   * `_NumWakeupChars`.
   */
  lemma WakeupLoopNeverEnds(numWakeupChars: int, k: nat)
    requires numWakeupChars >= 256
    ensures WakeupCounter(k) < numWakeupChars
  {
    WakeupCounterWraps(k);
  }

  /**
   * SendMessage's wakeup loop followed by SlipEncoder::Encode, each byte
   * through ByteArray::append. The loop counter here is an int, as wide as
   * `_NumWakeupChars`, so the loop ends for every count.
   */
  method EncodeOutput(out: ByteArray, numWakeupChars: int, wire: seq<bv8>)
    requires out.Valid()
    modifies out, out.data
    ensures out.Valid() && out.Model() == AppendedAll(old(out.Model()), Output(numWakeupChars, wire))
  {
    ghost var b0 := out.Model();
    var i := 0;
    while i < numWakeupChars
      invariant out.Valid() && 0 <= i && (numWakeupChars > 0 ==> i <= numWakeupChars)
      invariant numWakeupChars <= 0 ==> i == 0
      invariant out.Model() == AppendedAll(b0, Wakeups(i))
      decreases numWakeupChars - i
    {
      AppendTraced(out, Slip.Begin, b0, Wakeups(i));
      i := i + 1;
    }
    assert Wakeups(i) == Wakeups(numWakeupChars);
    EncodeInto(out, wire, b0, Wakeups(numWakeupChars));
  }

  /** SlipEncoder::Encode(output, input): END, each byte escaped, END, appended to `out`. */
  method EncodeInto(out: ByteArray, input: seq<bv8>, ghost b0: Buf, ghost done: seq<bv8>)
    requires out.Valid() && BufValid(b0) && out.Model() == AppendedAll(b0, done)
    modifies out, out.data
    ensures out.Valid() && out.Model() == AppendedAll(b0, done + Slip.Encode(input))
  {
    AppendTraced(out, Slip.End, b0, done);
    ghost var acc := done + [Slip.End];
    assert Slip.Escape(input[..0]) == [];
    assert acc + Slip.Escape(input[..0]) == acc;
    var i := 0;
    while i < |input|
      invariant out.Valid() && i <= |input|
      invariant acc == done + [Slip.End] + Slip.Escape(input[..i])
      invariant out.Model() == AppendedAll(b0, acc)
    {
      EncodeByteInto(out, input[i], b0, acc);
      EscapeSnoc(input, i, done + [Slip.End]);
      acc := acc + Slip.EscapeByte(input[i]);
      i := i + 1;
    }
    assert input[..i] == input;
    AppendTraced(out, Slip.End, b0, acc);
    EncodeClosed(done, input, acc);
  }

  /** The bytes traced by EncodeInto, once the closing END is appended, are the RFC 1055 frame. */
  lemma EncodeClosed(done: seq<bv8>, input: seq<bv8>, acc: seq<bv8>)
    requires acc == done + [Slip.End] + Slip.Escape(input)
    ensures acc + [Slip.End] == done + Slip.Encode(input)
  {
  }

  /** One byte of the encoder's switch: END and ESC as their two-byte escapes, any other byte as itself. */
  method EncodeByteInto(out: ByteArray, x: bv8, ghost b0: Buf, ghost pre: seq<bv8>)
    requires out.Valid() && BufValid(b0) && out.Model() == AppendedAll(b0, pre)
    modifies out, out.data
    ensures out.Valid() && out.Model() == AppendedAll(b0, pre + Slip.EscapeByte(x))
  {
    if x == Slip.End {
      AppendTraced(out, Slip.Esc, b0, pre);
      AppendTraced(out, Slip.EscEnd, b0, pre + [Slip.Esc]);
      assert pre + [Slip.Esc] + [Slip.EscEnd] == pre + Slip.EscapeByte(x);
    } else if x == Slip.Esc {
      AppendTraced(out, Slip.Esc, b0, pre);
      AppendTraced(out, Slip.EscEsc, b0, pre + [Slip.Esc]);
      assert pre + [Slip.Esc] + [Slip.EscEsc] == pre + Slip.EscapeByte(x);
    } else {
      AppendTraced(out, x, b0, pre);
    }
  }

  /** Escaping one more byte of the input appends its escape. */
  lemma EscapeSnoc(input: seq<bv8>, i: nat, prefix: seq<bv8>)
    requires i < |input|
    ensures prefix + Slip.Escape(input[..i]) + Slip.EscapeByte(input[i]) == prefix + Slip.Escape(input[..i + 1])
  {
    assert input[..i + 1][..i] == input[..i];
  }

  /**
   * SendMessage(serialMsg) as written: the CRC is appended to the caller's
   * message, but the output is a default-constructed ByteArray of capacity 0,
   * so every append of the wakeup loop and of the encoder is refused and the
   * port is handed nothing. From 256 wakeup characters on, the uint8_t loop
   * counter never ends the loop (WakeupLoopNeverEnds), so only fewer are sent.
   */
  method SendMessage(s: Sap, msg: SerialMessage) returns (output: ByteArray)
    requires s.numWakeupChars < 256
    modifies msg
    ensures msg.bytes == old(msg.bytes) + CrcBytes(old(msg.bytes))
    ensures fresh(output) && output.Valid() && output.Size() == 0 && output.Contents() == []
  {
    output := new ByteArray.Empty();
    msg.AppendCrc16();
    EncodeOutput(output, s.numWakeupChars, msg.bytes);
  }

  /** SendMessage(reqID) as written: a header-only request sent through SendMessage(serialMsg). */
  method SendRequest(s: Sap, reqID: bv8) returns (output: ByteArray)
    requires s.numWakeupChars < 256
    ensures fresh(output) && output.Valid() && output.Contents() == []
  {
    var msg := new SerialMessage(s.sapID, reqID);
    output := SendMessage(s, msg);
  }

  /**
   * SendMessage(serialMsg) as evidently intended: the output buffer has room
   * for every byte and the wakeup counter is as wide as `_NumWakeupChars`, so
   * it holds the wakeup characters and the SLIP frame of the message with its
   * CRC.
   */
  method SendMessageCorrected(s: Sap, msg: SerialMessage) returns (output: ByteArray)
    requires (if s.numWakeupChars > 0 then s.numWakeupChars else 0) + 2 * |msg.bytes| + 6 <= MaxU16
    modifies msg
    ensures msg.bytes == old(msg.bytes) + CrcBytes(old(msg.bytes))
    ensures fresh(output) && output.Valid()
    ensures output.Contents() == Output(s.numWakeupChars, msg.bytes)
  {
    var wakeups := if s.numWakeupChars > 0 then s.numWakeupChars else 0;
    output := new ByteArray(wakeups + 2 * |msg.bytes| + 6);
    msg.AppendCrc16();
    ghost var b0 := output.Model();
    EncodeOutput(output, s.numWakeupChars, msg.bytes);
    AppendedAllFromEmpty(b0, Output(s.numWakeupChars, msg.bytes));
  }

  /** SendMessage(reqID) as evidently intended. */
  method SendRequestCorrected(s: Sap, reqID: bv8) returns (output: ByteArray)
    requires s.numWakeupChars + 10 <= MaxU16
    ensures fresh(output) && output.Valid()
    ensures output.Contents() == Output(s.numWakeupChars, Header(s.sapID, reqID) + CrcBytes(Header(s.sapID, reqID)))
  {
    var msg := new SerialMessage(s.sapID, reqID);
    output := SendMessageCorrected(s, msg);
  }

  /** Wakeup characters only open an empty frame: the decoder skips them without a notification. */
  lemma {:induction false} WakeupsOpenFrame(hasClient: bool, d: Slip.Decoding, n: int)
    requires Slip.DecodingValid(d)
    requires d.state == Slip.Initial || (d.state == Slip.InFrame && d.out.count == 0)
    ensures n <= 0 ==> Slip.Run(hasClient, d, Wakeups(n)) == d
    ensures n > 0 ==> Slip.Run(hasClient, d, Wakeups(n)) == Slip.Decoding(Slip.InFrame, Cleared(d.out), d.frames)
    decreases if n > 0 then n else 0
  {
    if n > 0 {
      WakeupsOpenFrame(hasClient, d, n - 1);
      assert Wakeups(n)[..n - 1] == Wakeups(n - 1);
    }
  }

  /**
   * The send path and the receive path agree: the bytes the intended send path
   * writes for a message, run through a SLIP decoder that starts outside a
   * frame and has room for the message and its CRC, hand the client exactly the
   * message with its CRC, which dispatch then gives to the first SAP with the
   * message's SAP id, CRC removed.
   */
  lemma SendThenReceive(s: Sap, m: seq<bv8>, d: Slip.Decoding, saps: seq<Sap>, decode: (Sap, seq<bv8>) -> Outcome)
    requires Slip.DecodingValid(d) && d.state == Slip.Initial
    requires |m| >= HeaderSize && |m| + CrcSize <= |d.out.bytes|
    requires FindSap(saps, SapIdOf(m), 0).Some?
    ensures Slip.Run(true, d, Output(s.numWakeupChars, m + CrcBytes(m))).frames == d.frames + [m + CrcBytes(m)]
    ensures Dispatched(saps, m + CrcBytes(m), decode) == decode(saps[FindSap(saps, SapIdOf(m), 0).value], m)
  {
    var wire := m + CrcBytes(m);
    Slip.RunAppend(true, d, Wakeups(s.numWakeupChars), Slip.Encode(wire));
    WakeupsOpenFrame(true, d, s.numWakeupChars);
    Slip.FrameDecodes(true, Slip.Run(true, d, Wakeups(s.numWakeupChars)), wire);
    DispatchSent(saps, m, decode);
  }
}
