/**
 * HCI serial messages as the service access points build, check and strip
 * them: byte 0 is the SAP id, byte 1 the message id, then the payload (in a
 * response, its first byte is the status), and on the wire a trailing
 * CRC-16/X.25, least significant byte first.
 *
 * The SerialMessage class of the Arduino tree is not part of this model. The
 * header layout, Status_Index, the 0xFF / -1 defaults of short messages and
 * the byte order follow the same class of the Qt example tree
 * (Example Code1/RadioHub/Utils/SerialMessage.cpp). That class has no
 * GetResponsePayloadLength, EventData_Index or ResponseData_Index, which
 * DeviceManagement.cpp and the LoRaMeshRouter of Example Code2 call. Their
 * values here are a choice that matches how those callers use them: event
 * data from byte 2, response data from byte 3 (just after the status) and a
 * response payload of everything after the status, count - 3. The byte
 * thresholds of the guarded response decoders (16, 18, 7 and 7) follow from
 * that choice.
 */
module SerialMessages {
  import opened Crc16

  /** SapID_Index, MsgID_Index and Header_Size. */
  const SapIdIndex: nat := 0
  const MsgIdIndex: nat := 1
  const HeaderSize: nat := 2
  /** CRC_Size, and Min_Size: the shortest message that carries a CRC. */
  const CrcSize: nat := 2
  const MinSize: nat := HeaderSize + CrcSize
  /** Status_Index: the status byte of a response. */
  const StatusIndex: nat := 2
  /** Where the data of an event and of a response start. */
  const EventDataIndex: nat := 2
  const ResponseDataIndex: nat := 3
  /** InvalidSapID, InvalidMsgID and InvalidStatus. */
  const Invalid: bv8 := 0xFF
  /** InvalidLength. */
  const InvalidLength: int := -1

  /** SerialMessage(sapID, msgID): the two header bytes and nothing else. */
  function Header(sapID: bv8, msgID: bv8): seq<bv8> {
    [sapID, msgID]
  }

  /** GetSapID(). */
  function SapIdOf(m: seq<bv8>): bv8 {
    if |m| >= HeaderSize then m[SapIdIndex] else Invalid
  }

  /** GetMsgID(). */
  function MsgIdOf(m: seq<bv8>): bv8 {
    if |m| >= HeaderSize then m[MsgIdIndex] else Invalid
  }

  /** GetResponseStatus(). */
  function StatusOf(m: seq<bv8>): bv8 {
    if |m| > StatusIndex then m[StatusIndex] else Invalid
  }

  /** GetPayloadLength(): everything after the header. */
  function PayloadLength(m: seq<bv8>): int {
    if |m| >= HeaderSize then |m| - HeaderSize else InvalidLength
  }

  /** GetResponsePayloadLength(): everything after the status byte. */
  function ResponsePayloadLength(m: seq<bv8>): int {
    if |m| > StatusIndex then |m| - StatusIndex - 1 else InvalidLength
  }

  /** GetU8(index): 0 when the message is too short. */
  function U8At(m: seq<bv8>, i: nat): bv8 {
    if |m| >= i + 1 then m[i] else 0
  }

  /** GetU32(index): four bytes, least significant first; 0 when the message is too short. */
  function U32At(m: seq<bv8>, i: nat): bv32 {
    if |m| >= i + 4 then
      (m[i] as bv32) | ((m[i + 1] as bv32) << 8) | ((m[i + 2] as bv32) << 16) | ((m[i + 3] as bv32) << 24)
    else 0
  }

  /** The bytes Append(uint32_t) adds, least significant first. */
  function U32Bytes(v: bv32): (r: seq<bv8>)
    ensures |r| == 4
  {
    [(v & 0xFF) as bv8, ((v >> 8) & 0xFF) as bv8, ((v >> 16) & 0xFF) as bv8, ((v >> 24) & 0xFF) as bv8]
  }

  /** RemoveCRC16(): the trailing two bytes go, but only from a message of at least Min_Size. */
  function WithoutCrc(m: seq<bv8>): seq<bv8> {
    if |m| >= MinSize then m[..|m| - CrcSize] else m
  }

  /** A fresh request carries its SAP id and message id, no payload and no status. */
  lemma HeaderFields(sapID: bv8, msgID: bv8)
    ensures SapIdOf(Header(sapID, msgID)) == sapID && MsgIdOf(Header(sapID, msgID)) == msgID
    ensures PayloadLength(Header(sapID, msgID)) == 0
    ensures StatusOf(Header(sapID, msgID)) == Invalid
  {
  }

  /** Appending to a message with a header leaves its header and status alone. */
  lemma AppendKeepsHeader(m: seq<bv8>, extra: seq<bv8>)
    requires |m| >= HeaderSize
    ensures SapIdOf(m + extra) == SapIdOf(m) && MsgIdOf(m + extra) == MsgIdOf(m)
    ensures |m| > StatusIndex ==> StatusOf(m + extra) == StatusOf(m)
    ensures PayloadLength(m + extra) == PayloadLength(m) + |extra|
  {
  }

  /** GetU32 reads back what Append(uint32_t) wrote, wherever it was written. */
  lemma U32RoundTrip(m: seq<bv8>, v: bv32, rest: seq<bv8>)
    ensures U32At(m + U32Bytes(v) + rest, |m|) == v
  {
    var s := m + U32Bytes(v) + rest;
    var b := U32Bytes(v);
    assert s[|m|] == b[0] && s[|m| + 1] == b[1] && s[|m| + 2] == b[2] && s[|m| + 3] == b[3];
    U32Bytes32(v);
  }

  /** The four bytes of a 32-bit value put back together. */
  lemma U32Bytes32(v: bv32)
    ensures var b := U32Bytes(v);
      (b[0] as bv32) | ((b[1] as bv32) << 8) | ((b[2] as bv32) << 16) | ((b[3] as bv32) << 24) == v
  {
  }

  /** A message with its CRC appended passes CheckCRC16, and RemoveCRC16 gives it back unchanged. */
  lemma CrcRoundTrip(m: seq<bv8>)
    requires |m| >= HeaderSize
    ensures CheckX25(m + CrcBytes(m))
    ensures WithoutCrc(m + CrcBytes(m)) == m
    ensures SapIdOf(WithoutCrc(m + CrcBytes(m))) == SapIdOf(m)
  {
    AppendedCrcChecks(m);
    assert (m + CrcBytes(m))[..|m|] == m;
  }

  /** A message too short to hold a CRC is left as it is by RemoveCRC16. */
  lemma ShortKeepsBytes(m: seq<bv8>)
    requires |m| < MinSize
    ensures WithoutCrc(m) == m
  {
  }

  /** The message object: a growing byte string that the send and dispatch paths change in place. */
  class SerialMessage {
    var bytes: seq<bv8>

    /** SerialMessage(sapID, msgID): InitRequest on a fresh message. */
    constructor (sapID: bv8, msgID: bv8)
      ensures bytes == Header(sapID, msgID)
    {
      bytes := [sapID, msgID];
    }

    /** A message as received: the bytes of one deframed SLIP packet. */
    constructor Received(frame: seq<bv8>)
      ensures bytes == frame
    {
      bytes := frame;
    }

    /** Append(uint32_t): four bytes, least significant first. */
    method AppendU32(v: bv32)
      modifies this
      ensures bytes == old(bytes) + U32Bytes(v)
    {
      bytes := bytes + U32Bytes(v);
    }

    /** Append_CRC16(): the complemented CRC over the current bytes, least significant first. */
    method AppendCrc16()
      modifies this
      ensures bytes == old(bytes) + CrcBytes(old(bytes))
    {
      bytes := bytes + CrcBytes(bytes);
    }

    /**
     * CheckCRC16(): Check_X25 over every byte, trailing CRC included, so it
     * holds exactly when the residue comes out, in particular for any message
     * whose last two bytes are the CRC Append_CRC16 writes for the rest.
     */
    function CheckCrc16(): (r: bool)
      reads this
      ensures r <==> Calc(InitValue, bytes) == Residue
      ensures |bytes| >= 2 && bytes[|bytes| - 2..] == CrcBytes(bytes[..|bytes| - 2]) ==> r
    {
      if |bytes| >= 2 then
        assert bytes == bytes[..|bytes| - 2] + bytes[|bytes| - 2..];
        AppendedCrcChecks(bytes[..|bytes| - 2]);
        CheckX25(bytes)
      else CheckX25(bytes)
    }

    /** RemoveCRC16(). */
    method RemoveCrc16()
      modifies this
      ensures bytes == WithoutCrc(old(bytes))
    {
      if |bytes| >= MinSize {
        bytes := bytes[..|bytes| - CrcSize];
      }
    }
  }
}
