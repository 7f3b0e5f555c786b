/**
 * The SLIP deframer (class SlipDecoder): a three-state machine that strips the
 * framing of RFC 1055 ("A Nonstandard for Transmission of IP Datagrams over
 * Serial Lines") from an incoming byte stream into a caller-owned ByteArray,
 * and hands every completed non-empty frame to its client.
 *
 * The client callback is modelled as the sequence of frames handed to it, in
 * order; a null client is `hasClient == false`.
 */
module Slip {
  import opened ByteArrays

  /** The frame characters of RFC 1055. */
  const Begin: bv8 := 0xC0
  const End: bv8 := 0xC0
  const Esc: bv8 := 0xDB
  const EscEnd: bv8 := 0xDC
  const EscEsc: bv8 := 0xDD

  datatype State = Initial | InFrame | EscState

  /** The decoder state, the output buffer, and the frames the client has been handed so far. */
  datatype Decoding = Decoding(state: State, out: Buf, frames: seq<seq<bv8>>)

  predicate DecodingValid(d: Decoding) {
    BufValid(d.out)
  }

  /** One pass of the loop body of Decode: the switch on the state for input byte `x`. */
  function Step(hasClient: bool, d: Decoding, x: bv8): (r: Decoding)
    requires DecodingValid(d)
    ensures DecodingValid(r) && |r.out.bytes| == |d.out.bytes|
  {
    match d.state
    case Initial =>
      if x == Begin then Decoding(InFrame, Cleared(d.out), d.frames) else d
    case InFrame =>
      if x == End then
        Decoding(InFrame, Cleared(d.out),
                 if hasClient && d.out.count > 0 then d.frames + [BufContents(d.out)] else d.frames)
      else if x == Esc then d.(state := EscState)
      else d.(out := Appended(d.out, x))
    case EscState =>
      if x == EscEnd then Decoding(InFrame, Appended(d.out, End), d.frames)
      else if x == EscEsc then Decoding(InFrame, Appended(d.out, Esc), d.frames)
      else d.(state := Initial)
  }

  /** Feeding the bytes of `s` through Step, first byte first. */
  function Run(hasClient: bool, d: Decoding, s: seq<bv8>): (r: Decoding)
    requires DecodingValid(d)
    ensures DecodingValid(r) && |r.out.bytes| == |d.out.bytes|
    decreases |s|
  {
    if s == [] then d else Step(hasClient, Run(hasClient, d, s[..|s| - 1]), s[|s| - 1])
  }

  /** Feeding two pieces one after the other is feeding their concatenation. */
  lemma {:induction false} RunAppend(hasClient: bool, d: Decoding, a: seq<bv8>, b: seq<bv8>)
    requires DecodingValid(d)
    ensures Run(hasClient, d, a + b) == Run(hasClient, Run(hasClient, d, a), b)
    decreases |b|
  {
    if b == [] {
      assert a + b == a;
    } else {
      assert (a + b)[..|a + b| - 1] == a + b[..|b| - 1];
      RunAppend(hasClient, d, a, b[..|b| - 1]);
    }
  }

  /** RFC 1055 escaping of one data byte: END and ESC become two-byte escapes, all else is itself. */
  function EscapeByte(x: bv8): (r: seq<bv8>)
    ensures 1 <= |r| <= 2
    ensures End !in r
  {
    if x == End then [Esc, EscEnd] else if x == Esc then [Esc, EscEsc] else [x]
  }

  /** RFC 1055 escaping of a packet. */
  function Escape(p: seq<bv8>): (r: seq<bv8>)
    ensures End !in r
    ensures |p| <= |r| <= 2 * |p|
    decreases |p|
  {
    if p == [] then [] else Escape(p[..|p| - 1]) + EscapeByte(p[|p| - 1])
  }

  /** An RFC 1055 frame as the sender writes it: END, the escaped packet, END. */
  function Encode(p: seq<bv8>): (r: seq<bv8>)
    ensures |r| >= 2 && r[0] == End && r[|r| - 1] == End
    ensures End !in r[1..|r| - 1]
  {
    var r := [End] + Escape(p) + [End];
    assert r[1..|r| - 1] == Escape(p);
    r
  }

  /** The frames of a stream, encoded one after the other. */
  function EncodeAll(ps: seq<seq<bv8>>): seq<bv8>
    decreases |ps|
  {
    if ps == [] then [] else EncodeAll(ps[..|ps| - 1]) + Encode(ps[|ps| - 1])
  }

  /** Inside a frame, an escaped packet is appended to the output byte by byte, END and ESC unescaped. */
  lemma {:induction false} EscapedInFrame(hasClient: bool, d: Decoding, p: seq<bv8>)
    requires DecodingValid(d) && d.state == InFrame
    ensures Run(hasClient, d, Escape(p)) == Decoding(InFrame, AppendedAll(d.out, p), d.frames)
    decreases |p|
  {
    if p != [] {
      var init, x := p[..|p| - 1], p[|p| - 1];
      EscapedInFrame(hasClient, d, init);
      RunAppend(hasClient, d, Escape(init), EscapeByte(x));
      var m := Run(hasClient, d, Escape(init));
      if x == End {
        assert EscapeByte(x)[..1] == [Esc];
        assert Run(hasClient, m, [Esc]) == m.(state := EscState);
      } else if x == Esc {
        assert EscapeByte(x)[..1] == [Esc];
        assert Run(hasClient, m, [Esc]) == m.(state := EscState);
      } else {
        assert Run(hasClient, m, [x]) == Step(hasClient, m, x);
      }
    }
  }

  /** The opening END starts a frame with an empty output, whether or not a frame was open. */
  lemma OpenFrame(hasClient: bool, d: Decoding)
    requires DecodingValid(d)
    requires d.state == Initial || (d.state == InFrame && d.out.count == 0)
    ensures Run(hasClient, d, [End]) == Decoding(InFrame, Cleared(d.out), d.frames)
  {
    assert [End][..0] == [];
  }

  /** The closing END hands a non-empty output to the client and empties it. */
  lemma CloseFrame(hasClient: bool, d: Decoding)
    requires DecodingValid(d) && d.state == InFrame
    ensures Run(hasClient, d, [End]) == Decoding(InFrame, Cleared(d.out),
              if hasClient && d.out.count > 0 then d.frames + [BufContents(d.out)] else d.frames)
  {
    assert [End][..0] == [];
  }

  /**
   * One frame, from a decoder outside a frame or at the start of an empty one:
   * the client is handed the packet, cut at the output's capacity, exactly when
   * there is a client and that cut is non-empty; the decoder ends inside a
   * frame with an empty output.
   */
  lemma FrameDecodes(hasClient: bool, d: Decoding, p: seq<bv8>)
    requires DecodingValid(d)
    requires d.state == Initial || (d.state == InFrame && d.out.count == 0)
    ensures Run(hasClient, d, Encode(p)).state == InFrame
    ensures Run(hasClient, d, Encode(p)).out.count == 0
    ensures Run(hasClient, d, Encode(p)).frames ==
              if hasClient && |p| > 0 && |d.out.bytes| > 0
              then d.frames + [if |p| <= |d.out.bytes| then p else p[..|d.out.bytes|]]
              else d.frames
  {
    var e := Escape(p);
    assert Encode(p) == [End] + e + [End];
    RunAppend(hasClient, d, [End] + e, [End]);
    RunAppend(hasClient, d, [End], e);
    OpenFrame(hasClient, d);
    var d1 := Decoding(InFrame, Cleared(d.out), d.frames);
    EscapedInFrame(hasClient, d1, p);
    var d2 := Decoding(InFrame, AppendedAll(Cleared(d.out), p), d.frames);
    AppendedAllFromEmpty(Cleared(d.out), p);
    CloseFrame(hasClient, d2);
  }

  /** The headline round trip: a non-empty packet that fits comes out exactly once, unchanged. */
  lemma RoundTrip(d: Decoding, p: seq<bv8>)
    requires DecodingValid(d) && d.state == Initial
    requires 0 < |p| <= |d.out.bytes|
    ensures Run(true, d, Encode(p)).frames == d.frames + [p]
    ensures Run(true, d, Encode(p)).state == InFrame
  {
    FrameDecodes(true, d, p);
  }

  /**
   * A stream of encoded frames, each non-empty and fitting the output, is handed
   * to the client frame by frame, in order.
   */
  lemma {:induction false} StreamRoundTrip(d: Decoding, ps: seq<seq<bv8>>)
    requires DecodingValid(d)
    requires d.state == Initial || (d.state == InFrame && d.out.count == 0)
    requires forall i :: 0 <= i < |ps| ==> 0 < |ps[i]| <= |d.out.bytes|
    ensures Run(true, d, EncodeAll(ps)).frames == d.frames + ps
    ensures ps == [] ==> Run(true, d, EncodeAll(ps)) == d
    ensures ps != [] ==> Run(true, d, EncodeAll(ps)).state == InFrame && Run(true, d, EncodeAll(ps)).out.count == 0
    decreases |ps|
  {
    if ps == [] {
      assert EncodeAll(ps) == [];
    } else {
      var init, p := ps[..|ps| - 1], ps[|ps| - 1];
      assert ps == init + [p];
      assert forall i :: 0 <= i < |init| ==> init[i] == ps[i];
      StreamRoundTrip(d, init);
      StreamSnoc(d, init, p);
    }
  }

  /** The induction step of StreamRoundTrip: one frame appended to a stream already delivered. */
  lemma StreamSnoc(d: Decoding, init: seq<seq<bv8>>, p: seq<bv8>)
    requires DecodingValid(d) && 0 < |p| <= |d.out.bytes|
    requires d.state == Initial || (d.state == InFrame && d.out.count == 0)
    requires Run(true, d, EncodeAll(init)).frames == d.frames + init
    requires init == [] ==> Run(true, d, EncodeAll(init)) == d
    requires init != [] ==> Run(true, d, EncodeAll(init)).state == InFrame && Run(true, d, EncodeAll(init)).out.count == 0
    ensures Run(true, d, EncodeAll(init + [p])).frames == d.frames + (init + [p])
    ensures Run(true, d, EncodeAll(init + [p])).state == InFrame && Run(true, d, EncodeAll(init + [p])).out.count == 0
  {
    EncodeAllSnoc(init, p);
    StreamStep(EncodeAll(init), d, Encode(p), p);
    ConcatAssoc(d.frames, init, [p]);
  }

  /** Concatenation is associative. */
  lemma ConcatAssoc<T>(a: seq<T>, b: seq<T>, c: seq<T>)
    ensures a + b + c == a + (b + c)
  {
  }

  /** Encoding one more frame appends its encoding. */
  lemma EncodeAllSnoc(init: seq<seq<bv8>>, p: seq<bv8>)
    ensures EncodeAll(init + [p]) == EncodeAll(init) + Encode(p)
  {
    assert (init + [p])[..|init|] == init;
  }

  /** One more frame after a decoding that stopped between frames. */
  lemma StreamStep(before: seq<bv8>, d: Decoding, e: seq<bv8>, p: seq<bv8>)
    requires DecodingValid(d) && e == Encode(p) && 0 < |p| <= |d.out.bytes|
    requires Run(true, d, before).state == Initial ||
             (Run(true, d, before).state == InFrame && Run(true, d, before).out.count == 0)
    ensures Run(true, d, before + e).frames == Run(true, d, before).frames + [p]
    ensures Run(true, d, before + e).state == InFrame && Run(true, d, before + e).out.count == 0
  {
    RunAppend(true, d, before, e);
    FrameDecodes(true, Run(true, d, before), p);
  }

  /** Outside a frame, bytes other than Begin are discarded: nothing changes. */
  lemma {:induction false} InitialDiscards(hasClient: bool, d: Decoding, s: seq<bv8>)
    requires DecodingValid(d) && d.state == Initial && Begin !in s
    ensures Run(hasClient, d, s) == d
    decreases |s|
  {
    if s != [] {
      InitialDiscards(hasClient, d, s[..|s| - 1]);
    }
  }

  /**
   * An escape followed by anything but ESC_END or ESC_ESC abandons the frame:
   * the decoder returns to Initial with output and frames as they were, and the
   * bytes up to the next Begin are then discarded.
   */
  lemma BadEscapeAborts(hasClient: bool, d: Decoding, x: bv8, rest: seq<bv8>)
    requires DecodingValid(d) && d.state == InFrame
    requires x != EscEnd && x != EscEsc && Begin !in rest
    ensures Run(hasClient, d, [Esc, x] + rest) == d.(state := Initial)
  {
    assert Run(hasClient, d, [Esc, x]) == Step(hasClient, Step(hasClient, d, Esc), x) by {
      assert [Esc, x][..1] == [Esc];
      assert [Esc][..0] == [];
      assert Run(hasClient, d, [Esc]) == Step(hasClient, d, Esc);
    }
    RunAppend(hasClient, d, [Esc, x], rest);
    InitialDiscards(hasClient, d.(state := Initial), rest);
  }

  /** Frames are only ever added, and every frame handed over is non-empty and fits the output. */
  lemma {:induction false} FramesWellFormed(hasClient: bool, d: Decoding, s: seq<bv8>)
    requires DecodingValid(d)
    ensures d.frames <= Run(hasClient, d, s).frames
    ensures forall i :: |d.frames| <= i < |Run(hasClient, d, s).frames| ==>
              0 < |Run(hasClient, d, s).frames[i]| <= |d.out.bytes|
    ensures !hasClient ==> Run(hasClient, d, s).frames == d.frames
    decreases |s|
  {
    if s != [] {
      FramesWellFormed(hasClient, d, s[..|s| - 1]);
    }
  }

  class SlipDecoder {
    /** _DecoderClient != nullptr */
    const hasClient: bool
    /** _State */
    var state: State

    /** SlipDecoder(client): starts outside a frame. */
    constructor (hasClient: bool)
      ensures this.hasClient == hasClient && state == Initial
    {
      this.hasClient := hasClient;
      state := Initial;
    }

    /** Reset(): back to Initial from any state; the output buffer is not touched. */
    method Reset()
      modifies this
      ensures state == Initial
    {
      state := Initial;
    }

    /**
     * Decode(output, input): feeds input's used bytes through the state machine
     * in order; `frames` are the outputs handed to the client, in order.
     */
    method Decode(output: ByteArray, input: ByteArray) returns (frames: seq<seq<bv8>>)
      requires output.Valid() && input.Valid()
      requires output != input && output.data != input.data
      modifies this, output, output.data
      ensures output.Valid()
      ensures Decoding(state, output.Model(), frames)
           == Run(hasClient, Decoding(old(state), old(output.Model()), []), old(input.Contents()))
    {
      ghost var d0 := Decoding(state, output.Model(), []);
      ghost var s := input.Contents();
      frames := [];
      var index := 0;
      while index < input.count
        invariant output.Valid() && index <= input.count && input.Contents() == s
        invariant |output.data[..]| == |d0.out.bytes|
        invariant Decoding(state, output.Model(), frames) == Run(hasClient, d0, s[..index])
      {
        var x := input.data[index];
        assert s[..index + 1][..index] == s[..index];
        match state {
        case Initial =>
          if x == Begin {
            output.Clear();
            state := InFrame;
          }
        case InFrame =>
          if x == End {
            if hasClient && output.count > 0 {
              frames := frames + [output.Contents()];
            }
            output.Clear();
          } else if x == Esc {
            state := EscState;
          } else {
            var _ := output.Append(x);
          }
        case EscState =>
          if x == EscEnd {
            var _ := output.Append(End);
            state := InFrame;
          } else if x == EscEsc {
            var _ := output.Append(Esc);
            state := InFrame;
          } else {
            state := Initial;
          }
        }
        index := index + 1;
      }
      assert s[..index] == s;
    }
  }
}
