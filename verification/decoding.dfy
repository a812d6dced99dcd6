/**
  A reader for the frames that `Encode` writes, used to state what a frame
  means: every frame the builders produce decodes back to its command, and
  every frame that decodes is exactly the one the builders produce.

  The reader takes the LED count and the mode byte raw, by position, as the
  builders write them. A reader that instead unstuffs everything after the
  header loses frames whose count or mode byte is ESCAPE; the
  lemmas `ModeByteRaw` and `LedCountRaw` pin that behaviour down.
 */
module Decoding {
  import opened Wrappers
  import opened Stuffing
  import opened Commands

  /** Regroups a raw payload of green, red, blue triples into colours. */
  function Ungroup(p: seq<byte>): (leds: seq<Rgb>)
    requires |p| % 3 == 0
    ensures 3 * |leds| == |p|
    decreases |p|
  {
    if p == [] then [] else [Rgb(p[1], p[0], p[2])] + Ungroup(p[3..])
  }

  /** Regrouping the payload of some colours gives those colours back. */
  lemma {:induction false} UngroupPayload(leds: seq<Rgb>)
    requires AllLedsInRange(leds)
    ensures Ungroup(GrbPayload(leds)) == leds
  {
    if leds != [] {
      var p := GrbPayload(leds);
      assert AllLedsInRange(leds[1..]) by {
        assert forall i :: 0 <= i < |leds[1..]| ==> leds[1..][i] == leds[i + 1];
      }
      UngroupPayload(leds[1..]);
      assert p[3..] == GrbPayload(leds[1..]);
      assert leds == [leds[0]] + leds[1..];
    }
  }

  /** Every byte triple comes from an in-range colour, and laying the colours out again gives the bytes back. */
  lemma {:induction false} PayloadUngroup(p: seq<byte>)
    requires |p| % 3 == 0
    ensures AllLedsInRange(Ungroup(p))
    ensures GrbPayload(Ungroup(p)) == p
    decreases |p|
  {
    if p != [] {
      var leds := Ungroup(p);
      PayloadUngroup(p[3..]);
      assert leds[1..] == Ungroup(p[3..]);
      assert forall i :: 1 <= i < |leds| ==> leds[i] == leds[1..][i - 1];
      assert p == [p[0], p[1], p[2]] + p[3..];
    }
  }

  /**
    Reads the payload of a LEDS frame: the stuffed bytes must unstuff to
    exactly `count` green, red, blue records.
   */
  function DecodeLeds(count: byte, stuffed: seq<byte>): (r: Option<seq<Rgb>>)
    ensures r.Some? ==> |r.value| == count && AllLedsInRange(r.value)
    ensures r.Some? ==> stuffed == Escape(GrbPayload(r.value))
  {
    var payload := Unescape(stuffed);
    if payload.Some? && |payload.value| == 3 * (count as int) then
      PayloadUngroup(payload.value);
      EscapeUnescape(stuffed);
      Some(Ungroup(payload.value))
    else None
  }

  /**
    Reads one frame. The header must be ESCAPE, START and a known command
    byte; HELLO and CLEAR carry nothing more, RENDER and TRANSITION exactly
    one mode byte, and LEDS a count byte followed by a stuffed payload of
    exactly that many green, red, blue records.
   */
  function DecodeFrame(f: seq<byte>): (r: Option<Command>)
    ensures r.Some? ==> |f| >= 3 && f[..3] == [ESCAPE, START, CommandByte(r.value)]
    ensures r.Some? ==> Encodable(r.value)
  {
    if |f| < 3 || f[0] != ESCAPE || f[1] != START then None
    else if f[2] == COMMAND_HELLO then
      if |f| == 3 then Some(Hello) else None
    else if f[2] == COMMAND_CLEAR then
      if |f| == 3 then Some(Clear) else None
    else if f[2] == COMMAND_RENDER then
      if |f| == 4 then Some(Render(f[3])) else None
    else if f[2] == COMMAND_TRANSITION then
      if |f| == 4 then Some(Transition(f[3])) else None
    else if f[2] == COMMAND_LEDS && |f| >= 4 then
      var leds := DecodeLeds(f[3], f[4..]);
      if leds.Some? then Some(Leds(leds.value)) else None
    else None
  }

  /** The LEDS frame the builder produces decodes back to the same colours. */
  lemma DecodeLedsFrame(leds: seq<Rgb>)
    requires Encodable(Leds(leds))
    ensures DecodeFrame(Encode(Leds(leds)).value) == Some(Leds(leds))
  {
    LedsFrame(leds);
    var f := Encode(Leds(leds)).value;
    var p := GrbPayload(leds);
    assert f[4..] == Escape(p);
    UnescapeEscape(p);
    UngroupPayload(leds);
    assert DecodeLeds(|leds|, f[4..]) == Some(leds);
  }

  /** A frame the builders produce decodes back to the command it was built from. */
  lemma DecodeEncoded(cmd: Command)
    requires Encode(cmd).Ok?
    ensures DecodeFrame(Encode(cmd).value) == Some(cmd)
  {
    if cmd.Leds? {
      DecodeLedsFrame(cmd.leds);
    } else {
      var f := Encode(cmd).value;
      assert f[0] == ESCAPE && f[1] == START && f[2] == CommandByte(cmd);
    }
  }

  /** A LEDS frame that decodes is exactly the frame the builder produces for the decoded colours. */
  lemma EncodeDecodedLeds(f: seq<byte>)
    requires DecodeFrame(f).Some? && DecodeFrame(f).value.Leds?
    ensures Encode(DecodeFrame(f).value) == Ok(f)
  {
    var leds := DecodeLeds(f[3], f[4..]).value;
    assert DecodeFrame(f).value == Leds(leds);
    assert f[4..] == Escape(GrbPayload(leds));
    LedsFrame(leds);
    var g := Encode(Leds(leds)).value;
    assert g == [ESCAPE, START, COMMAND_LEDS, |leds|] + f[4..];
    assert f[..4] == [ESCAPE, START, COMMAND_LEDS, |leds|];
    assert f == f[..4] + f[4..];
  }

  /** A frame that decodes is exactly the frame the builders produce for its command. */
  lemma EncodeDecoded(f: seq<byte>)
    requires DecodeFrame(f).Some?
    ensures Encode(DecodeFrame(f).value) == Ok(f)
  {
    var cmd := DecodeFrame(f).value;
    if cmd.Leds? {
      EncodeDecodedLeds(f);
    } else if cmd.Hello? || cmd.Clear? {
      assert f == [f[0], f[1], f[2]];
    } else {
      var g := Encode(cmd).value;
      assert g[..3] == f[..3];
      assert g == [g[0], g[1], g[2], g[3]];
      assert f == [f[0], f[1], f[2], f[3]];
    }
  }

  /** Decoding and encoding are inverse on frames: `f` decodes to `cmd` exactly when `f` is the frame of `cmd`. */
  lemma FrameRoundTrip(cmd: Command, f: seq<byte>)
    ensures DecodeFrame(f) == Some(cmd) <==> Encode(cmd) == Ok(f)
  {
    if DecodeFrame(f) == Some(cmd) {
      EncodeDecoded(f);
    }
    if Encode(cmd) == Ok(f) {
      DecodeEncoded(cmd);
    }
  }

  /**
    The mode byte of RENDER and TRANSITION is written raw: the bytes after
    the header unstuff to the mode when it is not ESCAPE, and hold an
    unpaired ESCAPE when it is.
   */
  lemma ModeByteRaw(cmd: Command)
    requires cmd.Render? || cmd.Transition?
    requires Encodable(cmd)
    ensures Unescape(Encode(cmd).value[3..]).None? <==> cmd.mode == ESCAPE
    ensures cmd.mode != ESCAPE ==> Unescape(Encode(cmd).value[3..]) == Some([cmd.mode])
  {
    var body := Encode(cmd).value[3..];
    assert body == [cmd.mode];
    if cmd.mode != ESCAPE {
      assert Escape(body) == body;
      UnescapeEscape(body);
    }
  }

  /**
    The LED count byte is written raw: the bytes after the header unstuff
    to the count followed by the payload unless there are exactly 19 (0x13)
    LEDs, in which case they hold an unpaired ESCAPE.
   */
  lemma LedCountRaw(leds: seq<Rgb>)
    requires Encodable(Leds(leds))
    ensures Unescape(Encode(Leds(leds)).value[3..]).None? <==> |leds| == ESCAPE
    ensures |leds| != ESCAPE ==> Unescape(Encode(Leds(leds)).value[3..]) == Some([|leds|] + GrbPayload(leds))
  {
    LedsBody(leds);
    CountByteBody(|leds|, GrbPayload(leds), Encode(Leds(leds)).value[3..]);
  }

  /** After the header, a LEDS frame holds the raw count byte and then the stuffed payload. */
  lemma LedsBody(leds: seq<Rgb>)
    requires Encodable(Leds(leds))
    ensures Encode(Leds(leds)).value[3..] == [|leds|] + Escape(GrbPayload(leds))
  {
    LedsFrame(leds);
    DropHeader(Encode(Leds(leds)).value, ESCAPE, START, COMMAND_LEDS, |leds|, Escape(GrbPayload(leds)));
  }

  /** Dropping a 3-byte header leaves the byte after it and the rest. */
  lemma DropHeader(f: seq<byte>, a: byte, b: byte, c: byte, n: byte, rest: seq<byte>)
    requires f == [a, b, c, n] + rest
    ensures f[3..] == [n] + rest
  {
  }

  /** The bytes after the header of a LEDS frame: a raw count byte, then the stuffed payload. */
  lemma CountByteBody(n: byte, p: seq<byte>, body: seq<byte>)
    requires body == [n] + Escape(p)
    ensures Unescape(body).None? <==> n == ESCAPE
    ensures n != ESCAPE ==> Unescape(body) == Some([n] + p)
  {
    if n == ESCAPE {
      LoneEscapeFirst(p);
    } else {
      PlainByteFirst(n, p);
    }
  }

  /** Two LEDs, pure red then pure green, as the controller receives them. */
  lemma TwoLedFrame()
    ensures Encode(Leds([Rgb(255, 0, 0), Rgb(0, 255, 0)])).Ok?
    ensures Encode(Leds([Rgb(255, 0, 0), Rgb(0, 255, 0)])).value == [0x13, 0x37, 0x02, 0x02, 0, 255, 0, 255, 0, 0]
  {
  }
}
