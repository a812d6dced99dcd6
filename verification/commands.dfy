/**
  Frame builders for the LED controller.

  Every frame is the header ESCAPE, START, command byte, followed by the
  command's payload. Only the LED records of the LEDS command pass through
  `Escape`; the LED count byte and the mode byte of RENDER and TRANSITION are
  written raw, as the controller's driver does.
 */
module Commands {
  import opened Wrappers
  import opened Stuffing

  /** Second byte of every frame (0x37). */
  const START: byte := 0x37

  const COMMAND_HELLO: byte := 0x01
  const COMMAND_LEDS: byte := 0x02
  const COMMAND_CLEAR: byte := 0x03
  const COMMAND_RENDER: byte := 0x04
  const COMMAND_TRANSITION: byte := 0x05

  /** A colour as the caller gives it: red, green, blue, each meant to be 0..255. */
  datatype Rgb = Rgb(r: int, g: int, b: int)

  /** The five commands the controller understands. */
  datatype Command =
    | Hello
    | Leds(leds: seq<Rgb>)
    | Clear
    | Render(mode: int)
    | Transition(mode: int)

  /**
    Why a frame cannot be built: packing a value outside 0..255 as an
    unsigned byte fails, and so does turning an LED count of 256 or more
    into a single character.
   */
  datatype EncodeError =
    | ByteOutOfRange(value: int)
    | TooManyLeds(count: nat)

  predicate IsByte(v: int)
  {
    0 <= v < 256
  }

  predicate LedInRange(c: Rgb)
  {
    IsByte(c.r) && IsByte(c.g) && IsByte(c.b)
  }

  predicate AllLedsInRange(leds: seq<Rgb>)
  {
    forall i :: 0 <= i < |leds| ==> LedInRange(leds[i])
  }

  /** The three bytes that open every frame. */
  function Header(command: byte): seq<byte>
  {
    [ESCAPE, START, command]
  }

  /** The command byte that identifies `cmd` on the wire. */
  function CommandByte(cmd: Command): byte
  {
    match cmd
    case Hello => COMMAND_HELLO
    case Leds(_) => COMMAND_LEDS
    case Clear => COMMAND_CLEAR
    case Render(_) => COMMAND_RENDER
    case Transition(_) => COMMAND_TRANSITION
  }

  /** True when the builder for `cmd` returns a frame rather than an error. */
  predicate Encodable(cmd: Command)
  {
    match cmd
    case Leds(leds) => |leds| < 256 && AllLedsInRange(leds)
    case Render(mode) => IsByte(mode)
    case Transition(mode) => IsByte(mode)
    case _ => true
  }

  /** The HELLO frame: the header alone, 13 37 01 on the wire. */
  function CommandHello(): (r: seq<byte>)
    ensures r == [0x13, 0x37, 0x01]
  {
    Header(COMMAND_HELLO)
  }

  /** The CLEAR frame: the header alone, 13 37 03 on the wire. */
  function CommandClear(): (r: seq<byte>)
    ensures r == [0x13, 0x37, 0x03]
  {
    Header(COMMAND_CLEAR)
  }

  /** A header followed by one raw (unescaped) mode byte, or the packing error. */
  function ModeFrame(command: byte, mode: int): (r: Result<seq<byte>, EncodeError>)
    ensures r.Ok? <==> IsByte(mode)
    ensures r.Ok? ==> |r.value| == 4 && r.value[..3] == Header(command) && r.value[3] == mode
    ensures r.Err? ==> r.error == ByteOutOfRange(mode)
  {
    if IsByte(mode) then Ok(Header(command) + [mode]) else Err(ByteOutOfRange(mode))
  }

  /** The RENDER frame for `mode`. */
  function CommandRender(mode: int): (r: Result<seq<byte>, EncodeError>)
    ensures r.Ok? <==> IsByte(mode)
    ensures r.Ok? ==> |r.value| == 4 && r.value[..3] == [0x13, 0x37, 0x04] && r.value[3] == mode
    ensures r.Err? ==> r.error == ByteOutOfRange(mode)
  {
    ModeFrame(COMMAND_RENDER, mode)
  }

  /** The TRANSITION frame for `mode`. */
  function CommandTransition(mode: int): (r: Result<seq<byte>, EncodeError>)
    ensures r.Ok? <==> IsByte(mode)
    ensures r.Ok? ==> |r.value| == 4 && r.value[..3] == [0x13, 0x37, 0x05] && r.value[3] == mode
    ensures r.Err? ==> r.error == ByteOutOfRange(mode)
  {
    ModeFrame(COMMAND_TRANSITION, mode)
  }

  /**
    The 3-byte record of one LED, in the controller's green, red, blue order.
    The components are packed green first, so an out-of-range green is the
    one reported when several are out of range, then red, then blue.
   */
  function PackLed(c: Rgb): (r: Result<seq<byte>, EncodeError>)
    ensures r.Ok? <==> LedInRange(c)
    ensures r.Ok? ==> |r.value| == 3 && r.value[0] == c.g && r.value[1] == c.r && r.value[2] == c.b
    ensures r.Err? ==> r.error == ByteOutOfRange(if !IsByte(c.g) then c.g else if !IsByte(c.r) then c.r else c.b)
  {
    if !IsByte(c.g) then Err(ByteOutOfRange(c.g))
    else if !IsByte(c.r) then Err(ByteOutOfRange(c.r))
    else if !IsByte(c.b) then Err(ByteOutOfRange(c.b))
    else Ok([c.g, c.r, c.b])
  }

  /** True when every LED before position `i` is in range. */
  predicate InRangeBefore(leds: seq<Rgb>, i: nat)
    requires i <= |leds|
  {
    forall j :: 0 <= j < i ==> LedInRange(leds[j])
  }

  /** The records of all LEDs, in order; the first LED that cannot be packed decides the error. */
  function PackLeds(leds: seq<Rgb>): (r: Result<seq<seq<byte>>, EncodeError>)
    ensures r.Ok? <==> AllLedsInRange(leds)
    ensures r.Ok? ==> |r.value| == |leds|
    ensures r.Ok? ==> forall i :: 0 <= i < |leds| ==> PackLed(leds[i]) == Ok(r.value[i])
    ensures r.Err? ==> exists i :: 0 <= i < |leds| && InRangeBefore(leds, i) && PackLed(leds[i]) == Err(r.error)
  {
    if leds == [] then Ok([])
    else
      match PackLed(leds[0])
      case Err(e) => Err(e)
      case Ok(rec) =>
        match PackLeds(leds[1..])
        case Err(e) =>
          assert exists i :: 0 <= i < |leds| && InRangeBefore(leds, i) && PackLed(leds[i]) == Err(e) by {
            var i :| 0 <= i < |leds[1..]| && InRangeBefore(leds[1..], i) && PackLed(leds[1..][i]) == Err(e);
            assert leds[i + 1] == leds[1..][i];
            assert forall j :: 1 <= j < i + 1 ==> leds[j] == leds[1..][j - 1];
            assert InRangeBefore(leds, i + 1);
          }
          Err(e)
        case Ok(rest) =>
          assert forall i :: 1 <= i < |leds| ==> leds[i] == leds[1..][i - 1];
          Ok([rec] + rest)
  }

  /** The stuffed LED records laid end to end, one record after the other. */
  function EscapeRecords(records: seq<seq<byte>>): seq<byte>
  {
    if records == [] then [] else Escape(records[0]) + EscapeRecords(records[1..])
  }

  /**
    The raw LED payload before stuffing: green, red, blue of each LED in turn.
    This is the reference layout the LEDS frame is specified against.
   */
  function GrbPayload(leds: seq<Rgb>): (r: seq<byte>)
    requires AllLedsInRange(leds)
    ensures |r| == 3 * |leds|
  {
    if leds == [] then [] else [leds[0].g, leds[0].r, leds[0].b] + GrbPayload(leds[1..])
  }

  /** LED `i` occupies bytes 3i, 3i+1, 3i+2 of the payload, as green, red, blue. */
  lemma {:induction false} GrbPayloadLayout(leds: seq<Rgb>, i: nat)
    requires AllLedsInRange(leds)
    requires i < |leds|
    ensures GrbPayload(leds)[3 * i] == leds[i].g
    ensures GrbPayload(leds)[3 * i + 1] == leds[i].r
    ensures GrbPayload(leds)[3 * i + 2] == leds[i].b
  {
    if i > 0 {
      GrbPayloadLayout(leds[1..], i - 1);
      var rest := GrbPayload(leds[1..]);
      assert GrbPayload(leds) == [leds[0].g, leds[0].r, leds[0].b] + rest;
      assert GrbPayload(leds)[3 * i] == rest[3 * (i - 1)];
      assert GrbPayload(leds)[3 * i + 1] == rest[3 * (i - 1) + 1];
      assert GrbPayload(leds)[3 * i + 2] == rest[3 * (i - 1) + 2];
    }
  }

  /** Stuffing the LED records one at a time equals stuffing the whole payload at once. */
  lemma {:induction false} EscapeRecordsWhole(leds: seq<Rgb>, records: seq<seq<byte>>)
    requires AllLedsInRange(leds)
    requires |records| == |leds|
    requires forall i :: 0 <= i < |leds| ==> PackLed(leds[i]) == Ok(records[i])
    ensures EscapeRecords(records) == Escape(GrbPayload(leds))
  {
    if leds != [] {
      assert forall i :: 0 <= i < |leds[1..]| ==> leds[1..][i] == leds[i + 1] && records[1..][i] == records[i + 1];
      EscapeRecordsWhole(leds[1..], records[1..]);
      assert PackLed(leds[0]) == Ok(records[0]);
      assert GrbPayload(leds) == records[0] + GrbPayload(leds[1..]);
      EscapeConcat(records[0], GrbPayload(leds[1..]));
    }
  }

  /**
    The LEDS frame: the header, the LED count as one raw byte, then each LED's
    green, red, blue record passed through `Escape`. Packing fails first when
    a component is out of range; otherwise a count of 256 or more fails.
   */
  function CommandLeds(leds: seq<Rgb>): (r: Result<seq<byte>, EncodeError>)
    ensures r.Ok? <==> |leds| < 256 && AllLedsInRange(leds)
    ensures r.Ok? ==> |r.value| >= 4 && r.value[..4] == [ESCAPE, START, COMMAND_LEDS, |leds|]
    ensures r.Ok? ==> r.value[4..] == Escape(GrbPayload(leds))
    ensures r.Err? && !AllLedsInRange(leds) ==> r.error.ByteOutOfRange?
    ensures r.Err? && AllLedsInRange(leds) ==> r.error == TooManyLeds(|leds|)
  {
    var packed := PackLeds(leds);
    if packed.Err? then
      assert packed.error.ByteOutOfRange? by {
        var i :| 0 <= i < |leds| && PackLed(leds[i]) == Err(packed.error);
      }
      Err(packed.error)
    else if |packed.value| >= 256 then
      Err(TooManyLeds(|packed.value|))
    else
      EscapeRecordsWhole(leds, packed.value);
      var f := [ESCAPE, START, COMMAND_LEDS, |packed.value|] + EscapeRecords(packed.value);
      assert f[4..] == EscapeRecords(packed.value);
      Ok(f)
  }

  /** The LEDS frame as one sequence: the 4 leading bytes, then the stuffed payload. */
  lemma LedsFrame(leds: seq<Rgb>)
    requires |leds| < 256 && AllLedsInRange(leds)
    ensures Encode(Leds(leds)) == Ok([ESCAPE, START, COMMAND_LEDS, |leds|] + Escape(GrbPayload(leds)))
  {
  }

  /** The frame for any command: the builder for its kind. */
  function Encode(cmd: Command): (r: Result<seq<byte>, EncodeError>)
    ensures r.Ok? <==> Encodable(cmd)
    ensures r.Ok? ==> |r.value| >= 3 && r.value[..3] == [ESCAPE, START, CommandByte(cmd)]
    ensures r.Ok? && (cmd.Hello? || cmd.Clear?) ==> |r.value| == 3
    ensures r.Ok? && (cmd.Render? || cmd.Transition?) ==> |r.value| == 4 && r.value[3] == cmd.mode
  {
    match cmd
    case Hello => Ok(CommandHello())
    case Leds(leds) => CommandLeds(leds)
    case Clear => Ok(CommandClear())
    case Render(mode) => CommandRender(mode)
    case Transition(mode) => CommandTransition(mode)
  }
}
