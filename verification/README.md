# LED controller framing, modelled in Dafny

The installation's web server (`main.py`) drives an LED controller over a
serial link. Each command is sent as one byte frame. A frame is the header
ESCAPE (0x13), START (0x37) and a command byte, followed by that command's
payload. There are five commands:

- HELLO (0x01) and CLEAR (0x03) have no payload.
- RENDER (0x04) and TRANSITION (0x05) carry one mode byte.
- LEDS (0x02) carries a count byte, then one 3-byte record per LED.

LED colours arrive as red, green, blue and go on the wire as green, red, blue.
Inside the LED records, every ESCAPE byte is doubled (byte stuffing).

This project models that encoder and proves properties of it:

- `wrappers.dfy` (`Wrappers`): `Option` and `Result`.
- `stuffing.dfy` (`Stuffing`): the byte type, the ESCAPE constant and `Escape`. It also has the inverse `Unescape` and a predicate `Stuffed`, which holds when every ESCAPE byte is paired.
- `commands.dfy` (`Commands`): the constants, one builder per command, and `Encode`, which dispatches over a `Command` datatype. Python exceptions become `Result` errors:
  - `pack` rejects a value outside 0..255. This becomes `ByteOutOfRange`.
  - `chr` rejects an LED count of 256 or more. This becomes `TooManyLeds`.
  - The LED records are packed before the count is converted, so an out-of-range colour is reported first.
- `decoding.dfy` (`Decoding`): a frame reader that serves as the encoder's partner. It proves that a frame decodes to a command exactly when it is that command's frame.

The source writes the LED count byte and the mode byte raw; they do not pass
through `escape`. The model keeps that behaviour. `LedCountRaw` and
`ModeByteRaw` show what it means: when there are 19 LEDs, or the mode is 0x13,
the bytes after the header contain an unpaired ESCAPE, and a reader that
unstuffs the whole body rejects them. In every other case such a reader gets the
count or mode followed by the payload.

## Model

| member | source | states |
|---|---|---|
| Stuffing.Escape | main.py:26-27 | Stuffing never shrinks the data and at most doubles its length |
| Stuffing.Unescape | main.py:26-27 | The inverse of stuffing. It never returns more bytes than it reads. That it rejects exactly the sequences with an unpaired ESCAPE, i.e. with an odd maximal run of ESCAPE bytes, is stated by `Stuffing.StuffedAccepted` |
| Stuffing.EscapeLength | main.py:26-27 | The stuffed length is the input length plus the number of ESCAPE bytes in the input |
| Stuffing.EscapeCounts | main.py:27 | Stuffing doubles the number of ESCAPE bytes and keeps the count of every other byte value |
| Stuffing.EscapeConcat | main.py:27 | Stuffing distributes over concatenation |
| Stuffing.UnescapeEscape | main.py:27 | Collapsing the ESCAPE,ESCAPE pairs of `escape(d)` gives back exactly `d` |
| Stuffing.EscapeUnescape | main.py:27 | Every sequence the inverse accepts is exactly the stuffing of what it returns |
| Stuffing.StuffingRoundTrip | main.py:26-27 | `Unescape(s) == Some(d)` holds exactly when `s == escape(d)` |
| Stuffing.EscapeIdentity | main.py:27 | `escape(d) == d` holds exactly when `d` has no ESCAPE byte |
| Stuffing.StuffedAccepted | main.py:27 | The inverse accepts a sequence exactly when every maximal run of ESCAPE bytes in it has even length, stated against the run-based `RunsEven` and proved in both directions |
| Stuffing.StuffedRunsEven | main.py:27 | In a sequence with every ESCAPE paired, each maximal run of ESCAPE bytes has even length |
| Stuffing.EscapedRunsEven | main.py:27 | In the output of `escape`, each maximal run of ESCAPE bytes has even length |
| Stuffing.LoneEscapeFirst | main.py:35-37 | A lone ESCAPE placed in front of stuffed data is unpaired, so the whole sequence is rejected |
| Stuffing.PlainByteFirst | main.py:35-37 | Any other byte placed in front of stuffed data unstuffs to itself, followed by the data |
| Stuffing.UnpairedEscapeRejected | main.py:27 | A sequence with an odd number of ESCAPE bytes is not the output of `escape` |
| Commands.CommandHello | main.py:29-31 | The HELLO frame is exactly 13 37 01 |
| Commands.CommandClear | main.py:40-42 | The CLEAR frame is exactly 13 37 03 |
| Commands.ModeFrame | main.py:44-50 | A one-byte-mode frame is 4 bytes: the header, then the raw mode byte. A mode outside 0..255 is the packing error |
| Commands.CommandRender | main.py:44-46 | RENDER is 13 37 04 followed by the mode. It succeeds exactly when the mode is in 0..255 |
| Commands.CommandTransition | main.py:48-50 | TRANSITION is 13 37 05 followed by the mode. It succeeds exactly when the mode is in 0..255 |
| Commands.PackLed | main.py:34 | An LED record is green, red, blue. It fails exactly when a component is outside 0..255, and green is checked first, then red, then blue |
| Commands.PackLeds | main.py:34 | Gives one record per LED, in order, exactly when every LED is in range. Otherwise it returns the error of the first LED that is out of range |
| Commands.GrbPayload | main.py:34 | The unstuffed LED payload is three bytes per LED |
| Commands.GrbPayloadLayout | main.py:34 | LED `i` occupies payload bytes 3i, 3i+1 and 3i+2, as green, red and blue |
| Commands.EscapeRecordsWhole | main.py:36-37 | `Commands.EscapeRecords` models the loop that escapes each packed record and appends it; escaping the records one by one and concatenating equals escaping the whole payload |
| Commands.CommandLeds | main.py:33-38 | LEDS succeeds exactly when there are fewer than 256 LEDs and all are in range. The frame is 13 37 02, the raw count, then the stuffed GRB payload. A bad colour is reported before a bad count |
| Commands.LedsFrame | main.py:33-38 | The whole LEDS frame is 13 37 02, the raw count, then the stuffed GRB payload |
| Commands.Encode | main.py:13-50 | Every frame starts with ESCAPE, START and the command byte. HELLO and CLEAR frames are 3 bytes. RENDER and TRANSITION frames are 4 bytes and end in the mode |
| Decoding.UngroupPayload | main.py:34 | Regrouping the GRB payload recovers the colours |
| Decoding.PayloadUngroup | main.py:34 | Every byte string whose length is a multiple of 3 is the GRB payload of some in-range colours |
| Decoding.DecodeLeds | main.py:35-37 | An accepted LEDS payload has the given count of in-range colours, and its bytes are their stuffed GRB payload |
| Decoding.DecodeFrame | main.py:29-50 | An accepted frame starts with the header of its command, and that command can be encoded |
| Decoding.DecodeLedsFrame | main.py:33-38 | A built LEDS frame reads back as the same colours |
| Decoding.DecodeEncoded | main.py:29-50 | Every built frame reads back as the command it was built from |
| Decoding.EncodeDecodedLeds | main.py:33-38 | Every LEDS frame the reader accepts is exactly the built frame for the colours it reads |
| Decoding.EncodeDecoded | main.py:29-50 | Every frame the reader accepts is exactly the built frame of the command it reads |
| Decoding.FrameRoundTrip | main.py:29-50 | A frame reads as `cmd` exactly when it is the built frame of `cmd` |
| Decoding.ModeByteRaw | main.py:44-50 | The mode byte is not escaped. The bytes after the header contain an unpaired ESCAPE exactly when the mode is 0x13; otherwise they unstuff to the mode |
| Decoding.LedCountRaw | main.py:35 | The count byte is not escaped. The bytes after the header contain an unpaired ESCAPE exactly when there are 19 LEDs; otherwise they unstuff to the count followed by the GRB payload |
| Decoding.CountByteBody | main.py:35-37 | A raw count byte followed by stuffed data unstuffs exactly when the count is not ESCAPE |
| Decoding.TwoLedFrame | main.py:33-38 | Pure red then pure green is sent as 13 37 02 02 00 FF 00 FF 00 00 |

## Left out

- Serial port setup and `send` (`main.py:7-11`, `main.py:22-24`): these are hardware I/O. The link is optional, and writes are best effort. The model stops at the bytes that would be written.
- `hsv2rgb` and the `rainbow` route (`main.py:55-84`): these do floating-point colour conversion with truncation.
- The Flask routes and app start-up (`main.py:77-161`): these are HTTP plumbing. The routes send TRANSITION frames, with a fixed mode or, for `/color`, the integer from the URL; a `/color` value above 255 makes `pack` fail, which `Commands.CommandTransition` returns as `ByteOutOfRange`. `/rainbow` sends a LEDS frame, and the remaining routes print. The frames themselves are covered by `Commands.CommandTransition` and `Commands.CommandLeds`.
- `reportsin` (`main.py:126-152`): it reads request values, calls the geocoding module and prints. The `geo` module is not part of this model.
- Commands.CommandRender: `int(mode)` (`main.py:45`) accepts strings and floats in Python and truncates floats toward zero. The model takes the mode as an integer that has already been converted. Every caller in `main.py` passes an integer.
- Commands.CommandTransition: the same `int(mode)` conversion (`main.py:49`) is not modelled, for the same reason.
- Commands.ModeFrame: it receives the already-converted integer mode of `main.py:45` and `main.py:49`, so the `int(mode)` conversion is not modelled here either.
- Commands.PackLed: a colour is exactly three integers. Python would read the first three items of a longer tuple, and a shorter tuple raises `IndexError`. Non-integer components are also not modelled.
