# UART terminal: packet framer, receive log and display

This project models the sequential core of a desktop UART terminal and
proves properties of that model. The terminal has two parts.

- A transport object (`SerialComm`) opens and closes the port, sends
  text or hex, and runs a polling loop that groups received bytes into
  packets by silence. A packet is closed once the line has been quiet for
  longer than the packet timeout.
- A window (`SerialGUI`) keeps a log of received chunks. It inserts a
  line-break marker when two notifications are more than 5 ms apart. It
  renders the log as spaced lower-case hex pairs or as decoded text, with
  optional timestamps, then normalises `\r\n` and `\r` to `\n`. It keeps
  the view at the bottom when it was already there.

Modules:

- `Common` (common.dfy) holds bytes, `Option`, concatenation of a packet
  list, and decimal printing of a count.
- `SerialComm` (serial_comm.dfy) holds the pure framer function
  `Advance`, its fold `Run` over a finite trace of loop iterations, the
  hex-send conversion (`StripSpaces`, `FromHex`), and the class
  `SerialPort`. Its methods `Step` and `ReadLoop` are proved against
  `Advance` and `Run`. Ghost fields of `SerialPort` record every byte
  read and every packet emitted since the last open, and every buffer
  written.
- `SerialGui` (serial_gui.dfy) holds the receive log (`Entry`,
  `LogAfterReceive`), hex and text rendering (`FormatHex`, `Render`),
  normalisation (`Normalize`), the stick-to-bottom rule (`AtBottom`), and
  the class `Window` with the receive callback, the display refresh, the
  scroll, the clear button and the send button.

Time is a natural number of milliseconds. The value 0 is the "nothing
received yet" sentinel in both files, as the source uses it.

Some behaviours of the code differ from what a reader might expect of
such a terminal. The model follows the code:

- Closing the port neither emits nor clears the accumulator, so
  `ClosePort` leaves `currentPacket` alone.
- A read error ends the loop only when the port is found closed. While
  the handle is still open the loop goes on (`Poll.ReadError(true)`).
- The window formats stamps with microseconds, not milliseconds. The
  stamp is an opaque string here, so only the `stamp + " " + chunk`
  shape is modelled.
- The "HI" then "YOU" scenario yields two packets (`TwoBurstsTwoPackets`).
  Notifications more than 5 ms apart also put a marker between them in
  the window log, so that log holds three entries, not two.
- The clear button does not empty the log. See Findings.
- `bytes.fromhex` skips all ASCII whitespace between byte pairs, not just
  spaces, and `FromHex` does the same. The acceptance lemma
  (`HexPayloadAccepts`) is stated for input whose only whitespace is the
  space.

## Model

| member | source | states |
|---|---|---|
| SerialComm.Advance | serial_comm.py:68-123 | a packet leaves exactly when a chunk or a silence finds a due accumulator (non-empty, a previous receive, gap strictly over the timeout) and no driver error occurred; only a chunk moves the last-receive instant, to now; the timeout is kept; a driver error changes nothing and ends the loop iff the port is found closed |
| SerialComm.AdvanceBytes | serial_comm.py:73-115 | an emitted packet is the whole old accumulator and is non-empty; an undue chunk is appended, a due chunk starts the next packet, a due silence empties the accumulator; emitted bytes followed by the new accumulator equal the old accumulator followed by the bytes read |
| SerialComm.RunConservesBytes | serial_comm.py:63-115 | over any finite run, the emitted packets concatenated in order, followed by the accumulator, are the old accumulator followed by every byte read |
| SerialComm.RunPacketsNonEmpty | serial_comm.py:73-101 | no packet a run emits is empty, and a run keeps the packet timeout |
| SerialComm.PacketDue | serial_comm.py:73-101 | the accumulator is due exactly when it holds bytes, something was received before (0 means nothing) and now is strictly later than the last receive plus the timeout |
| SerialComm.PacketDueStaysDue | serial_comm.py:73-101 | a packet due at some instant is still due at every later instant while nothing is received |
| SerialComm.Run | serial_comm.py:60-128 | definition of the read loop over a finite trace of passes, stopping at the pass that finds the port closed; its properties are stated by `RunPacketsPerIteration`, `RunConservesBytes`, `RunAppend` and `SerialPort.ReadLoop` |
| SerialComm.RunPacketsPerIteration | serial_comm.py:60-128 | each loop pass emits at most one packet, and a run can only find the port closed at some pass |
| SerialComm.RunUnfold | serial_comm.py:60-128 | a run whose first pass does not close the port is that pass's packet followed by the run over the remaining passes |
| SerialComm.RunAppendStep | serial_comm.py:60-128 | the same first pass unfolds both the run over a trace and the run over that trace with more passes after it |
| SerialComm.RunAppend | serial_comm.py:60-128 | running two traces one after the other, the first not closing the port, is running their concatenation: the packets are the first run's followed by the second's |
| SerialComm.BurstIsQuiet | serial_comm.py:73-115 | in a burst (chunks and polls that read nothing, each within the timeout of the last chunk before it) no poll finds a packet due and no driver error occurs |
| SerialComm.BurstAccumulates | serial_comm.py:63-115 | passes that meet no error and find nothing due, idle polls included, emit nothing and leave all their bytes in the accumulator, stamped with the instant of their last chunk |
| SerialComm.SilenceCloses | serial_comm.py:99-115 | a poll that reads nothing when the packet is due emits the whole accumulator and empties it |
| SerialComm.BurstThenSilenceIsOnePacket | serial_comm.py:63-115 | such a stretch holding bytes, then a poll more than the timeout after its last chunk, comes out as exactly one packet: the old accumulator followed by every byte read; the accumulator is then empty |
| SerialComm.ClosedBurstsArePackets | serial_comm.py:60-128 | a trace cut into bursts each closed by a long enough silence emits exactly one packet per burst, in order, each holding that burst's bytes, and does not find the port closed |
| SerialComm.IdleNoop | serial_comm.py:99-115 | a poll that reads nothing and finds nothing due changes nothing in the rest of the run |
| SerialComm.OneChunkThenSilence | serial_comm.py:89-115 | one chunk then a long enough silence gives exactly one packet holding the accumulator and the chunk |
| SerialComm.IdlePollsKeepOnePacket | serial_comm.py:60-128 | "HI" at 1000 ms and "YOU" at 1005 ms, polled with nothing read at 1001, 1010 and 1014 ms, give the single packet "HIYOU" at the poll of 1016 ms |
| SerialComm.TwoBurstsTwoPackets | serial_comm.py:73-115 | "HI" at 1000 ms, "YOU" at 1050 ms and silence at 1100 ms with the default 10 ms timeout give the packets "HI" and "YOU", in that order |
| SerialComm.EmitKeepsInvariant | serial_comm.py:81-88 | emitting a non-empty accumulator and restarting with the chunk keeps conservation and non-empty packets |
| SerialComm.AppendKeepsInvariant | serial_comm.py:89-91 | appending a chunk to the accumulator keeps conservation and non-empty packets |
| SerialComm.SerialPort.constructor | serial_comm.py:13-24 | closed, no handle, read timeout 1000 ms, packet timeout 10 ms, last receive unset, empty accumulator, empty histories |
| SerialComm.SerialPort.OpenPort | serial_comm.py:37-57 | the read timeout is set even when opening fails; success opens, resets the accumulator, the last receive instant and the histories and returns the success text; failure returns the failure prefix and the driver's text and leaves the open flag and the framer unchanged |
| SerialComm.SerialPort.Step | serial_comm.py:64-123 | one loop pass moves the framer fields exactly as `Advance` does, returns its packet, appends it to the emitted history and the chunk to the read history, and clears the open flag iff the port was found closed; the conservation invariant is kept |
| SerialComm.SerialPort.TakeChunk | serial_comm.py:68-94 | a due accumulator is returned and emitted once and the chunk becomes the accumulator; otherwise nothing is emitted and the chunk is appended; the last receive instant becomes now in both cases |
| SerialComm.SerialPort.CheckSilence | serial_comm.py:99-115 | with no data waiting, a due accumulator is emitted and emptied; otherwise nothing changes; the last receive instant is never touched |
| SerialComm.SerialPort.ReadLoop | serial_comm.py:60-128 | the loop over a trace ends in the state `Run` computes, returns its packets in order, is open iff the run did not find the port closed, and has read exactly `Received(ticks)` |
| SerialComm.SerialPort.SetTimeouts | serial_comm.py:131-137 | both timeouts are replaced; the driver handle takes the read timeout only while the port is open; the accumulator and last receive instant are untouched |
| SerialComm.SerialPort.ClosePort | serial_comm.py:146-155 | an open port is closed with the success text; otherwise the not-open text is returned and nothing changes; the accumulator is never touched |
| SerialComm.SerialPort.SendData | serial_comm.py:157-174 | a closed port answers "not open" before any conversion; a conversion failure or a write failure answers the failure prefix and the error text with nothing written; otherwise the bytes are written once and the answer counts them |
| SerialComm.StripSpaces | serial_comm.py:165 | the result holds no space and is no longer than the input |
| SerialComm.StripSpacesAppend | serial_comm.py:165 | removing spaces distributes over concatenation |
| SerialComm.StripSpacesNoSpace | serial_comm.py:165 | if the only whitespace of the input is the space, the result holds no whitespace at all |
| SerialComm.StripSpacesNoop | serial_comm.py:165 | text without spaces is unchanged |
| SerialComm.StripOneSpace | serial_comm.py:165 | two space-free texts joined by one space lose exactly that space |
| SerialComm.FromHex | serial_comm.py:166 | a success uses at least two characters per byte |
| SerialComm.FromHexDecodes | serial_comm.py:166 | without whitespace a success has exactly one byte per pair, byte i being 16 times the value of digit 2i plus the value of digit 2i+1 |
| SerialComm.FromHexAccepts | serial_comm.py:166 | without whitespace the conversion succeeds iff the length is even and every character is a hex digit of either case |
| SerialComm.HexPayload | serial_comm.py:163-166 | a hex send writes at most one byte per two characters of the input, and empty input gives no bytes without failing |
| SerialComm.Payload | serial_comm.py:163-169 | only hex mode can fail; text mode always gives the encoded text, and hex mode writes at most one byte per two characters |
| SerialComm.HexPayloadAccepts | serial_comm.py:165-166 | a hex send whose only whitespace is the space succeeds iff the text without its spaces is an even number of hex digits |
| SerialComm.DecodesFourDigits | serial_comm.py:166 | four hex digits decode to the two bytes their pairs spell |
| SerialComm.HexPayloadExampleAccepted | serial_comm.py:165-166 | "a1 b2" is sent as the bytes 0xA1, 0xB2 |
| SerialComm.HexPayloadExampleOddLength | serial_comm.py:165-166 | "a1b" is rejected |
| SerialComm.HexPayloadExampleNotHex | serial_comm.py:165-166 | "a1 zz" is rejected |
| Common.DecimalString | serial_comm.py:172 | the count is printed as one or more decimal digits that denote it, with no leading zero, a single digit exactly for counts below ten |
| SerialGui.StartsNewLine | serial_gui.py:330-331 | a marker is due exactly when a previous notification exists and now is more than 5 ms after it; never before the first notification |
| SerialGui.LogAfterReceive | serial_gui.py:330-339 | a notification keeps the old log as a prefix, adds one or two entries, and ends the log with its chunk and stamp |
| SerialGui.ReceiveAppends | serial_gui.py:330-339 | a notification keeps every earlier entry, ends the log with its chunk and stamp, and puts exactly one marker before it iff a previous notification exists and the gap is over 5 ms |
| SerialGui.ReceiveCountsOne | serial_gui.py:333-339 | each notification adds exactly one chunk entry |
| SerialGui.ReceiveKeepsWellFormed | serial_gui.py:330-339 | a log that starts and ends with a chunk and has no two adjacent markers stays so after a notification |
| SerialGui.FirstReceiveNoNewline | serial_gui.py:329-339 | with the instant still at its initial 0, the first notification adds its chunk and no marker |
| SerialGui.HexDigit | serial_gui.py:386 | a value below 16 becomes the lower-case digit whose value it is |
| SerialGui.Hexlify | serial_gui.py:386 | two characters per byte |
| SerialGui.HexlifyDigits | serial_gui.py:386 | byte i becomes its high and then its low nibble digit at positions 2i and 2i+1 |
| SerialGui.Pairs | serial_gui.py:387 | the pieces are one per two characters, rounded up, and piece i is the slice from 2i to 2i+2, cut short at the end of the text |
| SerialGui.JoinSpace | serial_gui.py:387 | definition of joining with single spaces; its shape on hex pairs is stated by `FormatHexCons`, `FormatHexSingle` and `FormatHexShape` |
| SerialGui.FormatHex | serial_gui.py:386-387 | definition of the hex display form; its properties are stated by `FormatHexShape`, `FormatHexCharacters`, `StripFormatHex` and `HexDisplayRoundTrip` |
| SerialGui.PairsOfHexlify | serial_gui.py:387 | cutting the hex digits into pairs gives one pair per byte, the byte's two digits |
| SerialGui.FormatHexCons | serial_gui.py:387 | the hex form of two or more bytes is the first pair, one space, and the hex form of the rest |
| SerialGui.FormatHexSingle | serial_gui.py:387 | one byte shows as its two digits with no space |
| SerialGui.FormatHexShape | serial_gui.py:386-387 | n bytes show as 3n-1 characters (none for n = 0): byte k's digits at 3k and 3k+1 and a single space between pairs, none trailing |
| SerialGui.FormatHexCharacters | serial_gui.py:386-387 | the hex form holds only hex digits and spaces |
| SerialGui.StripFormatHex | serial_gui.py:386-387 | removing the spaces from the hex form leaves exactly the hex digits |
| SerialGui.FromHexHexlify | serial_gui.py:386 | the send-side conversion turns the hex digits back into the original bytes |
| SerialGui.HexDisplayRoundTrip | serial_gui.py:386-387 | a chunk shown in hex, pasted into a hex-mode send, is accepted and written as the original bytes |
| SerialGui.JoinTextsSnoc | serial_gui.py:374-402 | one more entry appends its text to the display string |
| SerialGui.JoinTextsAppend | serial_gui.py:374-402 | rendering a concatenation of logs is the concatenation of their renderings, in order and with no separator |
| SerialGui.JoinTextsThree | serial_gui.py:374-402 | a three-entry log renders as the three entry texts in order |
| SerialGui.ChunkText | serial_gui.py:381-393 | definition of a chunk's text: its hex form in hex mode, otherwise its decoding; stated through `Render` by `RenderExample` and `HexRenderLineBreaks` |
| SerialGui.EntryText | serial_gui.py:373-400 | definition of an entry's text: a line break for a marker, otherwise the stamp and one space (when stamps are shown and the entry has one) followed by the chunk's text; stated through `Render` by `RenderExample` |
| SerialGui.Render | serial_gui.py:374-402 | an empty log renders as the empty text |
| SerialGui.RenderExample | serial_gui.py:374-402 | chunk "AB", a marker and chunk "CD" render as "AB\nCD", and with stamps "T1" and "T2" as "T1 AB\nT2 CD" |
| SerialGui.HexRenderLineBreaks | serial_gui.py:374-402 | in hex mode without stamps the display has exactly one line break per marker and no carriage return |
| SerialGui.BuildDisplayText | serial_gui.py:371-402 | the loop over the log builds exactly the rendering of the whole log |
| SerialGui.ReplaceCrLf | serial_gui.py:405 | the replacement never lengthens the text |
| SerialGui.ReplaceCr | serial_gui.py:406 | same length; each carriage return becomes a line feed and every other character stays |
| SerialGui.Normalize | serial_gui.py:405-406 | the result has no carriage return and is no longer than the input |
| SerialGui.NormalizeIsLineBreaks | serial_gui.py:405-406 | the two replacements equal one left-to-right pass turning each CR LF pair, and each lone CR, into one LF |
| SerialGui.ReplaceCrLfNoCr | serial_gui.py:405 | text without carriage returns passes the first replacement unchanged |
| SerialGui.NormalizeNoCr | serial_gui.py:405-406 | text without carriage returns passes both replacements unchanged |
| SerialGui.NormalizeIdempotent | serial_gui.py:405-406 | normalising twice equals normalising once |
| SerialGui.CrLfAloneLeavesCr | serial_gui.py:405-406 | after the first replacement "\r\r\n" still holds a carriage return; after both it is "\n\n" |
| SerialGui.Window.constructor | serial_gui.py:18-33 | empty log and buffer, unset instant and stamp, no packet list yet, empty text, and the status bar showing "就绪" (ready), the message the interface setup it calls leaves there (line 189) |
| SerialGui.Window.UpdateReceiveDisplay | serial_gui.py:348-420 | an empty log only clears the text and schedules no scroll; otherwise the text is the normalised rendering of the log and a scroll is scheduled iff the view was within 10 of the maximum or the maximum was 0 |
| SerialGui.Window.OnDataReceived | serial_gui.py:322-345 | the log grows as `LogAfterReceive` says, the instant becomes now, the chunk count grows by one, the log stays well formed and the display is refreshed |
| SerialGui.AtBottom | serial_gui.py:360 | a view at or past the maximum is at the bottom, and one more than 10 steps short of a maximum above 10 is not |
| SerialGui.Window.ScrollToBottom | serial_gui.py:530-537 | the scroll bar goes to its maximum, which is at the bottom, and the lock box is unticked |
| SerialGui.Window.ClearReceive | serial_gui.py:441-447 | as written: buffer, stamp and text are reset and an empty packet list is assigned, but the log and the previous instant are kept |
| SerialGui.Window.ClearReceiveCorrected | serial_gui.py:441-447 | as intended: additionally empties the log and unsets the previous instant |
| SerialGui.Window.SendData | serial_gui.py:295-319 | a closed port gives the "open the port first" warning; empty input does nothing; hex input failing the integer pre-check gives the invalid-hex warning; otherwise the transport's answer goes to the status bar and the transport writes what its own contract says |
| SerialGui.ClearKeepsHistory | serial_gui.py:441-447 | receiving 0xAB, clearing and receiving 0xCD 1 ms later shows "abcd" |
| SerialGui.ClearForgetsHistory | serial_gui.py:441-447 | the same steps with the corrected clear show "cd" |

## Left out

- Qt widgets, layout, signals, timers and message boxes are not modelled. Check box states and scroll bar readings are method parameters, and warnings are return values.
- The window's scroll is scheduled with a zero-delay timer. `UpdateReceiveDisplay` returns whether it was scheduled, and `ScrollToBottom` is a separate call.
- The earlier `scroll_to_bottom` (serial_gui.py:423-436) is not modelled: the later definition at serial_gui.py:530 replaces it in the class.
- Line wrap mode (serial_gui.py:366-369) is left out. It only changes widget layout.
- The signal fired when the lock box is unticked is left out, because its handler only touches the scroll lock.
- The reader thread, its stop event, the join and the 1 ms sleep are left out. `ReadLoop` runs over a finite trace of iterations and ends when the trace does or the port is found closed.
- `time.time()` floats are left out: times are whole milliseconds.
- The driver (pyserial) is left out. A poll is an input (`Poll`), a failing open or write is an optional error text, and writes go to a ghost history.
- The `print` diagnostics, the signal emit and the callback (with its try/except) are left out. The emitted packet is the return value of `Step`.
- UTF-8 encoding and decoding with replacement are function parameters (`encode`, `decode`), because they are library codecs.
- `strftime` stamps are opaque strings.
- The text of the exception `bytes.fromhex` raises is a parameter.
- The `int(hex_data, 16)` pre-check of the send button is a boolean parameter (`intParses`), because it is a library parse.
- The `str(data)` fallbacks of the display refresh are left out. Hexlify and decoding with replacement never raise on bytes.
- The try/except around the receive callback is left out, because no modelled step raises.
- `get_ports`, `start_read_thread`, `set_callback`, `set_timestamp_enabled` and `_get_current_timestamp` are left out. They are driver enumeration, threading, or stamp formatting used only by `print`.
- data_logger.py, main.py, `save_receive`, `toggle_timestamp` and the other window handlers are not part of this model. They are file I/O and UI wiring.
- SerialGui.HexRenderLineBreaks: stated for hex mode without stamps only, because decoded text and stamps are opaque and may hold any characters.
- SerialComm.HexPayloadAccepts: stated only for input whose only whitespace is the space. `FromHex` itself models the skipping of other whitespace between pairs.

## Findings

| source | as written | input that shows it | evidently intended | confidence | as-written member | corrected member |
|---|---|---|---|---|---|---|
| serial_gui.py:441-447 | `clear_receive` resets the raw buffer and the text area and assigns an unused `data_packets`, but never empties the receive log or resets the previous instant, so the next refresh redraws everything received before the clear | receive 0xAB in hex mode, press clear, receive 0xCD 1 ms later: the display reads "abcd" | clearing empties the log, so only "cd" is shown afterwards | not executed | SerialGui.ClearKeepsHistory | SerialGui.Window.ClearReceiveCorrected |
