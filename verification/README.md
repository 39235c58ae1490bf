# Serial pendant plugins for Universal G-code Sender: a Dafny model

This project models three small Universal G-code Sender plugins. Each one connects a hand-held pendant to the sender over a serial port. It models their protocol logic: the port scan and handshake, the line framing of incoming bytes, how a line is classified and dispatched, the liveness timeout, the KEY code table, and the status frames sent back.

- `SerialCommand` (SerialCommand.java, and the identical first class of serialcommand.java). It runs a 100 ms loop that scans for a port while disconnected and runs `heartbeatTick` while connected.
  - The peer pings with `NANO`, which is answered with `UGS\n`.
  - `REQ` asks for the 38-byte status buffer, sent after a `SYNC\n` line.
  - `KEY:<code>` runs the code table.
  - A session ends after more than 10000 ms without a ping.
- `serialControl` (serialControl.java). It scans once and runs one session.
  - `REQ` keeps the session alive and is answered with a 44-byte `SYNC` packet of ten little-endian floats, NaN replaced by 0.
  - Each key is followed by such a packet.
  - The thread ends on a timeout or a malformed key.
- The pendant class (the second class of serialcommand.java).
  - A passive scan selects the port whose first line is `KEY:-1`.
  - Screen updates are pushed as four `LCD:<row>:` segments of two 10-character cells each.
  - A blocking read loop handles keys and skips malformed ones.

Modules:

- `Base` holds the shared types.
- `Text` models `String.trim`, `startsWith` and `Integer.parseInt`.
- `Framer` models the byte-to-line framer.
- `Commands` models line classification and the KEY code table.
- `Wire` models the little-endian float encoding and the two binary frames.
- `Snapshot` holds the status words each encoder produces.
- `Supervisor` holds the connected step shared by `heartbeatTick` and serialControl's loop, parameterised by how a line is reacted to.
- `Scan` models port discovery.
- `Nano` is the SerialCommand session.
- `Control` is the serialControl session.
- `Lcd` covers the pendant screen.
- `Pendant` is the pendant thread.

The sessions are pure functions. Each step takes the bytes available on the port, as reads that may end in `-1`, and one clock reading. It returns the new session and the effects in order: a write of bytes, a call on the backend or jog service, or the closing of the port. Floats are IEEE bit patterns (`Word` for `float`, `Double` for `double`). The float operations the code uses are parameters:

- the `double`-to-`float` cast;
- the division by 25.4;
- the `int`-to-`float` conversion;
- the `%+06.3f` formatting.

The NaN test is modelled exactly on the bits, and so is every byte layout.

Behaviour of the code worth noting:

- **Rotary axis conversion.** The rotary axis a is converted along with x, y and z in all three encoders. The pendant's `pushUpdate` divides it by 25.4 twice in inch mode (`Lcd.Position`, `Lcd.RotaryDividedTwice`).
- **serialControl converts in the opposite units.** Its packet divides by 25.4 when the jog unit IS millimetres; SerialCommand and the pendant divide when it is not (`Control.OppositeConversion`).
- **NaN in SerialCommand's buffer.** `collectStatus` clears a NaN only in a; NaN in x, y or z reaches the buffer (`Snapshot.StatusWordsKeepNaNInX`). Only serialControl's packet is guaranteed free of NaN (`Snapshot.SnapshotHasNoNaN`).
- **Back-pressure guards differ.** SerialCommand's `pushBuffer` does not check the port's unsent byte count. serialControl's `sendSnapshot` skips only a positive count, while the pendant's `sendToPendant` writes only when the count is exactly 0. The two therefore differ on the -1 that `bytesAwaitingWrite()` reports for a port that is not open (`Control.NothingSentWhileAwaiting`, `Lcd.PushUpdate`, `Lcd.NegativeCountSplitsGuards`).
- **Reconnection keeps the partial line.** A SerialCommand reconnection keeps the partial line from the previous session, so it is prefixed to the next session's first line (`Nano.PartialLineSurvivesReconnect`).
- **Empty ticks.** A tick with nothing to read changes nothing only while the peer is fresh. Once the peer has been silent more than 10000 ms, the same empty tick disconnects and closes the port (`Supervisor.TickWithoutInput`, `Supervisor.TickWithoutInputExpires`).

## Model

| member | source | states |
|---|---|---|
| Text.Trim | ugs-platform/ugs-platform-plugin-serialcommand/src/main/java/com/willwinder/ugs/nbp/serialcommand/SerialCommand.java:142 | the result is the input without its leading and trailing characters at or below U+0020; it is empty exactly when every character is such a blank, and otherwise starts and ends with a non-blank |
| Text.TrimIdempotent | ugs-platform/ugs-platform-plugin-serialcommand/src/main/java/com/willwinder/ugs/nbp/serialcommand/SerialCommand.java:142 | trimming an already trimmed line changes nothing |
| Text.TrimDropsNewline | ugs-platform/ugs-platform-plugin-serialcommand/src/main/java/com/willwinder/ugs/nbp/serialcommand/SerialCommand.java:140-142 | the '\n' appended to the line builder before `trim()` never reaches the line |
| Text.ParseInt | ugs-platform/ugs-platform-plugin-serialcommand/src/main/java/com/willwinder/ugs/nbp/serialcommand/SerialCommand.java:151-152 | a string is accepted iff it is an optional '-' or '+' followed by at least one ASCII digit and its value fits a 32-bit int; the result is that value, so leading zeros and a '+' are read as well |
| Text.ParseShowInt | ugs-platform/ugs-platform-plugin-serialcommand/src/main/java/com/willwinder/ugs/nbp/serialcommand/SerialCommand.java:152 | every 32-bit int written in decimal is parsed back to itself |
| Text.ParseNonCanonical | ugs-platform/ugs-platform-plugin-serialcommand/src/main/java/com/willwinder/ugs/nbp/serialcommand/SerialCommand.java:152 | "+5", "007" and "-0" are accepted and read as 5, 7 and 0 |
| Framer.Available | ugs-platform/ugs-platform-plugin-serialcommand/src/main/java/com/willwinder/ugs/nbp/serialcommand/SerialCommand.java:135-138 | a drain consumes the bytes up to the first end-of-stream (-1) and widens each to a char |
| Framer.AvailableAppend | ugs-platform/ugs-platform-plugin-serialcommand/src/main/java/com/willwinder/ugs/nbp/serialcommand/SerialCommand.java:135-138 | two drains without an end-of-stream read the same characters as one |
| Framer.Frame | ugs-platform/ugs-platform-plugin-serialcommand/src/main/java/com/willwinder/ugs/nbp/serialcommand/SerialCommand.java:135-143 | one complete line is emitted per '\n'; a pending line free of '\n' and '\r' stays so |
| Framer.FrameAppend | ugs-platform/ugs-platform-plugin-serialcommand/src/main/java/com/willwinder/ugs/nbp/serialcommand/SerialCommand.java:33 | bytes framed in two ticks give the lines of one tick, because the pending line carries over |
| Framer.FrameIsSplitLines | ugs-platform/ugs-platform-plugin-serialcommand/src/main/java/com/willwinder/ugs/nbp/serialcommand/SerialCommand.java:135-143 | the framer agrees with an independent reference: the pending text plus the input with '\r' removed, split at '\n', each complete segment trimmed, the remainder pending |
| Framer.FrameCompletesLine | ugs-platform/ugs-platform-plugin-serialcommand/src/main/java/com/willwinder/ugs/nbp/serialcommand/SerialCommand.java:140-143 | a line ended by '\n' is the trimmed join of the pending text and what followed it; the pending line is then empty |
| Commands.HandleCode | ugs-platform/ugs-platform-plugin-serialcommand/src/main/java/com/willwinder/ugs/nbp/serialcommand/SerialCommand.java:216-254 | without backend and jog service nothing is called; codes 0-7 make one jog move; 8-11 set all three step sizes; 12-19, 22, 23, 25-27 make one backend call; 20, 21, 24 and codes outside 0..27 do nothing |
| Commands.HandleCodeInvertible | ugs-platform/ugs-platform-plugin-serialcommand/src/main/java/com/willwinder/ugs/nbp/serialcommand/serialcommand.java:441-532 | the code table is one-to-one: every code that does something is read back from its call by an independent reverse table |
| Commands.KeyForSound | ugs-platform/ugs-platform-plugin-serialControl/src/main/java/com/willwinder/serialcontrol/serialControl.java:261-356 | every call the reverse table names is made by exactly that code |
| Commands.Classify | ugs-platform/ugs-platform-plugin-serialcommand/src/main/java/com/willwinder/ugs/nbp/serialcommand/SerialCommand.java:146-158 | a line is a ping iff it equals "NANO", a request iff it equals "REQ", and a key iff it starts with "KEY:"; a key's code is the int32 `parseInt` accepts, and a bad key is one whose suffix it rejects |
| Commands.ClassifyKeyLine | ugs-platform/ugs-platform-plugin-serialcommand/src/main/java/com/willwinder/ugs/nbp/serialcommand/SerialCommand.java:151-153 | the line a pendant sends for any int32 code is classified back as that key |
| Commands.SpacedKeyIsBad | ugs-platform/ugs-platform-plugin-serialcommand/src/main/java/com/willwinder/ugs/nbp/serialcommand/SerialCommand.java:152 | "KEY: 5" is a bad key, because `parseInt` rejects a leading space |
| Wire.UnpackPack | ugs-platform/ugs-platform-plugin-serialcommand/src/main/java/com/willwinder/ugs/nbp/serialcommand/SerialCommand.java:196-203 | decoding little-endian 4-byte words inverts their encoding |
| Wire.Sanitize | ugs-platform/ugs-platform-plugin-serialControl/src/main/java/com/willwinder/serialcontrol/serialControl.java:186-192 | the written word is never a NaN; a number is written unchanged, and a NaN as +0.0 |
| Wire.Frame44 | ugs-platform/ugs-platform-plugin-serialControl/src/main/java/com/willwinder/serialcontrol/serialControl.java:235-252 | the packet is 44 bytes: "SYNC" and then the ten fields, each sanitized and little-endian |
| Wire.Decode44Frame44 | ugs-platform/ugs-platform-plugin-serialControl/src/main/java/com/willwinder/serialcontrol/serialControl.java:235-252 | decoding the packet returns the ten sanitized fields, none of which is a NaN |
| Snapshot.StatusCode | ugs-platform/ugs-platform-plugin-serialControl/src/main/java/com/willwinder/serialcontrol/serialControl.java:223-233 | status is 1 when paused, else 2 when sending a file, else 0 when idle, else 3; never a NaN |
| Snapshot.ControlFields | ugs-platform/ugs-platform-plugin-serialControl/src/main/java/com/willwinder/serialcontrol/serialControl.java:202-250 | the packet fields in order: x, y, z divided by 25.4 in millimetre mode; a with NaN cleared first; then status, feed, sent rows, total rows, step size, live feed |
| Snapshot.SendSnapshot | ugs-platform/ugs-platform-plugin-serialControl/src/main/java/com/willwinder/serialcontrol/serialControl.java:194-259 | a packet is sent iff the unsent byte count is not positive (a count of -1 included) and both the read-only backend and the jog service exist; it decodes to the sanitized fields |
| Snapshot.SnapshotHasNoNaN | ugs-platform/ugs-platform-plugin-serialControl/src/main/java/com/willwinder/serialcontrol/serialControl.java:186-192 | no field of a sent packet is a NaN, whatever the machine reports |
| Snapshot.StatusWords | ugs-platform/ugs-platform-plugin-serialcommand/src/main/java/com/willwinder/ugs/nbp/serialcommand/SerialCommand.java:178-194 | the six buffer words: x, y, z, a (NaN cleared in a only), divided by 25.4 when the unit is not millimetres; then feed rate and step size |
| Snapshot.CollectStatus | ugs-platform/ugs-platform-plugin-serialcommand/src/main/java/com/willwinder/ugs/nbp/serialcommand/SerialCommand.java:175-204 | without backend or jog service the buffer is unchanged; otherwise bytes 0-23 decode to the six status words and bytes 24-37 keep their old contents |
| Snapshot.BufferFrameCarriesStatus | ugs-platform/ugs-platform-plugin-serialcommand/src/main/java/com/willwinder/ugs/nbp/serialcommand/SerialCommand.java:206-214 | the "SYNC\n" line and the buffer written on REQ decode to the words of the last collectStatus |
| Snapshot.StatusWordsKeepNaNInX | ugs-platform/ugs-platform-plugin-serialcommand/src/main/java/com/willwinder/ugs/nbp/serialcommand/SerialCommand.java:181 | in millimetre mode a NaN in x reaches the buffer unchanged |
| Snapshot.StatusWordsRotaryNotNaN | ugs-platform/ugs-platform-plugin-serialcommand/src/main/java/com/willwinder/ugs/nbp/serialcommand/SerialCommand.java:184-191 | the a word is never a NaN, provided narrowing and division map numbers to numbers |
| Supervisor.Handled | ugs-platform/ugs-platform-plugin-serialcommand/src/main/java/com/willwinder/ugs/nbp/serialcommand/SerialCommand.java:169-171 | the lines handled are the prefix before the first line whose reaction throws |
| Supervisor.DispatchFacts | ugs-platform/ugs-platform-plugin-serialcommand/src/main/java/com/willwinder/ugs/nbp/serialcommand/SerialCommand.java:146-171 | a drain fails iff some line is a bad key; the time stamp becomes `now` iff a line handled before the failure refreshes it |
| Supervisor.FailsIsBadKey | ugs-platform/ugs-platform-plugin-serialcommand/src/main/java/com/willwinder/ugs/nbp/serialcommand/SerialCommand.java:151-152 | for a reaction that fails exactly on bad keys, a drain fails iff one of its lines is a KEY line whose suffix parseInt rejects |
| Supervisor.DispatchAppend | ugs-platform/ugs-platform-plugin-serialcommand/src/main/java/com/willwinder/ugs/nbp/serialcommand/SerialCommand.java:135-160 | reacting to two batches of lines is reacting to the first, then to the second from the time stamp the first left |
| Supervisor.Tick | ugs-platform/ugs-platform-plugin-serialcommand/src/main/java/com/willwinder/ugs/nbp/serialcommand/SerialCommand.java:129-173 | a disconnected step does nothing; a step that stays connected has a time stamp at most 10000 ms old; a closing of the port is the last effect and occurs once |
| Supervisor.TickOutcome | ugs-platform/ugs-platform-plugin-serialcommand/src/main/java/com/willwinder/ugs/nbp/serialcommand/SerialCommand.java:162-172 | a failed drain disconnects without closing and empties the line; otherwise the step disconnects and closes the port iff the refreshed time stamp is more than 10000 ms old |
| Supervisor.TickWithoutInput | ugs-platform/ugs-platform-plugin-serialcommand/src/main/java/com/willwinder/ugs/nbp/serialcommand/SerialCommand.java:135-168 | a connected step with nothing to read, within 10000 ms of the last ping, leaves the session unchanged and does nothing |
| Supervisor.TickWithoutInputExpires | ugs-platform/ugs-platform-plugin-serialcommand/src/main/java/com/willwinder/ugs/nbp/serialcommand/SerialCommand.java:162-168 | a step with nothing to read after too long a silence disconnects and closes the port, keeping the pending line |
| Supervisor.TickChunks | ugs-platform/ugs-platform-plugin-serialcommand/src/main/java/com/willwinder/ugs/nbp/serialcommand/SerialCommand.java:33 | bytes arriving in two ticks at one clock reading produce the same effects and session as when they arrive in one |
| Supervisor.TickNeverWrites | ugs-platform/ugs-platform-plugin-serialControl/src/main/java/com/willwinder/serialcontrol/serialControl.java:197-200 | a step whose reactions never write writes nothing, whatever lines arrive |
| Supervisor.RunClosesAtMostOnce | ugs-platform/ugs-platform-plugin-serialcommand/src/main/java/com/willwinder/ugs/nbp/serialcommand/SerialCommand.java:60-69 | however many steps a session runs, the port is closed at most once, and a run that closed it ends disconnected |
| Scan.ScanFrom | ugs-platform/ugs-platform-plugin-serialcommand/src/main/java/com/willwinder/ugs/nbp/serialcommand/SerialCommand.java:76-109 | the selected port is the first that opens and passes the handshake; with no selection, no port passes |
| Scan.ScanPorts | ugs-platform/ugs-platform-plugin-serialcommand/src/main/java/com/willwinder/ugs/nbp/serialcommand/SerialCommand.java:73-114 | a port is selected iff some port accepts the handshake |
| Scan.ScanCloses | ugs-platform/ugs-platform-plugin-serialcommand/src/main/java/com/willwinder/ugs/nbp/serialcommand/SerialCommand.java:104-105 | exactly the ports that opened before the selected one (all that opened, when none is selected) are closed |
| Scan.ScanAcks | ugs-platform/ugs-platform-plugin-serialcommand/src/main/java/com/willwinder/ugs/nbp/serialcommand/SerialCommand.java:92-100 | "CONACK\n" is written to a port iff the handshake is active and that port is selected |
| Scan.ScanInOrder | ugs-platform/ugs-platform-plugin-serialcommand/src/main/java/com/willwinder/ugs/nbp/serialcommand/SerialCommand.java:76 | ports are touched in listing order, each at most once |
| Scan.ScanIsFirstMatch | ugs-platform/ugs-platform-plugin-serialControl/src/main/java/com/willwinder/serialcontrol/serialControl.java:93-125 | the first accepting port is selected, and in the active handshake its acknowledgement is the scan's last act |
| Scan.NoiseThenConReq | ugs-platform/ugs-platform-plugin-serialcommand/src/main/java/com/willwinder/ugs/nbp/serialcommand/SerialCommand.java:89-101 | noise lines before "CONREQ" do not prevent the handshake |
| Scan.PassiveLooksAtFirstLineOnly | ugs-platform/ugs-platform-plugin-serialcommand/src/main/java/com/willwinder/ugs/nbp/serialcommand/serialcommand.java:316-331 | the passive handshake reads one line: a "KEY:-1" arriving second does not select the port, which is closed |
| Scan.PassiveNeverWrites | ugs-platform/ugs-platform-plugin-serialcommand/src/main/java/com/willwinder/ugs/nbp/serialcommand/serialcommand.java:316-331 | the passive scan never writes to any port |
| Nano.Initial | ugs-platform/ugs-platform-plugin-serialcommand/src/main/java/com/willwinder/ugs/nbp/serialcommand/SerialCommand.java:31-39 | the constructed plugin is disconnected, with an empty line builder and a 38-byte buffer |
| Nano.React | ugs-platform/ugs-platform-plugin-serialcommand/src/main/java/com/willwinder/ugs/nbp/serialcommand/SerialCommand.java:146-158 | only "NANO" refreshes the time stamp, answered with "UGS\n"; a key runs the table; "REQ" writes the buffer frame; a bad key throws; no reaction closes the port |
| Nano.HeartbeatTick | ugs-platform/ugs-platform-plugin-serialcommand/src/main/java/com/willwinder/ugs/nbp/serialcommand/SerialCommand.java:129-173 | the tick never touches the status buffer, is a no-op while disconnected, leaves a connected session with a time stamp at most 10000 ms old, and when it closes the port that is its last effect and the session is disconnected |
| Nano.HeartbeatLiveness | ugs-platform/ugs-platform-plugin-serialcommand/src/main/java/com/willwinder/ugs/nbp/serialcommand/SerialCommand.java:146-172 | lastNanoPing becomes `now` iff a "NANO" line is handled before any bad key, so keys and requests do not keep the session alive; without a bad key the tick disconnects and closes the port iff the peer was silent more than 10000 ms |
| Nano.HeartbeatChunks | ugs-platform/ugs-platform-plugin-serialcommand/src/main/java/com/willwinder/ugs/nbp/serialcommand/SerialCommand.java:135-160 | a ping split over two ticks acts as one ping |
| Nano.Key25SendsJob | ugs-platform/ugs-platform-plugin-serialcommand/src/main/java/com/willwinder/ugs/nbp/serialcommand/SerialCommand.java:243 | "KEY:25" sends the job and does nothing else |
| Nano.Connect | ugs-platform/ugs-platform-plugin-serialcommand/src/main/java/com/willwinder/ugs/nbp/serialcommand/SerialCommand.java:116-121 | a successful scan connects with lastNanoPing = now and keeps the pending line; a failed one leaves the session as it was |
| Nano.PartialLineSurvivesReconnect | ugs-platform/ugs-platform-plugin-serialcommand/src/main/java/com/willwinder/ugs/nbp/serialcommand/SerialCommand.java:33 | a partial line left by a timed-out session is joined to the first line of the next |
| Nano.PingAfterReconnectIsLost | ugs-platform/ugs-platform-plugin-serialcommand/src/main/java/com/willwinder/ugs/nbp/serialcommand/SerialCommand.java:146 | "NA" pending and then "NANO\n" yield the line "NANANO", which is not a ping |
| Nano.Collect | ugs-platform/ugs-platform-plugin-serialcommand/src/main/java/com/willwinder/ugs/nbp/serialcommand/SerialCommand.java:49-58 | the event listener's collectStatus leaves the link alone, and the next frame decodes to the current status words |
| Nano.ReqSendsCollectedStatus | ugs-platform/ugs-platform-plugin-serialcommand/src/main/java/com/willwinder/ugs/nbp/serialcommand/SerialCommand.java:154-158 | a REQ after collectStatus sends one frame that decodes to the collected status words |
| Control.SnapshotWrites | ugs-platform/ugs-platform-plugin-serialControl/src/main/java/com/willwinder/serialcontrol/serialControl.java:194-259 | at most one write, made iff the unsent byte count is not positive and the read-only backend and jog service exist; it is 44 bytes and decodes to the sanitized fields |
| Control.React | ugs-platform/ugs-platform-plugin-serialControl/src/main/java/com/willwinder/serialcontrol/serialControl.java:157-166 | only "REQ" refreshes the time stamp; a key runs the table and is then answered with a snapshot; "NANO" does nothing; a bad key throws |
| Control.Iteration | ugs-platform/ugs-platform-plugin-serialControl/src/main/java/com/willwinder/serialcontrol/serialControl.java:141-178 | a loop iteration that stays connected has a time stamp at most 10000 ms old, and a closing of the port is its last effect |
| Control.Connect | ugs-platform/ugs-platform-plugin-serialControl/src/main/java/com/willwinder/serialcontrol/serialControl.java:127-139 | a successful scan starts a connected session stamped `now` with an empty line builder |
| Control.Thread | ugs-platform/ugs-platform-plugin-serialControl/src/main/java/com/willwinder/serialcontrol/serialControl.java:88-184 | with no accepting port the thread does nothing after the scan; otherwise the session closes the port at most once |
| Control.IterationLiveness | ugs-platform/ugs-platform-plugin-serialControl/src/main/java/com/willwinder/serialcontrol/serialControl.java:157-183 | the time stamp becomes `now` iff a "REQ" is handled before any bad key, so keys and "NANO" do not keep the session alive; a bad key ends the session without closing the port; otherwise it ends, closing the port, iff the stamp is more than 10000 ms old |
| Control.NothingSentWhileAwaiting | ugs-platform/ugs-platform-plugin-serialControl/src/main/java/com/willwinder/serialcontrol/serialControl.java:197-200 | while bytes await writing, an iteration writes nothing, however many requests and keys arrive |
| Control.KeyThenSnapshot | ugs-platform/ugs-platform-plugin-serialControl/src/main/java/com/willwinder/serialcontrol/serialControl.java:157-161 | "KEY:26" on a complete installation pauses or resumes and then sends one 44-byte packet |
| Control.OppositeConversion | ugs-platform/ugs-platform-plugin-serialControl/src/main/java/com/willwinder/serialcontrol/serialControl.java:210-215 | serialControl's position words equal those collectStatus would produce with the unit flipped |
| Lcd.Cell | ugs-platform/ugs-platform-plugin-serialcommand/src/main/java/com/willwinder/ugs/nbp/serialcommand/serialcommand.java:384-386 | a cell is exactly 10 characters: the text cut to 10, or padded with spaces |
| Lcd.UnpadCell | ugs-platform/ugs-platform-plugin-serialcommand/src/main/java/com/willwinder/ugs/nbp/serialcommand/serialcommand.java:384-386 | removing the padding recovers any text of at most 10 characters without trailing spaces |
| Lcd.StatusWord | ugs-platform/ugs-platform-plugin-serialcommand/src/main/java/com/willwinder/ugs/nbp/serialcommand/serialcommand.java:423-425 | PAUSE when paused, else RUN when sending a file, else IDLE when idle, else HOLD |
| Lcd.StatusWordAgrees | ugs-platform/ugs-platform-plugin-serialcommand/src/main/java/com/willwinder/ugs/nbp/serialcommand/serialcommand.java:423-425 | the screen's status word and serialControl's status code are the same classification |
| Lcd.AxisText | ugs-platform/ugs-platform-plugin-serialcommand/src/main/java/com/willwinder/ugs/nbp/serialcommand/serialcommand.java:388-390 | an axis text is a vertical bar, the axis name, then exactly the formatted value |
| Lcd.Position | ugs-platform/ugs-platform-plugin-serialcommand/src/main/java/com/willwinder/ugs/nbp/serialcommand/serialcommand.java:401-412 | millimetre mode shows the raw position; inch mode divides x, y, z by 25.4 and a twice, showing 0 when the first division of a gave a NaN |
| Lcd.DecodeLcdBlock | ugs-platform/ugs-platform-plugin-serialcommand/src/main/java/com/willwinder/ugs/nbp/serialcommand/serialcommand.java:432-435 | the block is four "LCD:<i>:" segments each ended by '\r', and parsing it recovers the four 20-character rows |
| Lcd.SendToPendant | ugs-platform/ugs-platform-plugin-serialcommand/src/main/java/com/willwinder/ugs/nbp/serialcommand/serialcommand.java:373-382 | a message is sent, followed by '\n', iff the unsent byte count is exactly 0 |
| Lcd.PushUpdate | ugs-platform/ugs-platform-plugin-serialcommand/src/main/java/com/willwinder/ugs/nbp/serialcommand/serialcommand.java:392-439 | an update is sent iff connected, the read-only backend and the jog field exist, and nothing awaits writing; it is 109 characters ending in '\n' and decodes to the rows for the machine |
| Lcd.NegativeCountSplitsGuards | ugs-platform/ugs-platform-plugin-serialcommand/src/main/java/com/willwinder/ugs/nbp/serialcommand/serialcommand.java:373-399 | on an unsent byte count of -1 the pendant pushes no screen, while serialControl sends its packet |
| Lcd.ScreenContents | ugs-platform/ugs-platform-plugin-serialcommand/src/main/java/com/willwinder/ugs/nbp/serialcommand/serialcommand.java:427-430 | cell by cell, the screen shows status and X, feed and Y, blank and Z, line counter and A |
| Lcd.FeedShowsZeroWithoutJog | ugs-platform/ugs-platform-plugin-serialcommand/src/main/java/com/willwinder/ugs/nbp/serialcommand/serialcommand.java:417-421 | when the fresh jog-service lookup fails, the feed cell reads "F0" |
| Lcd.RotaryDividedTwice | ugs-platform/ugs-platform-plugin-serialcommand/src/main/java/com/willwinder/ugs/nbp/serialcommand/serialcommand.java:406-412 | in inch mode a holding the same value as x shows as x divided by 25.4 once more |
| Pendant.LineActions | ugs-platform/ugs-platform-plugin-serialcommand/src/main/java/com/willwinder/ugs/nbp/serialcommand/serialcommand.java:355-366 | a trimmed "KEY:" line with an integer suffix runs the table; every other line does nothing |
| Pendant.LoopAppend | ugs-platform/ugs-platform-plugin-serialcommand/src/main/java/com/willwinder/ugs/nbp/serialcommand/serialcommand.java:354-367 | the loop handles lines independently: its calls on a + b are its calls on a, then on b |
| Pendant.BadKeyIsSkipped | ugs-platform/ugs-platform-plugin-serialcommand/src/main/java/com/willwinder/ugs/nbp/serialcommand/serialcommand.java:359-365 | a malformed key is skipped and the loop carries on with the following lines |
| Pendant.KeyNoopIsSkipped | ugs-platform/ugs-platform-plugin-serialcommand/src/main/java/com/willwinder/ugs/nbp/serialcommand/serialcommand.java:356-366 | a repeated handshake line "KEY:-1" does nothing |
| Pendant.LoopRunsEveryKey | ugs-platform/ugs-platform-plugin-serialcommand/src/main/java/com/willwinder/ugs/nbp/serialcommand/serialcommand.java:441-532 | every key line the pendant sends is executed once and in order: the loop's calls equal the table's calls for each code in turn |
| Pendant.Connect | ugs-platform/ugs-platform-plugin-serialcommand/src/main/java/com/willwinder/ugs/nbp/serialcommand/serialcommand.java:334-352 | the pendant connects iff the passive scan selects a port; nothing is written during the scan; the first screen is pushed iff the read-only backend and the jog field exist and nothing awaits writing |
| Pendant.Thread | ugs-platform/ugs-platform-plugin-serialcommand/src/main/java/com/willwinder/ugs/nbp/serialcommand/serialcommand.java:302-337 | with no pendant found, no call is ever made |


## Left out

- I/O is left out. Serial ports, streams, the output window, `Thread.sleep` and the platform lookup are not modelled. What a lookup finds is a `Services` value; the bytes available are a parameter; each tick takes one clock reading.
- Threads and races are left out. The `collecting`/`nanoRequestActive` guards of SerialCommand's listener are not modelled. A collectStatus is an explicit step between ticks (`Nano.Collect`).
- Floating-point arithmetic and `String.format` are parameters (`Numerics`). The model takes no position on the values they compute; the NaN test and byte layouts are exact.
- serialControl's live feed computation (serialControl.java lines 67-85) is left out: it scales units through backend settings. `liveFeedRate` is a field of the machine state.
- `liveSpindleSpeed` is computed but never sent, so it is not modelled.
- Character encodings are left out. `getBytes()` is modelled as ASCII for the fixed replies; the pendant's screen text is kept as a string.
- Scanner line splitting is left out. The lines a Scanner yields during a scan, or in the pendant's read loop, are given as a list. The try-with-resources in both scans closes the Scanner, and with it the port's input stream, and may buffer and lose bytes. Neither effect is modelled.
- Write exceptions are not modelled. Where the source swallows them (`pushBuffer`, `sendSnapshot`, `sendToPendant`), the model treats every write as succeeding.
- Nano.React: an IOException from the "UGS\n" reply (SerialCommand.java line 148) is not modelled. In the source it ends the session through the catch at lines 169-171, without closing the port.
- Scan.ScanFrom: a failed "CONACK\n" write (SerialCommand.java line 94, serialControl.java line 110) is not modelled. In the source it aborts the whole scan through the outer catch (SerialCommand.java lines 124-126, serialControl.java lines 180-183) and leaves that port open.
- Exceptions from `closePort` and `available()` are not modelled. They would end the session the way a bad key does.
- Text.ParseInt accepts ASCII digits only; `Integer.parseInt` also accepts other Unicode decimal digits.
- Supervisor.Tick: after a bad key, SerialCommand's tick leaves the rest of the drain unread in the port, while the model discards it. Like the source, the model empties the line builder in that case.
- Control.Iteration: one `Env` (services, unsent byte count, machine) holds for a whole iteration, and Control.Thread uses one for the whole session; the source reads these anew for every snapshot.
- The pendant loop's `connected` flag stays true after the stream ends, and no listener is removed. The model stops at the end of the line list.
- The pendant's event listener calling `pushUpdate` after connection is left out. The model exposes the push itself (`Lcd.PushUpdate`), which any listener call performs.
- Commands.HandleCode does not model a jog or backend call that throws inside the switch, because the source swallows such exceptions.
- Pendant.Thread states only the no-pendant case. The connected case is `Pendant.Loop`, described by the Loop lemmas.
- Control.Thread states the scan, the no-port case and the single closing of the port. What each iteration of its session does is stated by `Control.Iteration` and `Control.IterationLiveness`.
