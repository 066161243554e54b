# nats-tty in Dafny

nats-tty lets a browser talk to local serial ports over a NATS message bus.
It has two halves.

- **The bridge** (`serial-bridge.js`) is a process next to the serial ports. It keeps a registry from a *device key* to the port opened for that device. It opens and closes ports on `serial.<key>.control` commands. It writes the bytes of `serial.<key>.in` messages to the port. It publishes everything a port reads on `serial.<key>.out`.
- **The client** (`public/app.js`) is the browser page. It holds the connection flags that gate opening, closing and sending. It sends text or hexadecimal input, shows received data as text or as hexadecimal, counts bytes and messages, and shows how long the connection has been up.

The model is a set of Dafny modules:

| module | file | what it holds |
|---|---|---|
| `Wrappers` | wrappers.dfy | `Option` |
| `Js` | js.dfy | the JavaScript built-ins the core relies on: the `\s` class, `trim`, `toString(radix)`, `padStart`, `toUpperCase` on digits, `parseInt(_, 16)`, storing into a `Uint8Array` |
| `DeviceKey` | device_key.dfy | `sanitizeDeviceName`. The bridge and the client carry textually identical copies, so one function stands for both. |
| `Topics` | topics.dfy | bus subjects, the decoded control message, and the input-subject regular expression |
| `SerialBridge` | bridge.dfy | the registry as a `class Bridge`, with the control and input routers, the port event handlers and `shutdown` |
| `Hex` | hex.dfy | the client's hexadecimal encoder and formatter, and their round trip |
| `Elapsed` | elapsed.dfy | the `HH:MM:SS` connection timer |
| `Terminal` | terminal.dfy | the client as a `class Client`, with `updateUI` |

The serial driver, the bus and the page are abstract. Outcomes the code cannot control are parameters of the operations that meet them:

- a port close that fails;
- a port constructor that throws;
- a publish that throws;
- a drain that fails;
- `Date.now()`.

Effects on the outside world are logged in sequence fields:

- close requests and writes handed to the driver;
- messages published by the bridge and by the client.

On the bridge:

- A newly constructed port is not open yet: the driver opens it asynchronously. `Bridge.PortOpened` is the driver step that sets its `isOpen` flag.
- A device field that is missing or not a string makes `sanitizeDeviceName` throw. The control router catches the error, so nothing changes.

On the client:

- `disconnectNATS` can fail to publish the `close` for the serial port while the drain afterwards succeeds. The client is then left with `isSerialOpen` set and `isNatsConnected` cleared. `DisconnectNats` states this outcome.
- In that state the close and send buttons are enabled, but `closeSerial` and `sendData` both refuse.

Three behaviours of the bridge code that the model keeps:

- A serial `error` event only logs (serial-bridge.js:147-149). It does not remove the registry entry.
- Opening over an existing key installs the new port even when closing the old one failed (serial-bridge.js:111-114, 158). The old port then stays open but is no longer in the registry.
- Nothing guards `shutdown` against a second signal (serial-bridge.js:226, 255-256).

## Model

| member | source | states |
|---|---|---|
| DeviceKey.Sanitize | serial-bridge.js:222-224 | The key holds only `[A-Za-z0-9_]`. It has one character per UTF-16 code unit of the device name, and it is empty exactly when the name is. |
| DeviceKey.SanitizeBmp | serial-bridge.js:222-224 | For a name without astral characters, the key has the same length. Position by position, an alphanumeric character is kept and any other character becomes `_`. |
| DeviceKey.SanitizeKey | serial-bridge.js:222-224 | A string of key characters is left unchanged. |
| DeviceKey.SanitizeIdempotent | public/app.js:399-401 | Sanitizing twice gives the same key as sanitizing once. |
| Topics.ParseInputSubject | serial-bridge.js:77-82 | When the regular expression matches, the extracted key is non-empty, contains no line terminator, and occurs in the subject as `serial.<key>.in`. |
| Topics.ParseInputSubjectComplete | serial-bridge.js:77-82 | When some non-empty, terminator-free `k` occurs as `serial.<k>.in`, the expression matches, so the message is not ignored. |
| Topics.InSubjectParses | serial-bridge.js:78-80 | The subject `serial.<k>.in` yields exactly `k`. |
| SerialBridge.WithDefaults | serial-bridge.js:93-101 | Each option is the field when it is truthy and otherwise 115200, 8, 1 or `'none'`, so no option is ever falsy. |
| SerialBridge.AfterClose | serial-bridge.js:165-192 | An absent key changes nothing. The key's entry goes when its port is not open or closes cleanly, and stays when the close reports an error. No other key is touched. |
| SerialBridge.CloseRequestsFor | serial-bridge.js:177-184 | The driver is asked to close exactly the key's port, and only when that port is open. |
| SerialBridge.AfterOpen | serial-bridge.js:107-163 | Any existing entry is closed first. When the constructor succeeds, the key holds the new record whatever the close did. When it throws, only the close's effect remains. Other keys are untouched. |
| SerialBridge.AfterCloseWellFormed | serial-bridge.js:165-192 | A close keeps every entry under its own device's key, with distinct ports. |
| SerialBridge.AfterOpenWellFormed | serial-bridge.js:107-163 | An open keeps every entry under its own device's key, with distinct ports. |
| SerialBridge.ShutdownIteration | serial-bridge.js:230-231 | Closing one pending entry keeps the shutdown invariant. The visited entries that remain are exactly those whose open port refused to close. The close requests are the open ports among the visited keys. |
| SerialBridge.ShutdownFinished | serial-bridge.js:229-232 | After every entry has been visited, only open ports whose close failed remain. When no close fails, the registry is empty. |
| SerialBridge.Bridge.constructor | serial-bridge.js:19-22 | The registry starts empty. |
| SerialBridge.Bridge.CloseSerialPort | serial-bridge.js:165-192 | The new registry and close requests are `AfterClose` and `CloseRequestsFor` of the old registry. The registry stays well formed. |
| SerialBridge.Bridge.OpenSerialPort | serial-bridge.js:107-163 | The new registry is `AfterOpen`, with a fresh, not yet open port under `sanitize(device)`. A port already under the key is asked to close when it is open, and the registry stays well formed. |
| SerialBridge.Bridge.HandleControlCommand | serial-bridge.js:92-105 | `open` opens with the defaults filled in and `close` closes. Any other action, or a device that is not a string, changes nothing. |
| SerialBridge.Bridge.HandleInputData | serial-bridge.js:194-220 | The payload is written verbatim to the key's port exactly when the key is registered and its port is open. Otherwise nothing is written. |
| SerialBridge.Bridge.OnInputMessage | serial-bridge.js:74-82 | A message is written only when its subject yields a key whose port is open. A subject that does not match writes nothing. |
| SerialBridge.Bridge.PortOpened | serial-bridge.js:120-131 | The driver opening a port sets only that port's `isOpen`. The keys and all other entries stay as they were. |
| SerialBridge.Bridge.OnPortData | serial-bridge.js:134-137 | Each chunk is appended unchanged, after the earlier ones, as a publish on `serial.<key>.out`. |
| SerialBridge.Bridge.OnPortClosed | serial-bridge.js:152-155 | The port's close event removes its key and nothing else. |
| SerialBridge.Bridge.Shutdown | serial-bridge.js:226-232 | Every entry is closed. What remains is the set of open entries whose close failed, with their records unchanged. With no failure the registry ends empty. The close requests added are exactly the open ports, each asked once: no id repeats. |
| Js.Trim | public/app.js:165 | The result is an infix of the input with only whitespace cut from either side. It has no whitespace at either end, and is empty exactly when the input is all whitespace. |
| Js.NatToString | public/app.js:298 | `toString(radix)` gives non-empty digits of that radix, without a leading zero, whose value is the number. |
| Js.PadStartValue | public/app.js:384 | Zero padding does not change the value the digits denote. |
| Js.ParseIntHex | public/app.js:268 | On non-empty hexadecimal digits, `parseInt(_, 16)` is their value. On blank text it is NaN. |
| Js.ToUint8 | public/app.js:268 | A number in 0..255 is stored unchanged. NaN is stored as 0, and anything else modulo 256. |
| Hex.StripWhitespace | public/app.js:267 | The result has no whitespace, text without whitespace is left as it is, and the result is empty exactly when the text is only whitespace. With `Hex.StripWhitespaceAppend` this fixes the result. |
| Hex.Pairs | public/app.js:268 | The text splits into `ceil(n/2)` consecutive chunks of two characters, the last possibly one. |
| Hex.HexEncode | public/app.js:267-268 | Nothing is sent exactly when every character of the text is whitespace. Otherwise there are `ceil(n/2)` bytes for `n` non-whitespace characters. |
| Hex.HexEncodeDigits | public/app.js:267-268 | On hexadecimal-digit input, byte `i` is the value of digits `2i` and `2i+1`. |
| Hex.HexByte | public/app.js:298 | A byte is shown as two upper-case hexadecimal digits: the high nibble, then the low one. |
| Hex.HexByteIsJsFormat | public/app.js:298 | `HexByte` equals `toString(16).padStart(2, '0').toUpperCase()`. |
| Hex.HexFormat | public/app.js:297-299 | `n` bytes are shown in `3n - 1` characters, or none when there are no bytes. |
| Hex.HexFormatLayout | public/app.js:297-299 | Byte `i` occupies columns `3i` and `3i+1`, and a single space follows every byte but the last. |
| Hex.StripHexFormat | public/app.js:297-299 | Removing the whitespace from the shown text leaves the bytes' digits back to back. |
| Hex.HexRoundTrip | public/app.js:267-268 | Text shown by the hexadecimal formatter, typed back in hexadecimal mode, sends exactly the same bytes. |
| Elapsed.FormatElapsed | public/app.js:378-384 | For non-negative elapsed time the text is digits with colons at the sixth and third places from the end, at least eight characters long. |
| Elapsed.JsRem | public/app.js:380-381 | JavaScript's `%` has the sign of the dividend, and agrees with the Euclidean remainder on non-negative operands. |
| Elapsed.ClockOf | public/app.js:378-381 | For non-negative elapsed time, minutes and seconds are below 60, hours are non-negative, and `h*3600 + m*60 + s` is the number of whole seconds elapsed. |
| Elapsed.Pad2 | public/app.js:384 | A non-negative field is shown as at least two decimal digits that denote it, and exactly two below 100. From 10 on it is the plain decimal text of the number, with no leading zero. |
| Elapsed.FormatElapsedReadBack | public/app.js:383-384 | The three colon-separated fields of the text read back as hours, minutes and seconds. The last two fields are exactly two digits. |
| Elapsed.FormatElapsedWidth | public/app.js:383-384 | The text is exactly `HH:MM:SS`, eight characters, exactly when less than 100 hours have elapsed. |
| Terminal.ButtonStates | public/app.js:348-360 | Exactly one of connect and disconnect is enabled. Open is enabled exactly when connected and not open. Close, send and the input field are enabled exactly when the port is open. Open and close are never both enabled. |
| Terminal.OpenCommand | public/app.js:174-181 | The command asks for an open of the device. Each option the page left empty, zero or NaN reaches the bridge's port as its default (115200, 8, 1, `none`), and every other value is kept. |
| Terminal.CloseCommand | public/app.js:218-222 | The command asks for a close of the device and carries no port options. |
| Terminal.Payload | public/app.js:257-279 | In hexadecimal mode the bytes are `HexEncode` of the text, and nothing is sent exactly when every character of the text is whitespace. Text mode sends the encoder's bytes. |
| Terminal.Client.constructor | public/app.js:3-24 | The client starts disconnected, with no device, zero counters and buttons matching the flags. |
| Terminal.Client.ConnectNats | public/app.js:86-111 | A successful connect sets the connection flag and the start time. A failed one changes nothing. |
| Terminal.Client.OpenSerial | public/app.js:158-210 | Nothing happens when not connected or when the trimmed name is empty. Otherwise the device is remembered. When the bus accepts it, an `open` command goes to `serial.<key>.control`, `serial.<key>.out` is subscribed, and the port is marked open. |
| Terminal.Client.OpenDevice | public/app.js:171-204 | For an accepted name: the command is published, the output is subscribed and the port is marked open. When the publish throws, only the device is remembered. |
| Terminal.Client.CloseSerial | public/app.js:212-244 | Nothing happens unless connected with a device. Otherwise a `close` command is published, the subscription is dropped and the device is forgotten. |
| Terminal.Client.DisconnectNats | public/app.js:130-156 | The serial port is closed first and the subscription dropped. The connection flag and start time clear unless the drain fails. |
| Terminal.Client.SendData | public/app.js:246-288 | Nothing is published and `bytesSent` is unchanged unless connected, open and the input is non-empty. Otherwise the payload goes to `serial.<key>.in`, and `bytesSent` grows by exactly its length. |
| Terminal.Client.HandleSerialData | public/app.js:290-314 | One more message and `data.length` more bytes are counted. In hexadecimal mode the text shown encodes back to the data. |
| Terminal.Client.ResetStats | public/app.js:368-373 | The three counters are zero. The start time is not touched. |
| Terminal.Client.ConnectionTime | public/app.js:375-386 | A tick shows the formatted elapsed time exactly when a non-zero start time is set. |
| Terminal.ClientKeyIsBridgeKey | public/app.js:263 | For a non-empty device name, the bridge reads back from the client's `serial.<key>.in` exactly the key it registers the device under. |

## Left out

- NATS client mechanics are not modelled: `connect`, wildcard subscriptions, `drain`, and the `status()` loops (serial-bridge.js:24-68, public/app.js:101-122). They are network I/O. Their outcomes are parameters, and publishes are appended to a log.
- Serial driver internals are not modelled: the constructor's options, `write` and `close` callbacks, and the `open` and `error` events, which only log. A port is an id with an `isOpen` flag, and driver outcomes are parameters.
- Concurrency is not modelled. The `for await` loops interleave, and an old port's asynchronous `close` event can delete a freshly re-opened entry under the same key. A second termination signal can re-enter `shutdown`. The model runs one operation at a time.
- Process plumbing is not modelled: the NATS drain and `process.exit` at the end of `shutdown` (serial-bridge.js:234-241), signal wiring and the startup sequence (serial-bridge.js:24-51, 245-267).
- `JSON.parse`, `JSON.stringify`, `TextEncoder` and `TextDecoder` are not modelled. They are library codecs. The control message is a record with optional fields, and text encoding is a function parameter.
- The `parseInt` of the page's number fields is not modelled (public/app.js:177-179). Each result enters as an optional integer, where NaN becomes None.
- Log lines are not modelled, including the bridge's `parity[0].toUpperCase()` (serial-bridge.js:118). In the model, parity is always a string.
- The DOM is not modelled: `addTerminalLine`, `updateStatus`, `clearTerminal`, clearing the input field, and the text prefixes of shown lines.
- Timers are not modelled: `setInterval` and `clearInterval` (public/app.js:375-396). A timer tick is a function of `now`.
- Terminal.Client.OpenSerial: when a second open succeeds while a subscription is live, the old subscription keeps delivering data without ever being unsubscribed (public/app.js:191). The model keeps only the current subscription's subject.
- Hex.HexEncode: `.{1,2}` without the `u` flag splits UTF-16 code units, but the model splits characters. Text holding a character outside the Basic Multilingual Plane is therefore chunked differently: `"\u{1F600}a"` gives two bytes in the page and one in the model. On text of hexadecimal digits and whitespace, the only input hexadecimal mode is meant for, the two agree.
- Terminal.Client.SendData: counters are unbounded naturals, whereas JavaScript numbers lose integer precision beyond 2^53.
