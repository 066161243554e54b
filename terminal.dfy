/**
 * The browser client, `NATSSerialTerminal`: the flags that gate opening,
 * closing and sending, the buttons `updateUI` enables from them, the
 * statistics counters, and the messages the client publishes on the bus.
 *
 * The NATS connection object is not a field of the model: it is non-null
 * exactly when `isNatsConnected` holds, since both are set together on a
 * successful connect and cleared together after a successful drain. Whether
 * the bus accepts a publish (it throws on a closed connection) and whether a
 * drain succeeds are parameters.
 */
module Terminal {

  import opened Wrappers
  import opened Js
  import opened DeviceKey
  import opened Topics
  import Hex
  import Elapsed
  import SerialBridge

  /** The `disabled` flags of the controls `updateUI` sets. */
  datatype Buttons = Buttons(
    connectNatsDisabled: bool,
    disconnectNatsDisabled: bool,
    openSerialDisabled: bool,
    closeSerialDisabled: bool,
    terminalInputDisabled: bool,
    sendDataDisabled: bool)

  /** `updateUI`. */
  function ButtonStates(natsConnected: bool, serialOpen: bool): (b: Buttons)
    ensures b.connectNatsDisabled != b.disconnectNatsDisabled
    ensures !b.disconnectNatsDisabled <==> natsConnected
    ensures !b.openSerialDisabled <==> natsConnected && !serialOpen
    ensures !b.closeSerialDisabled <==> serialOpen
    ensures b.terminalInputDisabled == b.closeSerialDisabled && b.sendDataDisabled == b.closeSerialDisabled
    ensures b.openSerialDisabled || b.closeSerialDisabled
  {
    Buttons(natsConnected, !natsConnected, !natsConnected || serialOpen, !serialOpen, !serialOpen, !serialOpen)
  }

  /** What `serialDevice.value.trim()` leaves when `openSerial` accepts it. */
  predicate IsDeviceName(d: string) {
    d != [] && !IsWhitespace(d[0]) && !IsWhitespace(d[|d| - 1])
  }

  /**
   * The control message `openSerial` publishes; a field that parsed to NaN is
   * None. The bridge dispatches it to an open of `device`, with every field
   * the page left empty, zero or NaN replaced by the bridge's default.
   */
  function OpenCommand(device: string, baudRate: Option<int>, dataBits: Option<int>, stopBits: Option<int>,
                       parity: string): (m: ControlMessage)
    ensures m.action == Some("open") && m.device == Some(device)
    ensures var o := SerialBridge.WithDefaults(m);
      && o.baudRate == (if baudRate.Some? && baudRate.value != 0 then baudRate.value else SerialBridge.DefaultBaudRate)
      && o.dataBits == (if dataBits.Some? && dataBits.value != 0 then dataBits.value else SerialBridge.DefaultDataBits)
      && o.stopBits == (if stopBits.Some? && stopBits.value != 0 then stopBits.value else SerialBridge.DefaultStopBits)
      && o.parity == (if parity != "" then parity else SerialBridge.DefaultParity)
  {
    ControlMessage(Some("open"), Some(device), baudRate, dataBits, stopBits, Some(parity))
  }

  /**
   * The control message `closeSerial` publishes. The bridge dispatches it to a
   * close of `device`; it carries no port options.
   */
  function CloseCommand(device: string): (m: ControlMessage)
    ensures m.action == Some("close") && m.device == Some(device)
    ensures m.baudRate.None? && m.dataBits.None? && m.stopBits.None? && m.parity.None?
  {
    ControlMessage(Some("close"), Some(device), None, None, None, None)
  }

  /**
   * The bytes `sendData` publishes for `data`, None when the hexadecimal
   * encoding throws. Text goes through the page's `TextEncoder`.
   */
  function Payload(data: string, hexMode: bool, encode: string -> seq<Byte>): (p: Option<seq<Byte>>)
    ensures hexMode ==> (p.None? <==> forall i :: 0 <= i < |data| ==> IsWhitespace(data[i]))
    ensures hexMode ==> p == Hex.HexEncode(data)
    ensures !hexMode ==> p == Some(encode(data))
  {
    if hexMode then Hex.HexEncode(data) else Some(encode(data))
  }

  class Client {
    var isNatsConnected: bool
    var isSerialOpen: bool
    var currentDevice: Option<string>
    /** The subject of the live output subscription. */
    var subscription: Option<string>
    var bytesSent: nat
    var bytesReceived: nat
    var natsMessages: nat
    var connectionStartTime: Option<int>
    /** Every message the client has published, oldest first. */
    var published: seq<Message>
    var ui: Buttons

    ghost predicate Valid()
      reads this
    {
      && ui == ButtonStates(isNatsConnected, isSerialOpen)
      && (isSerialOpen ==> currentDevice.Some?)
      && (subscription.Some? ==> isSerialOpen)
      && (currentDevice.Some? ==> IsDeviceName(currentDevice.value))
    }

    constructor ()
      ensures Valid()
      ensures !isNatsConnected && !isSerialOpen && currentDevice == None && subscription == None
      ensures bytesSent == 0 && bytesReceived == 0 && natsMessages == 0 && connectionStartTime == None
      ensures published == []
    {
      isNatsConnected := false;
      isSerialOpen := false;
      currentDevice := None;
      subscription := None;
      bytesSent := 0;
      bytesReceived := 0;
      natsMessages := 0;
      connectionStartTime := None;
      published := [];
      ui := ButtonStates(false, false);
    }

    /** `connectNATS`; `ok` says whether the server accepted the connection, `now` is `Date.now()`. */
    method ConnectNats(ok: bool, now: int)
      requires Valid()
      modifies this
      ensures Valid()
      ensures isNatsConnected == (ok || old(isNatsConnected))
      ensures connectionStartTime == if ok then Some(now) else old(connectionStartTime)
      ensures isSerialOpen == old(isSerialOpen) && currentDevice == old(currentDevice)
      ensures subscription == old(subscription) && published == old(published)
      ensures bytesSent == old(bytesSent) && bytesReceived == old(bytesReceived) && natsMessages == old(natsMessages)
    {
      if ok {
        isNatsConnected := true;
        ui := ButtonStates(isNatsConnected, isSerialOpen);
        connectionStartTime := Some(now);
      }
    }

    /** The part of `openSerial` after its checks, for an accepted device name. */
    method OpenDevice(device: string, baudRate: Option<int>, dataBits: Option<int>, stopBits: Option<int>,
                      parity: string, busOk: bool)
      requires Valid() && isNatsConnected && IsDeviceName(device)
      modifies this
      ensures Valid()
      ensures currentDevice == Some(device)
      ensures !busOk ==> isSerialOpen == old(isSerialOpen) && subscription == old(subscription) && published == old(published)
      ensures busOk ==>
          && isSerialOpen && subscription == Some(OutSubject(Sanitize(device)))
          && published == old(published)
             + [Control(ControlSubject(Sanitize(device)), OpenCommand(device, baudRate, dataBits, stopBits, parity))]
      ensures isNatsConnected == old(isNatsConnected) && connectionStartTime == old(connectionStartTime)
      ensures bytesSent == old(bytesSent) && bytesReceived == old(bytesReceived) && natsMessages == old(natsMessages)
    {
      currentDevice := Some(device);
      if !busOk {
        return;
      }
      var key := Sanitize(device);
      published := published + [Control(ControlSubject(key), OpenCommand(device, baudRate, dataBits, stopBits, parity))];
      subscription := Some(OutSubject(key));
      isSerialOpen := true;
      ui := ButtonStates(isNatsConnected, isSerialOpen);
    }

    /**
     * `openSerial`: refused unless connected and the trimmed device name is
     * non-empty; the device is remembered before the publish, which may throw.
     */
    method OpenSerial(deviceField: string, baudRate: Option<int>, dataBits: Option<int>, stopBits: Option<int>,
                      parity: string, busOk: bool)
      requires Valid()
      modifies this
      ensures Valid()
      ensures var device := Trim(deviceField);
        if !old(isNatsConnected) || device == [] then
          currentDevice == old(currentDevice) && isSerialOpen == old(isSerialOpen)
          && subscription == old(subscription) && published == old(published)
        else if !busOk then
          currentDevice == Some(device) && isSerialOpen == old(isSerialOpen)
          && subscription == old(subscription) && published == old(published)
        else
          currentDevice == Some(device) && isSerialOpen
          && subscription == Some(OutSubject(Sanitize(device)))
          && published == old(published)
             + [Control(ControlSubject(Sanitize(device)), OpenCommand(device, baudRate, dataBits, stopBits, parity))]
      ensures isNatsConnected == old(isNatsConnected) && connectionStartTime == old(connectionStartTime)
      ensures bytesSent == old(bytesSent) && bytesReceived == old(bytesReceived) && natsMessages == old(natsMessages)
    {
      if !isNatsConnected {
        return;
      }
      var device := Trim(deviceField);
      if device == [] {
        return;
      }
      OpenDevice(device, baudRate, dataBits, stopBits, parity, busOk);
    }

    /** `closeSerial`: a no-op unless connected with a current device. */
    method CloseSerial(busOk: bool)
      requires Valid()
      modifies this
      ensures Valid()
      ensures if !old(isNatsConnected) || old(currentDevice).None? || !busOk then
          isSerialOpen == old(isSerialOpen) && currentDevice == old(currentDevice)
          && subscription == old(subscription) && published == old(published)
        else
          !isSerialOpen && currentDevice == None && subscription == None
          && published == old(published)
             + [Control(ControlSubject(Sanitize(old(currentDevice).value)), CloseCommand(old(currentDevice).value))]
      ensures isNatsConnected == old(isNatsConnected) && connectionStartTime == old(connectionStartTime)
      ensures bytesSent == old(bytesSent) && bytesReceived == old(bytesReceived) && natsMessages == old(natsMessages)
    {
      if !isNatsConnected || currentDevice.None? || currentDevice.value == [] {
        return;
      }
      var device := currentDevice.value;
      if !busOk {
        return;
      }
      published := published + [Control(ControlSubject(Sanitize(device)), CloseCommand(device))];
      subscription := None;
      isSerialOpen := false;
      currentDevice := None;
      ui := ButtonStates(isNatsConnected, isSerialOpen);
    }

    /**
     * `disconnectNATS`: closes the serial port first, drops the subscription,
     * then drains the connection; a failed drain leaves the connection flag set.
     */
    method DisconnectNats(busOk: bool, drainOk: bool)
      requires Valid()
      modifies this
      ensures Valid()
      ensures subscription == None
      ensures isNatsConnected == (old(isNatsConnected) && !drainOk)
      ensures connectionStartTime == if old(isNatsConnected) && !drainOk then old(connectionStartTime) else None
      ensures if old(isSerialOpen) && old(isNatsConnected) && busOk then
          !isSerialOpen && currentDevice == None
          && published == old(published)
             + [Control(ControlSubject(Sanitize(old(currentDevice).value)), CloseCommand(old(currentDevice).value))]
        else
          isSerialOpen == old(isSerialOpen) && currentDevice == old(currentDevice) && published == old(published)
      ensures bytesSent == old(bytesSent) && bytesReceived == old(bytesReceived) && natsMessages == old(natsMessages)
    {
      if isSerialOpen {
        CloseSerial(busOk);
      }
      subscription := None;
      if isNatsConnected && !drainOk {
        return;
      }
      isNatsConnected := false;
      ui := ButtonStates(isNatsConnected, isSerialOpen);
      connectionStartTime := None;
    }

    /**
     * `sendData`: refused unless both flags are set; an empty input sends
     * nothing; otherwise the line ending is appended, the payload is published
     * on the device's input subject and its length added to `bytesSent`.
     */
    method SendData(input: string, ending: string, hexMode: bool, encode: string -> seq<Byte>, busOk: bool)
      requires Valid()
      modifies this`published, this`bytesSent
      ensures var payload := Payload(input + ending, hexMode, encode);
        if old(isNatsConnected) && old(isSerialOpen) && input != [] && payload.Some? && busOk then
          published == old(published) + [Data(InSubject(Sanitize(currentDevice.value)), payload.value)]
          && bytesSent == old(bytesSent) + |payload.value|
        else
          published == old(published) && bytesSent == old(bytesSent)
    {
      if !isNatsConnected || !isSerialOpen {
        return;
      }
      if input == [] {
        return;
      }
      var data := input + ending;
      var key := Sanitize(currentDevice.value);
      var bytes;
      if hexMode {
        var encoded := Hex.HexEncode(data);
        if encoded.None? {
          return;
        }
        bytes := encoded.value;
      } else {
        bytes := encode(data);
      }
      if !busOk {
        return;
      }
      published := published + [Data(InSubject(key), bytes)];
      bytesSent := bytesSent + |bytes|;
    }

    /**
     * `handleSerialData`: counts the message and its bytes and returns the
     * text shown; in hexadecimal mode that text encodes back to the data.
     */
    method HandleSerialData(data: seq<Byte>, hexMode: bool, decode: seq<Byte> -> string) returns (shown: string)
      modifies this`natsMessages, this`bytesReceived
      ensures natsMessages == old(natsMessages) + 1 && bytesReceived == old(bytesReceived) + |data|
      ensures hexMode ==> shown == Hex.HexFormat(data)
      ensures hexMode && data != [] ==> Hex.HexEncode(shown) == Some(data)
      ensures !hexMode ==> shown == decode(data)
    {
      natsMessages := natsMessages + 1;
      bytesReceived := bytesReceived + |data|;
      if hexMode {
        shown := Hex.HexFormat(data);
        if data != [] {
          Hex.HexRoundTrip(data);
        }
      } else {
        shown := decode(data);
      }
    }

    /** `resetStats`: the three counters return to zero; the connection time is kept. */
    method ResetStats()
      modifies this`bytesSent, this`bytesReceived, this`natsMessages
      ensures bytesSent == 0 && bytesReceived == 0 && natsMessages == 0
    {
      bytesSent := 0;
      bytesReceived := 0;
      natsMessages := 0;
    }

    /** One tick of the connection timer: the text shown, None when no start time is set. */
    function ConnectionTime(now: int): (shown: Option<string>)
      reads this
      ensures shown.Some? <==> connectionStartTime.Some? && connectionStartTime.value != 0
      ensures shown.Some? ==> shown.value == Elapsed.FormatElapsed(now - connectionStartTime.value)
    {
      if connectionStartTime.Some? && connectionStartTime.value != 0 then
        var text := Elapsed.FormatElapsed(now - connectionStartTime.value);
        Some(text)
      else None
    }
  }

  /**
   * The key the client puts in `serial.<key>.in` for a device is the key the
   * bridge reads back from that subject, and the bridge registers the device
   * under the same key.
   */
  lemma ClientKeyIsBridgeKey(device: string)
    requires device != []
    ensures ParseInputSubject(InSubject(Sanitize(device))) == Some(Sanitize(device))
  {
    var key := Sanitize(device);
    assert forall i :: 0 <= i < |key| ==> IsKeyChar(key[i]);
    InSubjectParses(key);
  }
}
