/**
 * The bridge process: a registry from device key to the serial port opened
 * for it, the control and input routers that change and use it, the port
 * event handlers, and shutdown.
 *
 * The serial driver is abstract. A port has an identity and an `isOpen`
 * flag; whether a close succeeds and whether the port constructor throws are
 * parameters of the operations that meet them. What the driver is asked to do
 * is logged: `closeRequests` (ids of ports asked to close, in order) and
 * `writes` (bytes handed to a port's `write`). `outbox` stands for the
 * messages published on the bus.
 */
module SerialBridge {

  import opened Wrappers
  import opened Js
  import opened DeviceKey
  import opened Topics

  const DefaultBaudRate: int := 115200
  const DefaultDataBits: int := 8
  const DefaultStopBits: int := 1
  const DefaultParity: string := "none"

  datatype PortOptions = PortOptions(baudRate: int, dataBits: int, stopBits: int, parity: string)

  /**
   * The options `handleControlCommand` passes on for `open`: each field is
   * `field || default`, so a missing, null, zero or empty field takes the
   * default and any other value is kept.
   */
  function WithDefaults(m: ControlMessage): (o: PortOptions)
    ensures o.baudRate != 0 && o.dataBits != 0 && o.stopBits != 0 && o.parity != ""
    ensures o.baudRate == (if m.baudRate.Some? && m.baudRate.value != 0 then m.baudRate.value else DefaultBaudRate)
    ensures o.dataBits == (if m.dataBits.Some? && m.dataBits.value != 0 then m.dataBits.value else DefaultDataBits)
    ensures o.stopBits == (if m.stopBits.Some? && m.stopBits.value != 0 then m.stopBits.value else DefaultStopBits)
    ensures o.parity == (if m.parity.Some? && m.parity.value != "" then m.parity.value else DefaultParity)
  {
    PortOptions(
      Or(m.baudRate, DefaultBaudRate),
      Or(m.dataBits, DefaultDataBits),
      Or(m.stopBits, DefaultStopBits),
      if m.parity.Some? && m.parity.value != "" then m.parity.value else DefaultParity)
  }

  /** `x || d` for a numeric field. */
  function Or(x: Option<int>, d: int): int {
    if x.Some? && x.value != 0 then x.value else d
  }

  /** A serial port as the registry sees it. */
  datatype Port = Port(id: nat, isOpen: bool)

  /** The `{port, device, options}` record stored per key. */
  datatype PortInfo = PortInfo(port: Port, device: string, options: PortOptions)

  type Registry = map<string, PortInfo>

  /** What the driver was asked to write: the port and the bytes. */
  datatype Write = Write(portId: nat, payload: seq<Byte>)

  /** The registry holds one entry per key, each under its own device's key, with distinct ports. */
  predicate WellFormed(ports: Registry, nextPortId: nat) {
    && (forall k :: k in ports ==> k == Sanitize(ports[k].device) && ports[k].port.id < nextPortId)
    && (forall k1, k2 :: k1 in ports && k2 in ports && k1 != k2 ==> ports[k1].port.id != ports[k2].port.id)
  }

  /**
   * The registry after `closeSerialPort` for `key`: an absent key changes
   * nothing; an entry whose port is not open, or whose close succeeds, is
   * removed; an entry whose close reports an error stays.
   */
  function AfterClose(ports: Registry, key: string, closeOk: bool): (r: Registry)
    ensures key !in ports ==> r == ports
    ensures key in ports ==> (key in r <==> ports[key].port.isOpen && !closeOk)
    ensures forall k :: k in r ==> k in ports && r[k] == ports[k]
    ensures forall k :: k in ports && k != key ==> k in r
  {
    if key in ports && (!ports[key].port.isOpen || closeOk) then ports - {key} else ports
  }

  /** The ports `closeSerialPort` for `key` asks to close: the entry's port, when it is open. */
  function CloseRequestsFor(ports: Registry, key: string): (ids: seq<nat>)
    ensures |ids| <= 1
    ensures ids != [] <==> key in ports && ports[key].port.isOpen
    ensures forall i :: 0 <= i < |ids| ==> ids[i] == ports[key].port.id
  {
    if key in ports && ports[key].port.isOpen then [ports[key].port.id] else []
  }

  /**
   * The registry after `openSerialPort`: any entry under the key is closed
   * first; when the port constructor succeeds the key then holds the new
   * record, whatever the close did; every other key is untouched.
   */
  function AfterOpen(ports: Registry, key: string, info: PortInfo, oldCloseOk: bool, constructed: bool): (r: Registry)
    ensures constructed ==> key in r && r[key] == info
    ensures !constructed ==> r == AfterClose(ports, key, oldCloseOk)
    ensures forall k :: k != key ==> (k in r <==> k in ports)
    ensures forall k :: k != key && k in r ==> r[k] == ports[k]
  {
    var closed := AfterClose(ports, key, oldCloseOk);
    if constructed then closed[key := info] else closed
  }

  lemma AfterCloseWellFormed(ports: Registry, nextPortId: nat, key: string, closeOk: bool)
    requires WellFormed(ports, nextPortId)
    ensures WellFormed(AfterClose(ports, key, closeOk), nextPortId)
  {
  }

  lemma AfterOpenWellFormed(ports: Registry, nextPortId: nat, device: string, options: PortOptions,
                            oldCloseOk: bool, constructed: bool)
    requires WellFormed(ports, nextPortId)
    ensures WellFormed(AfterOpen(ports, Sanitize(device), PortInfo(Port(nextPortId, false), device, options),
                                 oldCloseOk, constructed), nextPortId + 1)
  {
  }

  /** The ids of the open ports among `keys`. */
  function OpenPortIds(ports: Registry, keys: set<string>): set<nat> {
    set k | k in keys && k in ports && ports[k].port.isOpen :: ports[k].port.id
  }

  lemma OpenPortIdsStep(ports: Registry, keys: set<string>, k: string)
    requires k in ports
    ensures OpenPortIds(ports, keys + {k}) ==
      OpenPortIds(ports, keys) + if ports[k].port.isOpen then {ports[k].port.id} else {}
  {
  }

  /**
   * Part way through shutdown: the entries still to visit are untouched, and
   * of the visited ones only the survivors remain.
   */
  ghost predicate ShutdownProgress(start: Registry, ports: Registry, pending: set<string>, failing: set<string>) {
    && ports.Keys == pending + KeptAtShutdown(start, failing)
    && (forall k :: k in ports ==> k in start && ports[k] == start[k])
  }

  /** The keys whose port is open and whose close fails: the entries shutdown cannot remove. */
  function KeptAtShutdown(ports: Registry, failing: set<string>): set<string> {
    set k | k in failing && k in ports && ports[k].port.isOpen
  }

  lemma ShutdownStep(start: Registry, ports: Registry, pending: set<string>, failing: set<string>,
                     k: string, closeOk: bool)
    requires ShutdownProgress(start, ports, pending, failing) && k in pending && pending <= start.Keys
    requires closeOk == (k !in failing)
    ensures ShutdownProgress(start, AfterClose(ports, k, closeOk), pending - {k}, failing)
  {
  }

  /** When no key is pending, what is left is what shutdown cannot remove. */
  lemma ShutdownFinished(start: Registry, ports: Registry, failing: set<string>)
    requires ShutdownProgress(start, ports, {}, failing)
    ensures ports.Keys == KeptAtShutdown(start, failing)
    ensures failing == {} ==> ports == map[]
  {
    if failing == {} {
      assert ports.Keys == {};
    }
  }

  /** No port id occurs twice. */
  predicate NoRepeats(ids: seq<nat>) {
    forall i, j :: 0 <= i < j < |ids| ==> ids[i] != ids[j]
  }

  lemma RequestedStep(before: seq<nat>, requested: seq<nat>, n: nat)
    requires n <= |before|
    ensures (before + requested)[..n] == before[..n]
    ensures (set x | x in (before + requested)[n..]) == (set x | x in before[n..]) + (set x | x in requested)
  {
    assert (before + requested)[n..] == before[n..] + requested;
  }

  /**
   * The state of the shutdown loop: `done` keys were visited, `pending` ones
   * not yet, and the close requests sent since position `n` are the open
   * ports among the visited keys.
   */
  ghost predicate ShutdownInv(start: Registry, nextPortId: nat, ports: Registry, requests: seq<nat>, n: nat,
                              pending: set<string>, done: set<string>, failing: set<string>) {
    && WellFormed(ports, nextPortId)
    && pending !! done && pending + done == start.Keys
    && ShutdownProgress(start, ports, pending, failing)
    && WellFormed(start, nextPortId)
    && n <= |requests|
    && (set x | x in requests[n..]) == OpenPortIds(start, done)
    && NoRepeats(requests[n..])
  }

  /** One round of the shutdown loop: closing a pending key keeps the loop's invariant. */
  lemma ShutdownIteration(start: Registry, nextPortId: nat, ports: Registry, requests: seq<nat>, n: nat,
                          pending: set<string>, done: set<string>, failing: set<string>, k: string, closeOk: bool)
    requires ShutdownInv(start, nextPortId, ports, requests, n, pending, done, failing)
    requires k in pending && closeOk == (k !in failing)
    ensures k in ports && Sanitize(ports[k].device) == k
    ensures ShutdownInv(start, nextPortId, AfterClose(ports, k, closeOk), requests + CloseRequestsFor(ports, k), n,
                        pending - {k}, done + {k}, failing)
    ensures (requests + CloseRequestsFor(ports, k))[..n] == requests[..n]
  {
    assert k in ports && ports[k] == start[k];
    AfterCloseWellFormed(ports, nextPortId, k, closeOk);
    ShutdownStep(start, ports, pending, failing, k, closeOk);
    RequestsIteration(start, nextPortId, ports, requests, n, done, k);
  }

  lemma RequestsIteration(start: Registry, nextPortId: nat, ports: Registry, requests: seq<nat>, n: nat,
                           done: set<string>, k: string)
    requires WellFormed(start, nextPortId)
    requires k in ports && k in start && ports[k] == start[k] && k !in done && n <= |requests|
    requires (set x | x in requests[n..]) == OpenPortIds(start, done) && NoRepeats(requests[n..])
    ensures (set x | x in (requests + CloseRequestsFor(ports, k))[n..]) == OpenPortIds(start, done + {k})
    ensures NoRepeats((requests + CloseRequestsFor(ports, k))[n..])
    ensures (requests + CloseRequestsFor(ports, k))[..n] == requests[..n]
  {
    var requested := CloseRequestsFor(ports, k);
    assert (set x | x in requested) == if start[k].port.isOpen then {start[k].port.id} else {};
    RequestedStep(requests, requested, n);
    OpenPortIdsStep(start, done, k);
    if requested != [] {
      var id := start[k].port.id;
      assert requested == [id];
      assert id !in OpenPortIds(start, done);
      assert (requests + requested)[n..] == requests[n..] + [id];
      AppendNoRepeats(requests[n..], id);
    } else {
      assert (requests + requested)[n..] == requests[n..];
    }
  }

  lemma AppendNoRepeats(ids: seq<nat>, id: nat)
    requires NoRepeats(ids) && id !in ids
    ensures NoRepeats(ids + [id])
  {
  }

  class Bridge {
    var ports: Registry
    var nextPortId: nat
    var closeRequests: seq<nat>
    var writes: seq<Write>
    var outbox: seq<Message>

    ghost predicate Valid()
      reads this
    {
      WellFormed(ports, nextPortId)
    }

    constructor ()
      ensures Valid()
      ensures ports == map[] && closeRequests == [] && writes == [] && outbox == []
    {
      ports := map[];
      nextPortId := 0;
      closeRequests := [];
      writes := [];
      outbox := [];
    }

    /**
     * `closeSerialPort(device)`. The close outcome the driver reports is
     * `closeOk`; it matters only when the port is open.
     */
    method CloseSerialPort(device: string, closeOk: bool)
      requires Valid()
      modifies this
      ensures Valid()
      ensures ports == AfterClose(old(ports), Sanitize(device), closeOk)
      ensures closeRequests == old(closeRequests) + CloseRequestsFor(old(ports), Sanitize(device))
      ensures nextPortId == old(nextPortId) && writes == old(writes) && outbox == old(outbox)
    {
      var key := Sanitize(device);
      if key !in ports {
        return;
      }
      var info := ports[key];
      if info.port.isOpen {
        closeRequests := closeRequests + [info.port.id];
        if !closeOk {
          return;
        }
      }
      ports := ports - {key};
    }

    /**
     * `openSerialPort(device, options)`. `oldCloseOk` is the outcome of closing
     * a port already registered under the key; `constructed` is false when
     * the port constructor throws. A new port is not open yet: the driver
     * opens it asynchronously (see PortOpened).
     */
    method OpenSerialPort(device: string, options: PortOptions, oldCloseOk: bool, constructed: bool)
      requires Valid()
      modifies this
      ensures Valid()
      ensures ports == AfterOpen(old(ports), Sanitize(device),
                                 PortInfo(Port(old(nextPortId), false), device, options), oldCloseOk, constructed)
      ensures closeRequests == old(closeRequests) + CloseRequestsFor(old(ports), Sanitize(device))
      ensures nextPortId == old(nextPortId) + (if constructed then 1 else 0)
      ensures writes == old(writes) && outbox == old(outbox)
    {
      var key := Sanitize(device);
      var info := PortInfo(Port(nextPortId, false), device, options);
      AfterOpenWellFormed(ports, nextPortId, device, options, oldCloseOk, constructed);
      ghost var closed := AfterClose(ports, key, oldCloseOk);
      if key in ports {
        CloseSerialPort(device, oldCloseOk);
      }
      assert ports == closed;
      if constructed {
        ports := ports[key := info];
        nextPortId := nextPortId + 1;
      }
    }

    /**
     * `handleControlCommand`: `open` opens with defaults filled in, `close`
     * closes, and any other action does nothing. A device that is missing or
     * not a string makes `sanitizeDeviceName` throw; the router catches it and
     * nothing changes.
     */
    method HandleControlCommand(msg: ControlMessage, closeOk: bool, constructed: bool)
      requires Valid()
      modifies this
      ensures Valid()
      ensures msg.action == Some("open") && msg.device.Some? ==>
        var key := Sanitize(msg.device.value);
        && ports == AfterOpen(old(ports), key, PortInfo(Port(old(nextPortId), false), msg.device.value, WithDefaults(msg)),
                              closeOk, constructed)
        && closeRequests == old(closeRequests) + CloseRequestsFor(old(ports), key)
      ensures msg.action == Some("close") && msg.device.Some? ==>
        var key := Sanitize(msg.device.value);
        && ports == AfterClose(old(ports), key, closeOk)
        && closeRequests == old(closeRequests) + CloseRequestsFor(old(ports), key)
      ensures msg.device.None? || (msg.action != Some("open") && msg.action != Some("close")) ==>
        ports == old(ports) && closeRequests == old(closeRequests)
      ensures nextPortId == old(nextPortId) + if msg.action == Some("open") && msg.device.Some? && constructed then 1 else 0
      ensures writes == old(writes) && outbox == old(outbox)
    {
      if msg.action == Some("open") {
        if msg.device.Some? {
          OpenSerialPort(msg.device.value, WithDefaults(msg), closeOk, constructed);
        }
      } else if msg.action == Some("close") {
        if msg.device.Some? {
          CloseSerialPort(msg.device.value, closeOk);
        }
      }
    }

    /**
     * `handleInputData(deviceKey, data)`: the bytes reach the port verbatim
     * when the key is registered and its port is open, and are dropped
     * otherwise. The registry never changes.
     */
    method HandleInputData(key: string, data: seq<Byte>) returns (written: bool)
      requires Valid()
      modifies this`writes
      ensures written <==> key in ports && ports[key].port.isOpen
      ensures writes == old(writes) + if written then [Write(ports[key].port.id, data)] else []
    {
      if key !in ports {
        return false;
      }
      var info := ports[key];
      if !info.port.isOpen {
        return false;
      }
      writes := writes + [Write(info.port.id, data)];
      return true;
    }

    /**
     * One message from the `serial.*.in` subscription: the key is read from
     * the subject; a subject that does not match is ignored.
     */
    method OnInputMessage(subject: string, data: seq<Byte>) returns (written: bool)
      requires Valid()
      modifies this`writes
      ensures written <==> ParseInputSubject(subject).Some? && ParseInputSubject(subject).value in ports
                           && ports[ParseInputSubject(subject).value].port.isOpen
      ensures writes == old(writes) +
        if written then [Write(ports[ParseInputSubject(subject).value].port.id, data)] else []
    {
      var key := ParseInputSubject(subject);
      if key.Some? {
        written := HandleInputData(key.value, data);
      } else {
        written := false;
      }
    }

    /**
     * The driver finished opening port `id`. The source's `open` handler only
     * logs; this step stands for the driver's own `isOpen` becoming true.
     */
    method PortOpened(id: nat)
      requires Valid()
      modifies this`ports
      ensures Valid()
      ensures forall k :: k in ports <==> k in old(ports)
      ensures forall k :: k in ports ==>
        ports[k] == if old(ports)[k].port.id == id
                    then old(ports)[k].(port := Port(id, true)) else old(ports)[k]
    {
      if k :| k in ports && ports[k].port.id == id {
        ports := ports[k := ports[k].(port := Port(id, true))];
      }
    }

    /** The port `data` handler for the port opened under `key`: the chunk is published unchanged on `serial.<key>.out`. */
    method OnPortData(key: string, chunk: seq<Byte>)
      modifies this`outbox
      ensures outbox == old(outbox) + [Data(OutSubject(key), chunk)]
    {
      outbox := outbox + [Data(OutSubject(key), chunk)];
    }

    /** The port `close` handler for the port opened under `key`: the key is deleted. */
    method OnPortClosed(key: string)
      requires Valid()
      modifies this`ports
      ensures Valid()
      ensures ports == old(ports) - {key}
    {
      ports := ports - {key};
    }

    /**
     * `shutdown`: `closeSerialPort` for every registered device, each close
     * failing exactly when its key is in `failing`. What is left are the
     * entries whose open port refused to close; every open port was asked to
     * close exactly once, and no other port.
     */
    method Shutdown(failing: set<string>)
      requires Valid()
      modifies this
      ensures Valid()
      ensures ports.Keys == KeptAtShutdown(old(ports), failing)
      ensures forall k :: k in ports ==> ports[k] == old(ports)[k]
      ensures failing == {} ==> ports == map[]
      ensures |closeRequests| >= |old(closeRequests)| && closeRequests[..|old(closeRequests)|] == old(closeRequests)
      ensures (set x | x in closeRequests[|old(closeRequests)|..]) == OpenPortIds(old(ports), old(ports).Keys)
      ensures NoRepeats(closeRequests[|old(closeRequests)|..])
      ensures nextPortId == old(nextPortId) && writes == old(writes) && outbox == old(outbox)
    {
      ghost var start := ports;
      ghost var n := |closeRequests|;
      var pending := ports.Keys;
      ghost var done: set<string> := {};
      while pending != {}
        invariant ShutdownInv(start, nextPortId, ports, closeRequests, n, pending, done, failing)
        invariant closeRequests[..n] == old(closeRequests)
        invariant nextPortId == old(nextPortId) && writes == old(writes) && outbox == old(outbox)
        decreases pending
      {
        var k :| k in pending;
        ShutdownIteration(start, nextPortId, ports, closeRequests, n, pending, done, failing, k, k !in failing);
        CloseSerialPort(ports[k].device, k !in failing);
        pending := pending - {k};
        done := done + {k};
      }
      ShutdownFinished(start, ports, failing);
    }
  }
}
