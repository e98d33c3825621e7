/**
 * BLEDevice: one discovered peripheral. Its identity (name, id, description)
 * is fixed at construction; its peripheral handle, keep-alive thread, thread
 * listener, notification subscriptions and the broadcasts it makes to its
 * listeners change through the callbacks and the open/close/read/notify calls.
 *
 * The adapter's side is a parameter: whether connect, disconnect, read,
 * write and subscribe succeed or throw, and the bytes a read or a
 * notification delivers. The keep-alive thread is a `running` flag with a
 * count of starts; listener calls are appended to an event log.
 */
module Device {
  import opened Optional
  import opened ByteConversion
  import opened DecimalText

  /**
   * The peripheral handle the adapter hands out, reduced to what BLEDevice and
   * BLEManager read from it. `connected` stands for the adapter's live
   * `is_connected()`: the source's callbacks never write the handle, so the
   * transitions for open, close and the connected and disconnected callbacks
   * set it to what the adapter then reports.
   */
  datatype Peripheral = Peripheral(address: string, identifier: string, connected: bool, connectable: bool)

  /**
   * A characteristic addressed by its service and characteristic UUIDs;
   * `niceName` is a display label that defaults to the characteristic UUID.
   */
  datatype CharacteristicInfo = CharacteristicInfo(serviceUuid: string, characteristicUuid: string, niceName: string)

  /** The object handed to data listeners: {service_uuid, char_uuid, data}. */
  datatype ReceivedValue = ReceivedValue(serviceUuid: string, charUuid: string, data: string)

  /** One call on the device's listener list, in the order the calls are made. */
  datatype DeviceEvent =
    | DeviceOpened
    | DeviceClosed
    | DeviceRemoved
    | BleDeviceConnected
    | BleDeviceDisconnected
    | BleDataReceived(value: ReceivedValue)

  /** Outcome of an adapter call that returns a value or throws. */
  datatype Outcome<T> = Done(value: T) | Threw

  /** Everything about a device that changes after construction. */
  datatype DeviceState = DeviceState(
    peripheral: Peripheral,
    running: bool,
    threadStarts: nat,
    threadListenerAttached: bool,
    subscriptions: seq<CharacteristicInfo>,
    events: seq<DeviceEvent>)

  /** The two broadcasts close() makes, in order. */
  const CloseEvents: seq<DeviceEvent> := [BleDeviceDisconnected, DeviceClosed]

  /** The value dispatched for `bytes` read from or notified by characteristic `info`. */
  function ValueOf(info: CharacteristicInfo, bytes: seq<byte>): ReceivedValue
  {
    ReceivedValue(info.serviceUuid, info.characteristicUuid, DecimalString(Int32BE(bytes)))
  }

  // ---------------------------------------------------------------------------
  // The transitions, one per operation or callback
  // ---------------------------------------------------------------------------

  function Initial(p: Peripheral): DeviceState
  {
    DeviceState(p, false, 0, false, [], [])
  }

  function WithPeripheral(s: DeviceState, p: Peripheral): DeviceState
  {
    s.(peripheral := p)
  }

  /** open(): the connect request either succeeds, leaving the handle connected, or throws to the caller. */
  function Opened(s: DeviceState, connectSucceeds: bool): DeviceState
  {
    if connectSucceeds then s.(peripheral := s.peripheral.(connected := true)) else s
  }

  /** The connected callback: deviceOpened, bleDeviceConnected, then start the thread unless it runs. */
  function Connected(s: DeviceState): DeviceState
  {
    s.(peripheral := s.peripheral.(connected := true),
       running := true,
       threadStarts := if s.running then s.threadStarts else s.threadStarts + 1,
       events := s.events + [DeviceOpened, BleDeviceConnected])
  }

  /** The disconnected callback: no broadcast, stop the thread. */
  function Disconnected(s: DeviceState): DeviceState
  {
    s.(peripheral := s.peripheral.(connected := false), running := false)
  }

  /** close(): a failed disconnect is swallowed; the broadcasts, the detach and the stop always happen. */
  function Closed(s: DeviceState, disconnectSucceeds: bool): DeviceState
  {
    s.(peripheral := if disconnectSucceeds then s.peripheral.(connected := false) else s.peripheral,
       running := false,
       threadListenerAttached := false,
       events := s.events + CloseEvents)
  }

  /** The destructor: close(), then deviceRemoved. */
  function Destroyed(s: DeviceState, disconnectSucceeds: bool): DeviceState
  {
    var c := Closed(s, disconnectSucceeds);
    c.(events := c.events + [DeviceRemoved])
  }

  /** readCharacteristic: a successful read dispatches one value, a failed one nothing. */
  function AfterRead(s: DeviceState, info: CharacteristicInfo, read: Outcome<seq<byte>>): DeviceState
  {
    match read
    case Done(bytes) => s.(events := s.events + [BleDataReceived(ValueOf(info, bytes))])
    case Threw => s
  }

  /** notifyCharacteristic: a successful subscribe registers the characteristic's callback. */
  function Subscribed(s: DeviceState, info: CharacteristicInfo, subscribeSucceeds: bool): DeviceState
  {
    if subscribeSucceeds then s.(subscriptions := s.subscriptions + [info]) else s
  }

  /** The callback of subscription `k` receiving `bytes`: one dispatched value. */
  function Notified(s: DeviceState, k: nat, bytes: seq<byte>): DeviceState
    requires k < |s.subscriptions|
  {
    s.(events := s.events + [BleDataReceived(ValueOf(s.subscriptions[k], bytes))])
  }

  // ---------------------------------------------------------------------------
  // The entity
  // ---------------------------------------------------------------------------

  class BLEDevice {
    const name: string
    const id: string
    /** The name followed by the id in parentheses. */
    const description: string := name + " (" + id + ")"

    var peripheral: Peripheral
    /** The keep-alive thread is running. */
    var running: bool
    /** How many times the keep-alive thread was started. */
    var threadStarts: nat
    /** The device is registered as a listener of its thread (nothing in BLEDevice.cpp or BLEManager.cpp registers it). */
    var threadListenerAttached: bool
    /** The characteristics whose notification callbacks are registered, in order. */
    var subscriptions: seq<CharacteristicInfo>
    /** The calls made on the listener list, in order. */
    var events: seq<DeviceEvent>

    ghost function State(): DeviceState
      reads this
    {
      DeviceState(peripheral, running, threadStarts, threadListenerAttached, subscriptions, events)
    }

    constructor (p: Peripheral)
      ensures name == p.identifier && id == p.address
      ensures description == p.identifier + " (" + p.address + ")"
      ensures State() == Initial(p)
    {
      name := p.identifier;
      id := p.address;
      peripheral := p;
      running := false;
      threadStarts := 0;
      threadListenerAttached := false;
      subscriptions := [];
      events := [];
    }

    method SetPeripheral(p: Peripheral)
      modifies this
      ensures State() == WithPeripheral(old(State()), p)
    {
      peripheral := p;
    }

    /** Returns false when the connect request throws (open() does not catch it). */
    method Open(connectSucceeds: bool) returns (ok: bool)
      modifies this
      ensures ok == connectSucceeds
      ensures State() == Opened(old(State()), connectSucceeds)
    {
      ok := connectSucceeds;
      if connectSucceeds {
        peripheral := peripheral.(connected := true);
      }
    }

    method Close(disconnectSucceeds: bool)
      modifies this
      ensures State() == Closed(old(State()), disconnectSucceeds)
      ensures !running && !threadListenerAttached
      ensures events == old(events) + [BleDeviceDisconnected, DeviceClosed]
    {
      if disconnectSucceeds {
        peripheral := peripheral.(connected := false);
      }
      events := events + [BleDeviceDisconnected];
      events := events + [DeviceClosed];
      threadListenerAttached := false;
      running := false;
    }

    /** The destructor. */
    method Destroy(disconnectSucceeds: bool)
      modifies this
      ensures State() == Destroyed(old(State()), disconnectSucceeds)
      ensures events[|events| - 1] == DeviceRemoved
    {
      Close(disconnectSucceeds);
      events := events + [DeviceRemoved];
    }

    method IsOpen() returns (open: bool)
      ensures open <==> peripheral.connected
    {
      open := peripheral.connected;
    }

    method OnConnected()
      modifies this
      ensures State() == Connected(old(State()))
      ensures threadStarts == old(threadStarts) + (if old(running) then 0 else 1)
    {
      peripheral := peripheral.(connected := true);
      events := events + [DeviceOpened];
      events := events + [BleDeviceConnected];
      if running {
        return;
      }
      running := true;
      threadStarts := threadStarts + 1;
    }

    method OnDisconnected()
      modifies this
      ensures State() == Disconnected(old(State()))
      ensures events == old(events)
    {
      peripheral := peripheral.(connected := false);
      running := false;
    }

    /** dataReceived: forward one value to the data listeners. */
    method DataReceived(data: ReceivedValue)
      modifies this
      ensures State() == old(State()).(events := old(events) + [BleDataReceived(data)])
    {
      events := events + [BleDataReceived(data)];
    }

    method ReadCharacteristic(info: CharacteristicInfo, read: Outcome<seq<byte>>)
      modifies this
      ensures State() == AfterRead(old(State()), info, read)
    {
      match read {
        case Done(bytes) =>
          var value := ByteArrayToIntBE(bytes);
          DataReceived(ReceivedValue(info.serviceUuid, info.characteristicUuid, DecimalString(value)));
        case Threw =>
      }
    }

    /** Returns false when subscribing throws (notifyCharacteristic does not catch it). */
    method NotifyCharacteristic(info: CharacteristicInfo, subscribeSucceeds: bool) returns (ok: bool)
      modifies this
      ensures ok == subscribeSucceeds
      ensures State() == Subscribed(old(State()), info, subscribeSucceeds)
    {
      ok := subscribeSucceeds;
      if subscribeSucceeds {
        subscriptions := subscriptions + [info];
      }
    }

    /** The notification callback registered for subscription `k`, called with the pushed bytes. */
    method OnNotification(k: nat, bytes: seq<byte>)
      requires k < |subscriptions|
      modifies this
      ensures State() == Notified(old(State()), k, bytes)
    {
      var info := subscriptions[k];
      var value := ByteArrayToIntBE(bytes);
      DataReceived(ReceivedValue(info.serviceUuid, info.characteristicUuid, DecimalString(value)));
    }

    /** A write that throws is swallowed; either way no listener hears of it. */
    method WriteCharacteristic(info: CharacteristicInfo, bytes: seq<byte>, writeSucceeds: bool)
      ensures unchanged(this)
    {
    }
  }

  // ---------------------------------------------------------------------------
  // Properties of the transitions
  // ---------------------------------------------------------------------------

  /** Anything the adapter or a caller can do to a device. */
  datatype DeviceOp =
    | SetPeripheralOp(p: Peripheral)
    | OpenOp(connectSucceeds: bool)
    | CloseOp(disconnectSucceeds: bool)
    | ConnectedCallback
    | DisconnectedCallback
    | ReadOp(info: CharacteristicInfo, read: Outcome<seq<byte>>)
    | WriteOp(info: CharacteristicInfo, bytes: seq<byte>, writeSucceeds: bool)
    | NotifyOp(info: CharacteristicInfo, subscribeSucceeds: bool)
    | NotificationCallback(k: nat, bytes: seq<byte>)

  /** One operation; a notification for a subscription that does not exist is never delivered. */
  function Apply(s: DeviceState, op: DeviceOp): DeviceState
  {
    match op
    case SetPeripheralOp(p) => WithPeripheral(s, p)
    case OpenOp(ok) => Opened(s, ok)
    case CloseOp(ok) => Closed(s, ok)
    case ConnectedCallback => Connected(s)
    case DisconnectedCallback => Disconnected(s)
    case ReadOp(info, read) => AfterRead(s, info, read)
    case WriteOp(_, _, _) => s
    case NotifyOp(info, ok) => Subscribed(s, info, ok)
    case NotificationCallback(k, bytes) => if k < |s.subscriptions| then Notified(s, k, bytes) else s
  }

  /** A device's life: the operations in order. */
  function RunOps(s: DeviceState, ops: seq<DeviceOp>): DeviceState
  {
    if ops == [] then s else Apply(RunOps(s, ops[..|ops| - 1]), ops[|ops| - 1])
  }

  /** The most recent connected or disconnected broadcast in a log. */
  function LastConnectionEvent(events: seq<DeviceEvent>): Option<DeviceEvent>
  {
    if events == [] then None
    else if events[|events| - 1] in {BleDeviceConnected, BleDeviceDisconnected} then Some(events[|events| - 1])
    else LastConnectionEvent(events[..|events| - 1])
  }

  /** How many bleDeviceConnected broadcasts a log holds. */
  function CountConnected(events: seq<DeviceEvent>): nat
  {
    if events == [] then 0
    else CountConnected(events[..|events| - 1]) + (if events[|events| - 1] == BleDeviceConnected then 1 else 0)
  }

  /**
   * The keep-alive thread runs only while the last connection broadcast is
   * bleDeviceConnected, and it was started at most once per such broadcast.
   */
  ghost predicate KeepAliveConsistent(s: DeviceState)
  {
    && (s.running ==> LastConnectionEvent(s.events) == Some(BleDeviceConnected))
    && s.threadStarts <= CountConnected(s.events)
  }

  lemma {:induction false} LogAppend(events: seq<DeviceEvent>, more: seq<DeviceEvent>)
    ensures CountConnected(events + more) == CountConnected(events) + CountConnected(more)
    ensures LastConnectionEvent(more) == None ==> LastConnectionEvent(events + more) == LastConnectionEvent(events)
    ensures LastConnectionEvent(more) != None ==> LastConnectionEvent(events + more) == LastConnectionEvent(more)
  {
    if more != [] {
      var init := more[..|more| - 1];
      LogAppend(events, init);
      assert (events + more)[..|events + more| - 1] == events + init;
    } else {
      assert events + more == events;
    }
  }

  lemma ApplyKeepsKeepAliveConsistent(s: DeviceState, op: DeviceOp)
    requires KeepAliveConsistent(s)
    ensures KeepAliveConsistent(Apply(s, op))
  {
    match op {
      case ConnectedCallback => ConnectedKeeps(s);
      case CloseOp(ok) => ClosedKeeps(s, ok);
      case ReadOp(info, Done(bytes)) => DataKeeps(s, BleDataReceived(ValueOf(info, bytes)));
      case NotificationCallback(k, bytes) =>
        if k < |s.subscriptions| {
          DataKeeps(s, BleDataReceived(ValueOf(s.subscriptions[k], bytes)));
        }
      case _ =>
    }
  }

  lemma ConnectedKeeps(s: DeviceState)
    requires KeepAliveConsistent(s)
    ensures KeepAliveConsistent(Connected(s))
  {
    assert LastConnectionEvent([DeviceOpened, BleDeviceConnected]) == Some(BleDeviceConnected) by {
      assert [DeviceOpened, BleDeviceConnected][..1] == [DeviceOpened];
    }
    LogAppend(s.events, [DeviceOpened, BleDeviceConnected]);
  }

  lemma ClosedKeeps(s: DeviceState, disconnectSucceeds: bool)
    requires KeepAliveConsistent(s)
    ensures KeepAliveConsistent(Closed(s, disconnectSucceeds))
  {
    assert CountConnected(CloseEvents) == 0 by {
      assert CloseEvents[..1] == [BleDeviceDisconnected];
    }
    LogAppend(s.events, CloseEvents);
  }

  lemma DataKeeps(s: DeviceState, e: DeviceEvent)
    requires KeepAliveConsistent(s) && e.BleDataReceived?
    ensures KeepAliveConsistent(s.(events := s.events + [e]))
  {
    LogAppend(s.events, [e]);
  }

  /** The keep-alive invariant holds on a fresh device and after any sequence of operations. */
  lemma {:induction false} KeepAliveAlwaysConsistent(p: Peripheral, ops: seq<DeviceOp>)
    ensures KeepAliveConsistent(RunOps(Initial(p), ops))
  {
    if ops != [] {
      KeepAliveAlwaysConsistent(p, ops[..|ops| - 1]);
      ApplyKeepsKeepAliveConsistent(RunOps(Initial(p), ops[..|ops| - 1]), ops[|ops| - 1]);
    }
  }

  /** The listener log is append-only: no operation rewrites what was already broadcast. */
  lemma {:induction false} LogOnlyGrows(s: DeviceState, ops: seq<DeviceOp>)
    ensures |s.events| <= |RunOps(s, ops).events|
    ensures RunOps(s, ops).events[..|s.events|] == s.events
  {
    if ops != [] {
      LogOnlyGrows(s, ops[..|ops| - 1]);
      var t := RunOps(s, ops[..|ops| - 1]);
      var u := Apply(t, ops[|ops| - 1]);
      assert u.events[..|t.events|] == t.events;
      assert u.events[..|s.events|] == t.events[..|s.events|];
    }
  }

  /**
   * Closing twice ends like closing once with either disconnect succeeding,
   * plus a second pair of close broadcasts; the thread stays stopped and detached.
   */
  lemma CloseTwice(s: DeviceState, first: bool, second: bool)
    ensures var once := Closed(s, first || second);
            Closed(Closed(s, first), second) == once.(events := once.events + CloseEvents)
    ensures !Closed(Closed(s, first), second).running
    ensures !Closed(Closed(s, first), second).threadListenerAttached
  {
  }

  /** The destructor's broadcasts end with disconnected, closed, removed. */
  lemma DestroyEndsWithRemoved(s: DeviceState, disconnectSucceeds: bool)
    ensures var d := Destroyed(s, disconnectSucceeds);
            && d.events == s.events + [BleDeviceDisconnected, DeviceClosed, DeviceRemoved]
            && !d.running && !d.threadListenerAttached
  {
  }

  /**
   * The value dispatched for a read or a notification carries the
   * characteristic's UUIDs, and its data text parses back to the decoded
   * integer, which is the exact big-endian value for up to three bytes.
   */
  lemma DispatchedValue(info: CharacteristicInfo, bytes: seq<byte>)
    ensures ValueOf(info, bytes).serviceUuid == info.serviceUuid
    ensures ValueOf(info, bytes).charUuid == info.characteristicUuid
    ensures ParseDecimal(ValueOf(info, bytes).data) == Some(Int32BE(bytes))
    ensures |bytes| <= 3 ==> ParseDecimal(ValueOf(info, bytes).data) == Some(BigEndianValue(bytes))
  {
    DecimalRoundTrip(Int32BE(bytes));
    if |bytes| <= 3 {
      ShortDecodeIsExact(bytes);
    }
  }

  /** A successful read adds exactly one broadcast, the value; a failed one changes nothing. */
  lemma ReadDispatchesOnce(s: DeviceState, info: CharacteristicInfo, read: Outcome<seq<byte>>)
    ensures read.Threw? ==> AfterRead(s, info, read) == s
    ensures read.Done? ==>
      var t := AfterRead(s, info, read);
      && t.events == s.events + [BleDataReceived(t.events[|s.events|].value)]
      && ParseDecimal(t.events[|s.events|].value.data) == Some(Int32BE(read.value))
      && t.(events := s.events) == s
  {
    if read.Done? {
      DispatchedValue(info, read.value);
    }
  }
}
