/** The Health Thermometer service of main/src/gatt_svc.c: the read path of
    the Temperature Measurement characteristic and the one-slot subscription
    state that decides whether an indication is pushed.  The service
    (UUID 0x1809) and characteristic (UUID 0x2A1C) are registered with the
    stack, which is not part of this model. */
module GattSvc {
  import opened Ieee11073
  import opened Wrappers
  import Sensor

  type uint16 = x: int | 0 <= x < 0x1_0000

  /** ATT error codes "Unlikely Error" and "Insufficient Resources" of the
      Bluetooth Core Specification, Vol 3, Part F, section 3.4.1.1, returned
      as `BLE_ATT_ERR_UNLIKELY` and `BLE_ATT_ERR_INSUFFICIENT_RES`. */
  const AttErrUnlikely: int := 0x0E
  const AttErrInsufficientRes: int := 0x11

  /** Flags byte: Celsius, no time stamp, no temperature type (gatt_svc.c:88). */
  const TemperatureFlags: byte := 0x00

  /** `ctxt->op` of an attribute access. */
  datatype AccessOp = ReadChr | WriteChr | ReadDsc | WriteDsc

  /** The response a read offers: the flags byte, then the FLOAT-Type bytes
      (gatt_svc.c:98-100). */
  function MeasurementPayload(t: Celsius): (p: seq<byte>)
    ensures |p| == 5
  {
    [TemperatureFlags] + Encode(t)
  }

  /** A client reading the payload sees flags 0x00 and recovers the exponent
      and the saturated mantissa of the stored temperature. */
  lemma PayloadDecodes(t: Celsius)
    ensures MeasurementPayload(t)[0] == 0x00
    ensures Decode(MeasurementPayload(t)[1..]) == Fields(t)
  {
    assert MeasurementPayload(t)[1..] == Encode(t);
    DecodeEncode(t);
  }

  /** 21.37 C, read back: flags, then mantissa 2137 with exponent -2. */
  lemma Payload2137()
    ensures MeasurementPayload(Temperature(false, 2137)) == [0x00, 0x59, 0x08, 0x00, 0xFE]
  {
    Encode2137();
  }

  /** Payload of a `BLE_GAP_EVENT_SUBSCRIBE` event. */
  datatype SubscribeEvent = SubscribeEvent(connHandle: uint16, attrHandle: uint16, curIndicate: bool)

  /** The three statics `temp_chr_conn_handle`, `temp_chr_conn_handle_inited`
      and `temp_ind_status` (gatt_svc.c:23-25), as one value. */
  datatype Subscription = Subscription(connHandle: uint16, inited: bool, indicate: bool)

  /** Their initial values (gatt_svc.c:23-25). */
  const Unsubscribed: Subscription := Subscription(0, false, false)

  /** An indication handed to `ble_gatts_indicate`. */
  datatype Indication = Indication(connHandle: uint16, attrHandle: uint16)

  /** The effect of one subscribe event (gatt_svc.c:177-182). */
  function OnSubscribe(s: Subscription, ev: SubscribeEvent, valHandle: uint16): (s': Subscription)
  {
    if ev.attrHandle == valHandle then Subscription(ev.connHandle, true, ev.curIndicate)
    else s
  }

  /** The peer an indication goes to, if one is sent (gatt_svc.c:118-121). */
  function PushTarget(s: Subscription): (peer: Option<uint16>)
  {
    if s.indicate && s.inited then Some(s.connHandle) else None
  }

  /** Indicating is only ever enabled together with a recorded peer. */
  predicate Consistent(s: Subscription)
  {
    s.indicate ==> s.inited
  }

  /** What one subscribe event does: an event for the temperature value
      records the event's peer and flag and keeps the peer on unsubscribe;
      an event for any other attribute changes nothing; consistency is kept. */
  lemma SubscribeEffect(s: Subscription, ev: SubscribeEvent, valHandle: uint16)
    requires Consistent(s)
    ensures Consistent(OnSubscribe(s, ev, valHandle))
    ensures ev.attrHandle != valHandle ==> OnSubscribe(s, ev, valHandle) == s
    ensures ev.attrHandle == valHandle ==>
      OnSubscribe(s, ev, valHandle).connHandle == ev.connHandle &&
      OnSubscribe(s, ev, valHandle).inited &&
      OnSubscribe(s, ev, valHandle).indicate == ev.curIndicate
  {
  }

  /** Subscribing then pushing sends exactly one indication, to the peer;
      unsubscribing then pushing sends none; the initial state sends none. */
  lemma SubscribeThenPush(s: Subscription, peer: uint16, valHandle: uint16)
    ensures PushTarget(OnSubscribe(s, SubscribeEvent(peer, valHandle, true), valHandle)) == Some(peer)
    ensures PushTarget(OnSubscribe(s, SubscribeEvent(peer, valHandle, false), valHandle)) == None
    ensures PushTarget(Unsubscribed) == None
  {
  }

  /** The state after a run of subscribe events, oldest first. */
  function ApplyEvents(s: Subscription, evs: seq<SubscribeEvent>, valHandle: uint16): (s': Subscription)
    decreases |evs|
  {
    if evs == [] then s
    else ApplyEvents(OnSubscribe(s, evs[0], valHandle), evs[1..], valHandle)
  }

  /** The most recent event for the temperature value, if any. */
  function LastEventFor(evs: seq<SubscribeEvent>, valHandle: uint16): (last: Option<SubscribeEvent>)
    decreases |evs|
  {
    if evs == [] then None
    else if evs[|evs| - 1].attrHandle == valHandle then Some(evs[|evs| - 1])
    else LastEventFor(evs[..|evs| - 1], valHandle)
  }

  lemma {:induction false} ApplyEventsSnoc(s: Subscription, evs: seq<SubscribeEvent>, ev: SubscribeEvent, valHandle: uint16)
    ensures ApplyEvents(s, evs + [ev], valHandle) == OnSubscribe(ApplyEvents(s, evs, valHandle), ev, valHandle)
    decreases |evs|
  {
    if evs != [] {
      assert (evs + [ev])[1..] == evs[1..] + [ev];
      ApplyEventsSnoc(OnSubscribe(s, evs[0], valHandle), evs[1..], ev, valHandle);
    }
  }

  /** One slot: however many events arrive, the state is that of the most
      recent event for the temperature value, or the starting state. */
  lemma {:induction false} StateIsLastEvent(s: Subscription, evs: seq<SubscribeEvent>, valHandle: uint16)
    ensures ApplyEvents(s, evs, valHandle) ==
      match LastEventFor(evs, valHandle)
      case Some(ev) => Subscription(ev.connHandle, true, ev.curIndicate)
      case None => s
    decreases |evs|
  {
    if evs != [] {
      var init, last := evs[..|evs| - 1], evs[|evs| - 1];
      assert evs == init + [last];
      ApplyEventsSnoc(s, init, last, valHandle);
      StateIsLastEvent(s, init, valHandle);
    }
  }

  /** From start-up, a push after any run of events reaches exactly the peer
      of the most recent event for the temperature value, and only if that
      event enabled indications. */
  lemma PushAfterEvents(evs: seq<SubscribeEvent>, valHandle: uint16)
    ensures PushTarget(ApplyEvents(Unsubscribed, evs, valHandle)) ==
      match LastEventFor(evs, valHandle)
      case Some(ev) => if ev.curIndicate then Some(ev.connHandle) else None
      case None => None
  {
    StateIsLastEvent(Unsubscribed, evs, valHandle);
  }

  /** The temperature service with its subscription statics.  `valHandle` is
      `temp_char_val_handle`, set by the stack at registration; `sensor` is the
      holder `get_temperature` reads; `indications` logs the calls to
      `ble_gatts_indicate`. */
  class TemperatureService {
    const valHandle: uint16
    const sensor: Sensor.SensorReader
    var connHandle: uint16
    var connHandleInited: bool
    var indStatus: bool
    ghost var indications: seq<Indication>

    function State(): Subscription
      reads this
    {
      Subscription(connHandle, connHandleInited, indStatus)
    }

    ghost predicate Valid()
      reads this
    {
      Consistent(State()) &&
      forall i :: 0 <= i < |indications| ==> indications[i].attrHandle == valHandle
    }

    constructor (valHandle: uint16, sensor: Sensor.SensorReader)
      ensures Valid() && State() == Unsubscribed && indications == []
      ensures this.valHandle == valHandle && this.sensor == sensor
    {
      this.valHandle := valHandle;
      this.sensor := sensor;
      connHandle := 0;
      connHandleInited := false;
      indStatus := false;
      indications := [];
    }

    /** `gatt_svr_subscribe_cb` (gatt_svc.c:163-183), logging left out. */
    method SubscribeCb(ev: SubscribeEvent)
      requires Valid()
      modifies this
      ensures Valid() && State() == OnSubscribe(old(State()), ev, valHandle)
      ensures indications == old(indications)
    {
      if ev.attrHandle == valHandle {
        connHandle := ev.connHandle;
        connHandleInited := true;
        indStatus := ev.curIndicate;
      }
    }

    /** `send_temperature_indication` (gatt_svc.c:116-124). */
    method SendTemperatureIndication()
      requires Valid()
      modifies this`indications
      ensures Valid()
      ensures indications == old(indications) +
        match PushTarget(State())
        case Some(peer) => [Indication(peer, valHandle)]
        case None => []
      ensures |indications| == |old(indications)| + if indStatus then 1 else 0
    {
      if indStatus && connHandleInited {
        indications := indications + [Indication(connHandle, valHandle)];
      }
    }

    /** `temp_chr_access` (gatt_svc.c:83-114).  `appendOk` is whether
        `os_mbuf_append` accepted the data; `offered` is what was handed to it
        (nothing when it is not called). */
    method TempChrAccess(op: AccessOp, appendOk: bool) returns (rc: int, offered: seq<byte>)
      ensures op == ReadChr ==> offered == MeasurementPayload(sensor.currentTemperature)
      ensures op != ReadChr ==> offered == []
      ensures rc == 0 <==> op == ReadChr && appendOk
      ensures op == ReadChr && !appendOk ==> rc == AttErrInsufficientRes
      ensures op != ReadChr ==> rc == AttErrUnlikely
    {
      if op == ReadChr {
        var flags := TemperatureFlags;
        var tempBytes := new byte[4];
        var currentTemperature := sensor.GetTemperature();
        FloatToIeee11073(currentTemperature, tempBytes);
        var data := new byte[5];
        data[0] := flags;
        for i := 0 to 4
          modifies data
          invariant data[0] == flags
          invariant forall k :: 0 <= k < i ==> data[k + 1] == tempBytes[k]
        {
          data[i + 1] := tempBytes[i];
        }
        offered := data[..];
        assert offered == [flags] + tempBytes[..4];
        assert offered == MeasurementPayload(sensor.currentTemperature);
        if !appendOk {
          return AttErrInsufficientRes, offered;
        }
        return 0, offered;
      }
      return AttErrUnlikely, [];
    }
  }

  /** A successful sensor read of 21.37 C followed by a read request whose
      response the stack accepts: status 0 and the payload
      flags 0x00, mantissa 2137, exponent -2. */
  method EndToEndRead(valHandle: uint16, humidity: int) returns (rc: int, offered: seq<byte>)
    ensures rc == 0
    ensures offered == [0x00, 0x59, 0x08, 0x00, 0xFE]
  {
    var sensor := new Sensor.SensorReader();
    var service := new TemperatureService(valHandle, sensor);
    sensor.TemperatureTask(Sensor.DhtOk(humidity, Temperature(false, 2137)));
    rc, offered := service.TempChrAccess(ReadChr, true);
    Payload2137();
  }
}
