# Temperature attribute core of an ESP32 BLE thermometer, in Dafny

The firmware samples a DHT22 sensor, keeps the last good temperature, and
serves it over Bluetooth Low Energy as the Temperature Measurement
characteristic (0x2A1C) of the Health Thermometer service (0x1809). A
companion phone screen lets the user set an alert threshold. This project
models four pieces of that system and proves properties of them:

- `Ieee11073` (ieee11073.dfy): `float_to_ieee11073`, the encoder into the
  32-bit FLOAT-Type of IEEE 11073-20601. It has an 8-bit signed exponent and
  a 24-bit signed mantissa and is sent little-endian. The encoder is modelled
  as functions (field choice, saturation, word packing, byte order) and as a
  method that writes the caller's 4-byte buffer. A decoder is defined
  independently and proved to invert the encoder.
- `Sensor` (sensor.dfy): `current_temperature`, `get_temperature` and
  `temperature_task`, as a class holding the stored value. A successful read
  overwrites it and a failed read keeps it.
- `GattSvc` (gatt_svc.dfy): the read branch of `temp_chr_access`,
  `gatt_svr_subscribe_cb`, `send_temperature_indication` and the three
  subscription statics, as a class with those fields. The subscription
  behaviour is also given as pure functions over the state, and lemmas are
  proved about those functions.
- `Threshold` (threshold.dfy): the `threshold` state of the phone screen,
  its two step handlers and the "above threshold" test, as a class plus
  pure updater functions.
- `Wrappers` (wrappers.dfy): an `Option` type.

How floats are modelled. The encoder only looks at a float in two ways:
whether it compares equal to `0.0f`, and `(int32_t)(temperature * 100)`
truncated toward zero. A temperature is therefore the pair
`Temperature(isZero, centi)`, with `isZero ==> centi == 0` (type `Celsius`).
A nonzero float whose scaled value is 0, such as 0.001, stays distinct from
zero, as in the code.

How bit operations are modelled. The C code builds the word with a cast,
a shift, a mask and an or, and splits it with shifts and masks. The model
writes each of these as the integer arithmetic it computes on these
operands: a Euclidean `%` for the casts and masks, multiplication or
division by a power of two for the shifts, and `+` for the `|` of disjoint
bit fields.

Behaviour of the code worth knowing:

- When the decoded value is read back exactly (`Reread`), re-encoding is
  byte-identical except for a nonzero input that scales to 0 (|t| < 0.01): it
  is sent as 00 00 00 FE and its decoded zero as 00 00 00 00. Both byte
  patterns denote the value zero. `ReencodeIdempotent` proves this is the
  only such case. Through a float32, the truncating `(int32_t)(t * 100)` can
  also lose a hundredth: mantissa 53 reads back as 0.53f, which scales to
  52.99999... and truncates to 52.
- `temperature_task` returns nothing; a failed read is only logged
  (sensor.c:31-36).
- The code updates the subscription state even for an event whose connection
  handle is `BLE_HS_CONN_HANDLE_NONE`. It only logs that case differently.

## Model

| member | source | states |
|---|---|---|
| Ieee11073.Clamp24 | main/src/gatt_svc.c:66-70 | the saturated mantissa always lies in [-0x800000, 0x7FFFFF] |
| Ieee11073.ClampIsNearest | main/src/gatt_svc.c:66-70 | saturation picks the representable mantissa nearest to the input, and leaves a mantissa unchanged exactly when it is already in range |
| Ieee11073.Fields | main/src/gatt_svc.c:54-71 | the chosen exponent and saturated mantissa always fit the 8-bit and 24-bit fields |
| Ieee11073.UnpackPack | main/src/gatt_svc.c:74 | splitting the packed word into its exponent byte and 24-bit mantissa, both sign-extended, gives back the fields exactly |
| Ieee11073.PackUnpack | main/src/gatt_svc.c:74 | every 32-bit word is the packing of its own sign-extended fields, so packing is a bijection |
| Ieee11073.FromToLittleEndian | main/src/gatt_svc.c:76-80 | the four bytes written, least significant first, reassemble into the word |
| Ieee11073.ToFromLittleEndian | main/src/gatt_svc.c:76-80 | any four bytes are the little-endian bytes of the word they stand for |
| Ieee11073.DecodeEncode | main/src/gatt_svc.c:54-80 | byte round trip: sign-extending byte 3 gives the exponent, sign-extending bytes 0..2 gives the saturated mantissa |
| Ieee11073.EncodeDecode | main/src/gatt_svc.c:74-80 | the other direction: re-packing and re-serialising decoded fields gives back the original four bytes |
| Ieee11073.EncodeZero | main/src/gatt_svc.c:55-59 | an input equal to 0.0 gets exponent 0 and mantissa 0, so all four bytes are 0x00 |
| Ieee11073.EncodeNonzero | main/src/gatt_svc.c:62-80 | a nonzero input gets exponent -2, so byte 3 is 0xFE, and its bytes decode to the saturated scaled value |
| Ieee11073.EncodeSaturates | main/src/gatt_svc.c:66-70 | a scaled value above or below the 24-bit range is sent as the bound itself (FF FF 7F FE or 00 00 80 FE), with no error |
| Ieee11073.Encode3650 | main/src/gatt_svc.c:63-80 | 36.5 degrees (scaled 3650) is sent as 42 0E 00 FE |
| Ieee11073.Encode2137 | main/src/gatt_svc.c:63-80 | 21.37 degrees (scaled 2137) is sent as 59 08 00 FE |
| Ieee11073.ReencodeIdempotent | main/src/gatt_svc.c:54-80 | with the decoded fields read back exactly, re-encoding the decoded encoding gives the same bytes, except exactly for nonzero inputs that scale to 0 |
| Ieee11073.FloatToIeee11073 | main/src/gatt_svc.c:48-81 | the method writes exactly the encoding into bytes 0..3 of the caller's buffer and leaves the rest untouched |
| Sensor.StoredAfterSpec | main/src/sensor.c:25-36 | a successful read sets the stored value to exactly the reading, a failed read keeps it, and humidity has no influence |
| Sensor.StoredIsLastSuccess | main/src/sensor.c:27-36 | after any run of reads the stored value is the most recent successful temperature, or the earlier value if all reads failed |
| Sensor.SensorReader.constructor | main/src/sensor.c:14 | the stored temperature starts at 0.0 |
| Sensor.SensorReader.GetTemperature | main/src/sensor.c:17-20 | returns the stored value and changes nothing |
| Sensor.SensorReader.TemperatureTask | main/src/sensor.c:23-37 | performs exactly one sensor read and updates the stored value as StoredAfter says |
| GattSvc.PayloadDecodes | main/src/gatt_svc.c:88-100 | the 5-byte read payload starts with flags 0x00 and its other 4 bytes decode to the fields of the stored temperature |
| GattSvc.Payload2137 | main/src/gatt_svc.c:86-100 | a stored 21.37 degrees is read as 00 59 08 00 FE |
| GattSvc.SubscribeEffect | main/src/gatt_svc.c:177-182 | an event for the temperature value records its connection handle, sets inited and copies its indicate flag, keeping the handle on unsubscribe; other attributes change nothing; indicate implies inited is preserved |
| GattSvc.SubscribeThenPush | main/src/gatt_svc.c:116-124 | subscribing then pushing sends exactly one indication, to the subscriber; unsubscribing then pushing sends none; the initial state sends none |
| GattSvc.StateIsLastEvent | main/src/gatt_svc.c:177-182 | one slot: after any run of events the state is that of the most recent event for the temperature value, or the starting state |
| GattSvc.PushAfterEvents | main/src/gatt_svc.c:116-124 | from start-up, a push reaches exactly the peer of the most recent event for the temperature value, and only if that event enabled indications |
| GattSvc.TemperatureService.constructor | main/src/gatt_svc.c:23-25 | the subscription statics start at handle 0, not inited, indications off; nothing has been sent |
| GattSvc.TemperatureService.SubscribeCb | main/src/gatt_svc.c:163-183 | the three statics change as OnSubscribe says, and the invariant indicate-implies-inited is kept |
| GattSvc.TemperatureService.SendTemperatureIndication | main/src/gatt_svc.c:116-124 | appends one indication to the recorded connection for the temperature value exactly when the indicate status and the inited flag are both set, none otherwise; since indicate implies inited, one is appended exactly when the indicate status is set |
| GattSvc.TemperatureService.TempChrAccess | main/src/gatt_svc.c:83-114 | a read offers the 5-byte payload of the stored temperature and returns 0 if the append succeeds, BLE_ATT_ERR_INSUFFICIENT_RES if not; other operations offer nothing and return BLE_ATT_ERR_UNLIKELY |
| GattSvc.EndToEndRead | main/src/gatt_svc.c:83-114 | a sensor read of 21.37 followed by an accepted read request returns status 0 and 00 59 08 00 FE |
| Threshold.StepsSpec | frontend/app/index.tsx:19-24 | increase adds exactly 1 below 40 and decrease subtracts exactly 1 above 15, otherwise unchanged; both stay in range and undo each other away from the bounds |
| Threshold.RunStaysInRange | frontend/app/index.tsx:15-24 | any sequence of presses from a threshold in [15, 40] keeps it in [15, 40] |
| Threshold.Reachable | frontend/app/index.tsx:15-24 | the thresholds reachable from the initial 30 are exactly [15, 40] |
| Threshold.StatusAfterPresses | frontend/app/index.tsx:13-17 | with currentTemp 25, the status is "above" iff the threshold is in [15, 24]; equality counts as within |
| Threshold.ThresholdControl.constructor | frontend/app/index.tsx:15 | the threshold starts at 30 |
| Threshold.ThresholdControl.IncreaseThreshold | frontend/app/index.tsx:19-21 | the threshold becomes Increased of its old value and stays in range |
| Threshold.ThresholdControl.DecreaseThreshold | frontend/app/index.tsx:22-24 | the threshold becomes Decreased of its old value and stays in range |
| Threshold.ThresholdControl.Status | frontend/app/index.tsx:17 | the status computed on render is "above" exactly when the threshold is below 25 |

## Left out

- The float multiply, its truncating cast and the `== 0.0f` test (main/src/gatt_svc.c:55,64). They are replaced by the `(isZero, centi)` input. NaN, infinities and floats outside the `int32_t` range are undefined behaviour in C and are not modelled.
- ReencodeIdempotent: reads decoded fields back as exact hundredths, not through a float32; a float32 round trip followed by the truncating `(int32_t)(t * 100)` can lose a hundredth (53 becomes 52), which the model does not capture because it has no float arithmetic.
- NimBLE registration and setup (`gatt_svc_init`, `gatt_svr_register_cb`, the service table). These are calls into the Bluetooth stack. The value handle `temp_char_val_handle` that registration assigns is a constructor parameter.
- `os_mbuf_append` is an abstract success flag. The model does not say what the response buffer holds after a failed append.
- `ble_gatts_indicate` is a ghost log of `(connection, attribute)` pairs. Delivery, acknowledgement and back-pressure belong to the stack.
- The DHT22 driver `dht_read_float_data` is an input value: success with humidity and temperature, or an error code. Humidity stands as an opaque integer.
- All `ESP_LOG*` and `printf` logging, including the two log branches of `gatt_svr_subscribe_cb` (main/src/gatt_svc.c:166-175).
- main/hello_world_main.cpp: an endless polling loop with a delay and printing.
- The unsynchronised sharing of `current_temperature` between the sensor task and the Bluetooth callbacks. Operations are modelled one at a time.
- The JSX rendering and style sheet of frontend/app/index.tsx (lines 25-173).
