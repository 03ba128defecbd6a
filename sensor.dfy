/** The last-known-value holder of main/src/sensor.c: one stored temperature,
    overwritten by each successful DHT22 read and kept on a failed one. */
module Sensor {
  import opened Ieee11073
  import opened Wrappers

  /** The outcome of one `dht_read_float_data` call (sensor.c:26).  The
      humidity is a float the holder never looks at; it stands here as an
      opaque integer.  The error code is the driver's `esp_err_t`, never
      `ESP_OK` (0), which sensor.c:27 treats as success. */
  datatype DhtReading =
    | DhtOk(humidity: int, temperature: Celsius)
    | DhtError(code: EspError)

  /** A nonzero `esp_err_t`; `ESP_FAIL` is -1. */
  type EspError = c: int | c != 0 witness -1

  /** The stored value after one task invocation (sensor.c:27-36). */
  function StoredAfter(stored: Celsius, reading: DhtReading): (s: Celsius)
  {
    match reading
    case DhtOk(_, temperature) => temperature
    case DhtError(_) => stored
  }

  /** A success sets exactly the reading, a failure keeps the old value,
      and the humidity has no influence on the result. */
  lemma StoredAfterSpec(stored: Celsius, reading: DhtReading, humidity: int)
    ensures reading.DhtOk? ==> StoredAfter(stored, reading) == reading.temperature
    ensures reading.DhtError? ==> StoredAfter(stored, reading) == stored
    ensures reading.DhtOk? ==>
      StoredAfter(stored, DhtOk(humidity, reading.temperature)) == StoredAfter(stored, reading)
  {
  }

  /** The stored value after a run of task invocations, oldest first. */
  function StoredAfterAll(stored: Celsius, readings: seq<DhtReading>): (s: Celsius)
    decreases |readings|
  {
    if readings == [] then stored
    else StoredAfterAll(StoredAfter(stored, readings[0]), readings[1..])
  }

  /** The temperature of the most recent successful reading, if any. */
  function LastSuccess(readings: seq<DhtReading>): (last: Option<Celsius>)
    decreases |readings|
  {
    if readings == [] then None
    else if readings[|readings| - 1].DhtOk? then Some(readings[|readings| - 1].temperature)
    else LastSuccess(readings[..|readings| - 1])
  }

  lemma {:induction false} StoredAfterAllSnoc(stored: Celsius, readings: seq<DhtReading>, r: DhtReading)
    ensures StoredAfterAll(stored, readings + [r]) == StoredAfter(StoredAfterAll(stored, readings), r)
    decreases |readings|
  {
    if readings != [] {
      assert (readings + [r])[1..] == readings[1..] + [r];
      StoredAfterAllSnoc(StoredAfter(stored, readings[0]), readings[1..], r);
    }
  }

  /** Last write wins: after any run of reads the holder shows the most
      recent successful temperature, or its earlier value if every read
      failed.  Failed reads never disturb the value. */
  lemma {:induction false} StoredIsLastSuccess(stored: Celsius, readings: seq<DhtReading>)
    ensures StoredAfterAll(stored, readings) ==
      match LastSuccess(readings) case Some(t) => t case None => stored
    decreases |readings|
  {
    if readings != [] {
      var init, last := readings[..|readings| - 1], readings[|readings| - 1];
      assert readings == init + [last];
      StoredAfterAllSnoc(stored, init, last);
      StoredIsLastSuccess(stored, init);
    }
  }

  /** Holder of `current_temperature` (sensor.c:14) with the two operations
      on it.  `sensorReads` counts the physical sensor transactions. */
  class SensorReader {
    var currentTemperature: Celsius
    ghost var sensorReads: nat

    /** `float current_temperature = 0.0f;` (sensor.c:14). */
    constructor ()
      ensures currentTemperature == Zero && sensorReads == 0
    {
      currentTemperature := Zero;
      sensorReads := 0;
    }

    /** `get_temperature` (sensor.c:17-20): the stored value, no side effect. */
    method GetTemperature() returns (t: Celsius)
      ensures t == currentTemperature
    {
      t := currentTemperature;
    }

    /** `temperature_task` (sensor.c:23-37): one sensor read, whose outcome is
        `reading`; the stored value follows StoredAfter. */
    method TemperatureTask(reading: DhtReading)
      modifies this
      ensures currentTemperature == StoredAfter(old(currentTemperature), reading)
      ensures sensorReads == old(sensorReads) + 1
    {
      sensorReads := sensorReads + 1;
      match reading {
        case DhtOk(_, temperature) =>
          currentTemperature := temperature;
        case DhtError(_) =>
      }
    }
  }
}
