/**
 * The exporter of lls/exporter.go around the protocol: building the sensor
 * registry from the configuration, turning an accepted response into the
 * values the sensor's gauges are set to, and the writer's round of requests.
 */
module Exporter {
  import opened Wrappers
  import opened Checksum
  import opened Calibration
  import opened Frames

  /** Defaults of `SensorsConfig`: the serial device and the pause between polling rounds. */
  const DefaultDevice: string := "/dev/ttySC0"
  const DefaultReadDelaySec: int := 1

  /** One configured sensor, `SensorConfig`: calibration points in the sensor's own raw units. */
  datatype SensorConfig = SensorConfig(name: string, address: int, minRaw: int, maxRaw: int, levels: seq<Level>)

  /** A running sensor: its address and its remapped, validated calibration table. */
  datatype Sensor = Sensor(name: string, address: int, levels: seq<Level>)

  /** All sensors in configuration order, and the reader's index from address to sensor. */
  datatype Registry = Registry(sensors: seq<Sensor>, byAddress: map<int, Sensor>)

  /** The remap is defined for this configuration (it divides by `maxRaw - minRaw` once there are two points). */
  predicate Remappable(c: SensorConfig)
  {
    |c.levels| < 2 || c.minRaw != c.maxRaw
  }

  /** `arranged` is an order `sort.Slice` may leave the configuration's remapped points in. */
  predicate Admissible(c: SensorConfig, arranged: seq<Level>)
  {
    Remappable(c) && (|c.levels| >= 2 ==> IsArrangement(arranged, RemapLevels(c.levels, c.minRaw, c.maxRaw)))
  }

  /** The configuration error of one sensor, if any, given the order its points were sorted into. */
  function ConfigViolation(c: SensorConfig, arranged: seq<Level>): (r: Option<TableError>)
    requires Admissible(c, arranged)
    ensures r == None <==> |c.levels| >= 2 && ValidTable(arranged)
  {
    TableViolation(|c.levels|, arranged)
  }

  /** The address index built by assigning the sensors one after another, so a later sensor replaces an earlier one. */
  function AddressIndex(sensors: seq<Sensor>): map<int, Sensor>
    decreases |sensors|
  {
    if |sensors| == 0 then map[]
    else AddressIndex(sensors[..|sensors| - 1])[sensors[|sensors| - 1].address := sensors[|sensors| - 1]]
  }

  /**
   * The index holds exactly the configured addresses, and each maps to the
   * last sensor configured with it.
   */
  lemma AddressIndexLastWins(sensors: seq<Sensor>)
    ensures AddressIndex(sensors).Keys == set k | 0 <= k < |sensors| :: sensors[k].address
    ensures forall k :: 0 <= k < |sensors| ==>
      ((forall j :: k < j < |sensors| ==> sensors[j].address != sensors[k].address)
         ==> AddressIndex(sensors)[sensors[k].address] == sensors[k])
  {
    AddressIndexKeys(sensors);
    forall k | 0 <= k < |sensors| && (forall j :: k < j < |sensors| ==> sensors[j].address != sensors[k].address)
      ensures AddressIndex(sensors)[sensors[k].address] == sensors[k]
    {
      AddressIndexLast(sensors, k);
    }
  }

  /** The index's keys are the configured addresses. */
  lemma {:induction false} AddressIndexKeys(sensors: seq<Sensor>)
    ensures AddressIndex(sensors).Keys == set k | 0 <= k < |sensors| :: sensors[k].address
    decreases |sensors|
  {
    if |sensors| > 0 {
      var n := |sensors| - 1;
      var init := sensors[..n];
      AddressIndexKeys(init);
      assert forall k :: 0 <= k < n ==> init[k] == sensors[k];
      assert (set k | 0 <= k < |sensors| :: sensors[k].address)
          == (set k | 0 <= k < n :: init[k].address) + {sensors[n].address};
    }
  }

  /** A sensor whose address no later sensor reuses is the one the index returns for it. */
  lemma {:induction false} AddressIndexLast(sensors: seq<Sensor>, k: int)
    requires 0 <= k < |sensors|
    requires forall j :: k < j < |sensors| ==> sensors[j].address != sensors[k].address
    ensures sensors[k].address in AddressIndex(sensors)
    ensures AddressIndex(sensors)[sensors[k].address] == sensors[k]
    decreases |sensors|
  {
    var n := |sensors| - 1;
    if k < n {
      var init := sensors[..n];
      assert init[k] == sensors[k];
      assert forall j :: k < j < n ==> init[j] == sensors[j];
      AddressIndexLast(init, k);
    }
  }

  /** Configuring one more sensor assigns its address in the index. */
  lemma AddressIndexAppend(sensors: seq<Sensor>, s: Sensor)
    ensures AddressIndex(sensors + [s]) == AddressIndex(sensors)[s.address := s]
  {
    assert (sensors + [s])[..|sensors|] == sensors;
  }

  /** Every sensor the index can return has a valid table. */
  predicate IndexValid(byAddress: map<int, Sensor>)
  {
    forall a :: a in byAddress ==> ValidTable(byAddress[a].levels)
  }

  /** An index built from sensors with valid tables only returns valid tables. */
  lemma {:induction false} AddressIndexValid(sensors: seq<Sensor>)
    requires forall k :: 0 <= k < |sensors| ==> ValidTable(sensors[k].levels)
    ensures IndexValid(AddressIndex(sensors))
    decreases |sensors|
  {
    if |sensors| > 0 {
      AddressIndexValid(sensors[..|sensors| - 1]);
    }
  }

  /**
   * The loop of `Serve` reaches sensor `i`: every earlier sensor could be
   * remapped and sorted, and its table passed the checks.
   */
  predicate Reached(configs: seq<SensorConfig>, arrangements: seq<seq<Level>>, i: int)
    requires |arrangements| == |configs| && i <= |configs|
  {
    forall j :: 0 <= j < i ==> Admissible(configs[j], arrangements[j]) && ConfigViolation(configs[j], arrangements[j]) == None
  }

  /** Sensor `i` is the first whose configuration fails, and it fails with `e`. */
  predicate FirstViolation(configs: seq<SensorConfig>, arrangements: seq<seq<Level>>, i: int, e: TableError)
    requires |arrangements| == |configs|
  {
    && 0 <= i < |configs|
    && Reached(configs, arrangements, i)
    && Admissible(configs[i], arrangements[i])
    && ConfigViolation(configs[i], arrangements[i]) == Some(e)
  }

  /** At most one sensor is the first to fail, so the error `Configure` reports is determined. */
  lemma FirstViolationUnique(configs: seq<SensorConfig>, arrangements: seq<seq<Level>>, i: int, e: TableError, j: int, e': TableError)
    requires |arrangements| == |configs|
    requires FirstViolation(configs, arrangements, i, e) && FirstViolation(configs, arrangements, j, e')
    ensures i == j && e == e'
  {
  }

  /**
   * The configuration pass of `Serve`: for each sensor in order, remap, sort
   * and validate its points, stopping at the first sensor with an error;
   * otherwise append it and index it by address. `arrangements[i]` is the
   * order the sort leaves sensor `i`'s remapped points in. Only the sensors
   * the loop reaches are remapped, so only they must have distinct raw bounds.
   */
  method Configure(configs: seq<SensorConfig>, arrangements: seq<seq<Level>>) returns (r: Result<Registry, TableError>)
    requires |arrangements| == |configs|
    requires forall i :: 0 <= i < |configs| && Reached(configs, arrangements, i) ==> Admissible(configs[i], arrangements[i])
    ensures r.Success? <==> Reached(configs, arrangements, |configs|)
    ensures r.Failure? ==> exists i :: FirstViolation(configs, arrangements, i, r.error)
    ensures r.Success? ==> |r.value.sensors| == |configs|
    ensures r.Success? ==> forall i :: 0 <= i < |configs| ==>
      r.value.sensors[i] == Sensor(configs[i].name, configs[i].address, arrangements[i])
    ensures r.Success? ==> r.value.byAddress == AddressIndex(r.value.sensors)
    ensures r.Success? ==> IndexValid(r.value.byAddress)
  {
    var sensors: seq<Sensor> := [];
    var byAddress: map<int, Sensor> := map[];
    var i := 0;
    while i < |configs|
      invariant 0 <= i <= |configs| && |sensors| == i
      invariant Reached(configs, arrangements, i)
      invariant forall k :: 0 <= k < i ==> sensors[k] == Sensor(configs[k].name, configs[k].address, arrangements[k])
      invariant byAddress == AddressIndex(sensors)
    {
      var sensor := SetUpSensor(configs[i], arrangements[i]);
      if sensor.Failure? {
        assert FirstViolation(configs, arrangements, i, sensor.error);
        return Failure(sensor.error);
      }
      AddressIndexAppend(sensors, sensor.value);
      ReachedNext(configs, arrangements, i);
      SensorsExtend(configs, arrangements, sensors, sensor.value);
      sensors := sensors + [sensor.value];
      byAddress := byAddress[sensor.value.address := sensor.value];
      i := i + 1;
    }
    forall k | 0 <= k < |sensors|
      ensures ValidTable(sensors[k].levels)
    {
      assert ConfigViolation(configs[k], arrangements[k]) == None;
    }
    AddressIndexValid(sensors);
    return Success(Registry(sensors, byAddress));
  }

  /** A sensor that passes lets the loop reach the next one. */
  lemma ReachedNext(configs: seq<SensorConfig>, arrangements: seq<seq<Level>>, i: int)
    requires |arrangements| == |configs| && 0 <= i < |configs|
    requires Reached(configs, arrangements, i) && Admissible(configs[i], arrangements[i])
    requires ConfigViolation(configs[i], arrangements[i]) == None
    ensures Reached(configs, arrangements, i + 1)
  {
  }

  /** Appending the next configured sensor keeps the sensors in configuration order. */
  lemma SensorsExtend(configs: seq<SensorConfig>, arrangements: seq<seq<Level>>, sensors: seq<Sensor>, s: Sensor)
    requires |arrangements| == |configs| && |sensors| < |configs|
    requires forall k :: 0 <= k < |sensors| ==> sensors[k] == Sensor(configs[k].name, configs[k].address, arrangements[k])
    requires var i := |sensors|; s == Sensor(configs[i].name, configs[i].address, arrangements[i])
    ensures forall k :: 0 <= k < |sensors| + 1 ==>
      (sensors + [s])[k] == Sensor(configs[k].name, configs[k].address, arrangements[k])
  {
  }

  /** The loop body of `Serve` for one sensor: build its table, or report the sensor's error. */
  method SetUpSensor(c: SensorConfig, arranged: seq<Level>) returns (r: Result<Sensor, TableError>)
    requires Admissible(c, arranged)
    ensures r.Success? <==> ConfigViolation(c, arranged) == None
    ensures r.Failure? ==> ConfigViolation(c, arranged) == Some(r.error)
    ensures r.Success? ==> r.value == Sensor(c.name, c.address, arranged) && ValidTable(r.value.levels)
  {
    var table := BuildTable(c.levels, c.minRaw, c.maxRaw, arranged);
    if table.Failure? {
      return Failure(table.error);
    }
    return Success(Sensor(c.name, c.address, table.value));
  }

  /** The values the reader sets a sensor's five gauges to. */
  datatype Observation = Observation(temperature: int, rawLevel: int, liters: real, lineDamage: int, water: int)

  /**
   * The reader's handling of an accepted response: decode it, look the
   * address up, and for a known sensor set temperature and raw level as
   * received, line damage for raw level 0, liters 0 for raw levels 0 and
   * 4095, and liters from the calibration table otherwise. The water error
   * is never raised.
   */
  method HandleFrame(byAddress: map<int, Sensor>, f: seq<bv8>) returns (obs: Option<Observation>)
    requires IndexValid(byAddress) && IsResponseFrame(f)
    ensures obs.Some? <==> f[1] as int in byAddress
    ensures obs.Some? ==> var d := Decode(f); var o := obs.value;
      && o.temperature == f[3] as int
      && o.rawLevel == d.rawLevel
      && (o.lineDamage == 1 <==> d.rawLevel == 0)
      && (o.lineDamage == 0 <==> d.rawLevel != 0)
      && o.water == 0
      && (d.rawLevel == 0 || d.rawLevel == MaxWireLevel ==> o.liters == 0.0)
      && (LowestRaw <= d.rawLevel <= HighestRaw ==> o.liters == LevelAt(byAddress[d.address].levels, d.rawLevel))
      && var t := byAddress[d.address].levels; t[0].liters <= o.liters <= t[|t| - 1].liters || o.liters == 0.0
  {
    var d := Decode(f);
    if d.address !in byAddress {
      return None;
    }
    var s := byAddress[d.address];
    var damageErr := 0;
    var waterErr := 0;
    var level: real := 0.0;
    if d.rawLevel == 0 {
      damageErr := 1;
    } else if d.rawLevel == MaxWireLevel {
      waterErr := 0;
    } else {
      level := Interpolate(s.levels, d.rawLevel);
    }
    return Some(Observation(d.temperature, d.rawLevel, level, damageErr, waterErr));
  }

  /**
   * One round of the writer: a request for every sensor, in configuration
   * order, each built as the Go code builds it.
   */
  method PollRound(sensors: seq<Sensor>) returns (msgs: seq<seq<bv8>>)
    ensures |msgs| == |sensors|
    ensures forall i :: 0 <= i < |sensors| ==> msgs[i] == RequestFrame(sensors[i].address)
  {
    msgs := [];
    var i := 0;
    while i < |sensors|
      invariant 0 <= i <= |sensors| && |msgs| == i
      invariant forall k :: 0 <= k < i ==> msgs[k] == RequestFrame(sensors[k].address)
    {
      var msg := BuildRequest(sensors[i].address);
      msgs := msgs + [msg];
      i := i + 1;
    }
  }

  /**
   * A sensor configured with an address outside 0..255 is polled under its
   * address modulo 256, but the reply carries that byte, which never equals
   * the configured address, so its gauges are never set.
   */
  lemma WideAddressNeverMatches(address: int, f: seq<bv8>)
    requires address < 0 || address > 255
    requires IsResponseFrame(f) && f[1] == RequestFrame(address)[1]
    ensures Decode(f).address == address % 256 && Decode(f).address != address
  {
  }

  /**
   * A small configuration end to end: raw values 0 and 4093 remap onto 1 and
   * 4094, the table is valid, and the empty and full raw levels read as the
   * configured liters.
   */
  lemma ExampleConfiguration()
    ensures var c := SensorConfig("tank", 1, 0, 4093, [Level(0, 0.0), Level(4093, 100.0)]);
      var t := [Level(1, 0.0), Level(4094, 100.0)];
      && Admissible(c, t)
      && ConfigViolation(c, t) == None
      && LevelAt(t, 1) == 0.0 && LevelAt(t, 4094) == 100.0
  {
    var c := SensorConfig("tank", 1, 0, 4093, [Level(0, 0.0), Level(4093, 100.0)]);
    var t := [Level(1, 0.0), Level(4094, 100.0)];
    ExampleRemap();
    assert IsArrangement(t, RemapLevels(c.levels, 0, 4093));
    LevelAtPoint(t, 0);
    LevelAtPoint(t, 1);
  }

  /** The example's two points remap onto the ends of the scale. */
  lemma ExampleRemap()
    ensures RemapLevels([Level(0, 0.0), Level(4093, 100.0)], 0, 4093) == [Level(1, 0.0), Level(4094, 100.0)]
  {
    var r := RemapLevels([Level(0, 0.0), Level(4093, 100.0)], 0, 4093);
    assert r[0].raw == 1 && r[1].raw == 4094;
  }

  /**
   * A sensor with equal raw bounds after a failing sensor is never remapped:
   * the configuration is acceptable, and the first sensor's error is the one
   * reported.
   */
  lemma FailureStopsBeforeLaterSensors()
    ensures var configs := [SensorConfig("a", 1, 1, 4094, [Level(1, 0.0)]),
                            SensorConfig("b", 2, 5, 5, [Level(5, 0.0), Level(5, 1.0)])];
      var arrangements := [[Level(1, 0.0)], []];
      && !Remappable(configs[1])
      && (forall i :: 0 <= i < |configs| && Reached(configs, arrangements, i) ==> Admissible(configs[i], arrangements[i]))
      && (forall i, e :: FirstViolation(configs, arrangements, i, e) ==> i == 0 && e == TooFewLevels)
  {
    var configs := [SensorConfig("a", 1, 1, 4094, [Level(1, 0.0)]),
                    SensorConfig("b", 2, 5, 5, [Level(5, 0.0), Level(5, 1.0)])];
    var arrangements := [[Level(1, 0.0)], []];
    assert FirstViolation(configs, arrangements, 0, TooFewLevels);
    forall i, e | FirstViolation(configs, arrangements, i, e)
      ensures i == 0 && e == TooFewLevels
    {
      FirstViolationUnique(configs, arrangements, i, e, 0, TooFewLevels);
    }
  }

  /**
   * A 1000-liter tank calibrated over the raw range 0..4094: the points remap
   * onto the ends of the scale, the table is valid, a response carrying the
   * bytes 0xFF and 0x07 decodes to raw level 2047, and that level reads as
   * about half the tank.
   */
  lemma ExampleHalfTank(address: bv8, temperature: bv8, spare1: bv8, spare2: bv8)
    ensures var c := SensorConfig("tank", 1, 0, 4094, [Level(0, 0.0), Level(4094, 1000.0)]);
      var t := [Level(1, 0.0), Level(4094, 1000.0)];
      && Admissible(c, t)
      && ConfigViolation(c, t) == None
      && Decode(EncodeResponse(address, temperature, 0xFF, 0x07, spare1, spare2)).rawLevel == 2047
      && 499.0 < LevelAt(t, 2047) < 501.0
  {
    var t := [Level(1, 0.0), Level(4094, 1000.0)];
    HalfTankRemap();
    HalfTankLiters(t);
    HalfTankReading(address, temperature, spare1, spare2);
  }

  /** The half-tank example's points, at the raw bounds, remap onto the ends of the scale. */
  lemma HalfTankRemap()
    ensures RemapLevels([Level(0, 0.0), Level(4094, 1000.0)], 0, 4094) == [Level(1, 0.0), Level(4094, 1000.0)]
  {
  }

  /** Level bytes 0xFF and 0x07 carry the raw level 0x07FF = 2047. */
  lemma HalfTankReading(address: bv8, temperature: bv8, spare1: bv8, spare2: bv8)
    ensures Decode(EncodeResponse(address, temperature, 0xFF, 0x07, spare1, spare2)).rawLevel == 2047
  {
  }

  /** The half-tank example's raw level 2047 lies on the line from 0 to 1000 liters. */
  lemma HalfTankLiters(t: seq<Level>)
    requires t == [Level(1, 0.0), Level(4094, 1000.0)]
    ensures ValidTable(t) && 499.0 < LevelAt(t, 2047) < 501.0
  {
    LevelAtWithinSegment(t, 2047, 0);
  }
}
