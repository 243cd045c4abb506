/**
 * The five telemetry schemas (`_eps`, `_battery`, `_vutrx`, `_stx`, `_ants`):
 * each is a fixed sequence of reads from the byte cursor, every read turned
 * into one or more named entries of the result. A schema is written here as a
 * layout, a list of steps in the order the source performs the reads.
 */
module Schemas {

  import opened Wrappers
  import opened PyText
  import opened PyInt
  import opened ByteCursor

  /**
   * What is done to a number read: `Raw` keeps it, `Scaled(s, o)` yields the
   * real `value * s + o` (the source's `* s`, `* s / d` and `* s - o` forms,
   * in exact arithmetic).
   */
  datatype Transform = Raw | Scaled(scale: real, offset: real)

  /** One entry taken from a bit list: `name` gets `bits[bit]`. */
  datatype Pick = Pick(name: string, bit: nat)

  /** One entry cut from a register: `name` gets `getkbits8(register, k, p)`, transformed. */
  datatype Part = Part(name: string, k: nat, p: nat, t: Transform)

  datatype Step =
    | /** `ordict[name] = _parsebinary(hexarray, dtype)`, transformed. */
      Field(name: string, dtype: string, t: Transform)
    | /** `flags = _parsebinary(hexarray, 'bool', numbytes)`, then one entry per pick. */
      Flags(numbytes: nat, picks: seq<Pick>)
    | /** `register = _parsebinary(hexarray, dtype)`, then one entry per part. */
      Split(dtype: string, parts: seq<Part>)

  /** One key and value of the ordered dictionary a schema returns. */
  datatype Entry = Entry(key: string, value: Value)

  // ------------------------------------------------------------ getkbits8

  /** `bin(num)`: `0b` and the binary digits, after a `-` for a negative number. */
  function PyBin(num: int): (r: string)
    ensures 3 <= |r|
  {
    if num >= 0 then "0b" + BinDigits(num) else "-0b" + BinDigits(-num)
  }

  /**
   * `getkbits8(num, k, p)`: the digits of `bin(num)` after its first two
   * characters, left-padded with zeros to eight, then the slice
   * `[7 - p - k + 1 : 8 - p]` read with `int(_, 2)`.
   */
  function GetKBits8(num: int, k: int, p: int): Result<nat> {
    var digits := PyBin(num)[2..];
    var binary := Zeros(8 - |digits|) + digits;
    var end := 8 - p - 1;
    var start := end - k + 1;
    match ParseInt2(PySlice(binary, start, end + 1))
    case None => Err(ValueError)
    case Some(v) => Ok(v)
  }

  // ------------------------------------------------------------ one step

  function ScaleInt(t: Transform, n: int): Value {
    match t
    case Raw => Int(n)
    case Scaled(s, o) => Real(n as real * s + o)
  }

  /** The transform applied to a value read; multiplying `None` or a list is a TypeError. */
  function Scale(t: Transform, v: Value): Result<Value> {
    match t
    case Raw => Ok(v)
    case Scaled(s, o) =>
      match v
      case Int(i) => Ok(ScaleInt(t, i))
      case Real(x) => Ok(Real(x * s + o))
      case _ => Err(TypeError)
  }

  function FieldEntries(name: string, t: Transform, r: Result<Value>): Result<seq<Entry>> {
    match r
    case Err(e) => Err(e)
    case Ok(v) =>
      match Scale(t, v)
      case Err(e) => Err(e)
      case Ok(w) => Ok([Entry(name, w)])
  }

  /** Subscripting something that is not a list is a TypeError, an index past its end an IndexError. */
  function FlagEntries(picks: seq<Pick>, r: Result<Value>): Result<seq<Entry>> {
    match r
    case Err(e) => Err(e)
    case Ok(v) =>
      if |picks| == 0 then Ok([])
      else if !v.Bits? then Err(TypeError)
      else if forall j :: 0 <= j < |picks| ==> picks[j].bit < |v.bits| then
        Ok(seq(|picks|, j requires 0 <= j < |picks| => Entry(picks[j].name, Int(v.bits[picks[j].bit]))))
      else Err(IndexError)
  }

  /** `bin` of something that is not an integer is a TypeError; a slice `int` refuses, a ValueError. */
  function SplitEntries(parts: seq<Part>, r: Result<Value>): Result<seq<Entry>> {
    match r
    case Err(e) => Err(e)
    case Ok(v) =>
      if |parts| == 0 then Ok([])
      else if !v.Int? then Err(TypeError)
      else if forall j :: 0 <= j < |parts| ==> GetKBits8(v.i, parts[j].k, parts[j].p).Ok? then
        Ok(seq(|parts|, j requires 0 <= j < |parts| =>
          Entry(parts[j].name, ScaleInt(parts[j].t, GetKBits8(v.i, parts[j].k, parts[j].p).value))))
      else Err(ValueError)
  }

  /** One step as a function of the token list: its entries and the tokens left. */
  function StepSpec(tokens: seq<string>, step: Step): (Result<seq<Entry>>, seq<string>) {
    match step
    case Field(name, dtype, t) =>
      var (r, rest) := ReadSpec(tokens, dtype, 1);
      (FieldEntries(name, t, r), rest)
    case Flags(numbytes, picks) =>
      var (r, rest) := ReadSpec(tokens, "bool", numbytes);
      (FlagEntries(picks, r), rest)
    case Split(dtype, parts) =>
      var (r, rest) := ReadSpec(tokens, dtype, 1);
      (SplitEntries(parts, r), rest)
  }

  function Prefix(entries: seq<Entry>, r: Result<seq<Entry>>): Result<seq<Entry>> {
    match r
    case Err(e) => Err(e)
    case Ok(more) => Ok(entries + more)
  }

  /**
   * A whole layout: the entries of every step in order, or the first
   * exception raised, which ends the schema.
   */
  function Run(tokens: seq<string>, layout: seq<Step>): Result<seq<Entry>>
    decreases |layout|
  {
    if |layout| == 0 then Ok([])
    else
      var (r, rest) := StepSpec(tokens, layout[0]);
      match r
      case Err(e) => Err(e)
      case Ok(entries) => Prefix(entries, Run(rest, layout[1..]))
  }

  /** The keys one step assigns, in order. */
  function StepNames(step: Step): seq<string> {
    match step
    case Field(name, _, _) => [name]
    case Flags(_, picks) => seq(|picks|, j requires 0 <= j < |picks| => picks[j].name)
    case Split(_, parts) => seq(|parts|, j requires 0 <= j < |parts| => parts[j].name)
  }

  /** The keys a layout assigns, in order. */
  function Names(layout: seq<Step>): seq<string>
    decreases |layout|
  {
    if |layout| == 0 then [] else StepNames(layout[0]) + Names(layout[1..])
  }

  function Keys(entries: seq<Entry>): (r: seq<string>)
    ensures |r| == |entries|
    ensures forall j :: 0 <= j < |r| ==> r[j] == entries[j].key
  {
    seq(|entries|, j requires 0 <= j < |entries| => entries[j].key)
  }

  // ------------------------------------------------------------ the reads

  /** One step on the cursor. */
  method ReadStep(c: Cursor, step: Step) returns (r: Result<seq<Entry>>)
    modifies c
    ensures (r, c.tokens) == StepSpec(old(c.tokens), step)
  {
    match step
    case Field(name, dtype, t) =>
      var v := c.Read(dtype, 1);
      r := FieldEntries(name, t, v);
    case Flags(numbytes, picks) =>
      var v := c.Read("bool", numbytes);
      r := FlagEntries(picks, v);
    case Split(dtype, parts) =>
      var v := c.Read(dtype, 1);
      r := SplitEntries(parts, v);
  }

  lemma PrefixPrefix(a: seq<Entry>, b: seq<Entry>, r: Result<seq<Entry>>)
    ensures Prefix(a, Prefix(b, r)) == Prefix(a + b, r)
  {
    if r.Ok? {
      assert a + (b + r.value) == (a + b) + r.value;
    }
  }

  lemma PrefixEmpty(r: Result<seq<Entry>>)
    ensures Prefix([], r) == r
  {
    if r.Ok? {
      assert [] + r.value == r.value;
    }
  }

  /** A schema decoder (`_eps`, `_battery`, ...): the layout's steps in order on one cursor. */
  method Decode(c: Cursor, layout: seq<Step>) returns (r: Result<seq<Entry>>)
    modifies c
    ensures r == Run(old(c.tokens), layout)
  {
    var entries: seq<Entry> := [];
    var i := 0;
    assert layout[0..] == layout;
    PrefixEmpty(Run(c.tokens, layout));
    while i < |layout|
      invariant 0 <= i <= |layout|
      invariant Run(old(c.tokens), layout) == Prefix(entries, Run(c.tokens, layout[i..]))
    {
      ghost var before := c.tokens;
      var here := ReadStep(c, layout[i]);
      assert layout[i..][0] == layout[i] && layout[i..][1..] == layout[i + 1..];
      if here.Err? {
        return Err(here.error);
      }
      PrefixPrefix(entries, here.value, Run(c.tokens, layout[i + 1..]));
      entries := entries + here.value;
      i := i + 1;
    }
    assert entries + [] == entries;
    r := Ok(entries);
  }

  // ------------------------------------------------------------ the layouts

  /** A run of consecutive fields of one type, each with its name and transform. */
  function Fields(dtype: string, fs: seq<(string, Transform)>): (r: seq<Step>)
    ensures |r| == |fs|
    ensures forall i :: 0 <= i < |fs| ==> r[i] == Field(fs[i].0, dtype, fs[i].1)
  {
    seq(|fs|, i requires 0 <= i < |fs| => Field(fs[i].0, dtype, fs[i].1))
  }

  /** The regulated outputs: battery charge regulator, 12 V, battery, 5 V and 3.3 V rails (lines 346-355). */
  const EpsOutputs: seq<Step> :=
    Fields("uint16", [
      ("eps_output_current_bcr", Scaled(14.662757, 0.0)),
      ("eps_output_voltage_bcr", Scaled(0.008993157, 0.0)),
      ("eps_output_current_12v", Scaled(0.00207, 0.0)),
      ("eps_output_voltage_12v", Scaled(0.01349, 0.0)),
      ("eps_output_current_bat", Scaled(0.005237, 0.0)),
      ("eps_output_voltage_bat", Scaled(0.008978, 0.0)),
      ("eps_output_current_5v", Scaled(0.005237, 0.0)),
      ("eps_output_voltage_5v", Scaled(0.005865, 0.0)),
      ("eps_output_current_3v3", Scaled(0.005237, 0.0)),
      ("eps_output_voltage_3v3", Scaled(0.004311, 0.0))])

  /** Board temperatures and the 3.3 V and 5 V current draw (lines 356-359). */
  const EpsBoards: seq<Step> :=
    Fields("uint16", [
      ("eps_temperature_motherboard", Scaled(0.372434, -273.15)),
      ("eps_temperature_daughterboard", Scaled(0.372434, -273.15)),
      ("eps_currentdraw_3v3", Scaled(0.001327547, 0.0)),
      ("eps_currentdraw_5v", Scaled(0.001327547, 0.0))])

  /** Switched buses: motor, HSTX, camera, ADAC 5 V (lines 360-367). */
  const EpsSwitchbusA: seq<Step> :=
    Fields("uint16", [
      ("eps_switchbus_voltage_motor", Scaled(0.01349, 0.0)),
      ("eps_switchbus_current_motor", Scaled(0.001328, 0.0)),
      ("eps_switchbus_voltage_hstx", Scaled(0.008993, 0.0)),
      ("eps_switchbus_current_hstx", Scaled(0.006239, 0.0)),
      ("eps_switchbus_voltage_camera", Scaled(0.005865, 0.0)),
      ("eps_switchbus_current_camera", Scaled(0.001328, 0.0)),
      ("eps_switchbus_voltage_adac5", Scaled(0.005865, 0.0)),
      ("eps_switchbus_current_adac5", Scaled(0.001328, 0.0))])

  /** Switched buses: VLF, antennas, ADAC 3.3 V, GPS (lines 368-375). */
  const EpsSwitchbusB: seq<Step> :=
    Fields("uint16", [
      ("eps_switchbus_voltage_vlf", Scaled(0.005865, 0.0)),
      ("eps_switchbus_current_vlf", Scaled(0.001328, 0.0)),
      ("eps_switchbus_voltage_ants", Scaled(0.004311, 0.0)),
      ("eps_switchbus_current_ants", Scaled(0.001328, 0.0)),
      ("eps_switchbus_voltage_adac3", Scaled(0.004311, 0.0)),
      ("eps_switchbus_current_adac3", Scaled(0.001328, 0.0)),
      ("eps_switchbus_voltage_gps", Scaled(0.004311, 0.0)),
      ("eps_switchbus_current_gps", Scaled(0.001328, 0.0))])

  /** Battery charge regulators 1 and 2 (lines 376-384). */
  const EpsBcrLow: seq<Step> :=
    Fields("uint16", [
      ("eps_bcr1_temperature_a", Scaled(0.4963, -273.15)),
      ("eps_bcr1_temperature_b", Scaled(0.4963, -273.15)),
      ("eps_bcr1_voltage", Scaled(0.0322581, 0.0)),
      ("eps_bcr1_current", Scaled(0.0009775, 0.0)),
      ("eps_bcr2_temperature_a", Scaled(0.4963, -273.15)),
      ("eps_bcr2_temperature_b", Scaled(0.4963, -273.15)),
      ("eps_bcr2_voltage", Scaled(0.0322581, 0.0)),
      ("eps_bcr2_current_a", Scaled(0.0009775, 0.0)),
      ("eps_bcr2_current_b", Scaled(0.0009775, 0.0))])

  /** Battery charge regulators 3, 4 and 6 (lines 385-395). */
  const EpsBcrHigh: seq<Step> :=
    Fields("uint16", [
      ("eps_bcr3_temperature_a", Scaled(0.4963, -273.15)),
      ("eps_bcr3_temperature_b", Scaled(0.4963, -273.15)),
      ("eps_bcr3_voltage", Scaled(0.0099706, 0.0)),
      ("eps_bcr3_current_a", Scaled(0.0009775, 0.0)),
      ("eps_bcr3_current_b", Scaled(0.0009775, 0.0)),
      ("eps_bcr4_voltage", Scaled(0.0322581, 0.0)),
      ("eps_bcr4_current_a", Scaled(0.0009775, 0.0)),
      ("eps_bcr4_current_b", Scaled(0.0009775, 0.0)),
      ("eps_bcr6_voltage", Scaled(0.0322581, 0.0)),
      ("eps_bcr6_current_a", Scaled(0.0009775, 0.0)),
      ("eps_bcr6_current_b", Scaled(0.0009775, 0.0))])

  /** The two bytes of power distribution module flags (lines 398-406). */
  const EpsPdmState: seq<Step> := [
    Flags(2, [
      Pick("eps_pdmstate_vlf_12v", 1),
      Pick("eps_pdmstate_stx_bat", 3),
      Pick("eps_pdmstate_camera", 5),
      Pick("eps_pdmstate_adac_5v", 6),
      Pick("eps_pdmstate_vlf_5v", 7),
      Pick("eps_pdmstate_ants", 8),
      Pick("eps_pdmstate_adac_3v3", 9),
      Pick("eps_pdmstate_gps_3v3", 10)])
  ]

  /** Reset counters (lines 408-414). */
  const EpsResets: seq<Step> :=
    Fields("uint16", [
      ("eps_reset_brownout_motherboard", Raw),
      ("eps_reset_brownout_daughterboard", Raw),
      ("eps_reset_software_motherboard", Raw),
      ("eps_reset_software_daughterboard", Raw),
      ("eps_reset_manual_motherboard", Raw),
      ("eps_reset_manual_daughterboard", Raw),
      ("eps_reset_watchdog", Raw)])

  /** Voltage, current and temperatures (lines 423-429). */
  const BatteryReadings: seq<Step> :=
    Fields("uint16", [
      ("battery_voltage", Scaled(0.008993, 0.0)),
      ("battery_current", Scaled(14.662757 / 1000.0, 0.0)),
      ("battery_temperature_motherboard", Scaled(0.372434, -273.15)),
      ("battery_temperature_daughterboard_1", Scaled(0.3976, -238.57)),
      ("battery_temperature_daughterboard_2", Scaled(0.3976, -238.57)),
      ("battery_temperature_daughterboard_3", Scaled(0.3976, -238.57)),
      ("battery_temperature_daughterboard_4", Scaled(0.3976, -238.57))])

  /** The heater status flags (lines 432-436). */
  const BatteryHeaters: seq<Step> := [
    Flags(1, [
      Pick("battery_heaterstatus_1", 0),
      Pick("battery_heaterstatus_2", 1),
      Pick("battery_heaterstatus_3", 2),
      Pick("battery_heaterstatus_4", 3)])
  ]

  /** The failed-package counter (line 454). */
  const VutrxFailed: seq<Step> :=
    Fields("uint8", [("vutrx_rx_failedpackage", Raw)])

  /** The CRC-failure and package counters (lines 455-456). */
  const VutrxCounters: seq<Step> :=
    Fields("uint16", [
      ("vutrx_rx_crcfailedpackage", Raw),
      ("vutrx_rx_packagecounter", Raw)])

  /** The frequency-lock register, one bit for the receiver and one for the transmitter (lines 457-459). */
  const VutrxLocks: seq<Step> := [
    Split("uint8", [
      Part("vutrx_rx_frequentlock", 1, 0, Raw),
      Part("vutrx_tx_frequentlock", 1, 1, Raw)])
  ]

  /** Received signal strength (line 460). */
  const VutrxRssi: seq<Step> :=
    Fields("uint16", [("vutrx_rssi", Scaled(3.0 / 4096.0, 0.0))])

  /** The two signed temperatures (lines 461-462). */
  const VutrxTemperatures: seq<Step> :=
    Fields("int8", [
      ("vutrx_smps_temperature", Raw),
      ("vutrx_poweramplifier_temperature", Raw)])

  /** Amplifier power setting (line 463). */
  const VutrxPower: seq<Step> :=
    Fields("uint8", [("vutrx_poweramplifier_power", Raw)])

  /** Transmit and receive frequency offsets (lines 464-465). */
  const VutrxOffsets: seq<Step> :=
    Fields("uint16", [
      ("vutrx_frequencyoffset_tx", Raw),
      ("vutrx_frequencyoffset_rx", Raw)])

  /** The DTMF register: tone in the low nibble, counter in the high one (lines 466-468). */
  const VutrxDtmf: seq<Step> := [
    Split("uint8", [
      Part("vutrx_dtmf_tone", 4, 0, Raw),
      Part("vutrx_dtmf_counter", 4, 4, Raw)])
  ]

  /** Signed supply currents and voltages (lines 469-472). */
  const VutrxSupply: seq<Step> :=
    Fields("int16", [
      ("vutrx_current_3v3", Scaled(0.000003, 0.0)),
      ("vutrx_current_5v", Scaled(0.000062, 0.0)),
      ("vutrx_voltage_3v3", Scaled(0.004, 0.0)),
      ("vutrx_voltage_5v", Scaled(0.004, 0.0))])

  /** Forward and reverse amplifier power (lines 473-474). */
  const VutrxForward: seq<Step> :=
    Fields("uint16", [
      ("vutrx_poweramplifier_forwardpower", Scaled(3.0 / 4096.0, 0.0)),
      ("vutrx_poweramplifier_reversepower", Scaled(3.0 / 4096.0, 0.0))])

  /** Battery and amplifier supply (lines 492-495). */
  const StxSupply: seq<Step> :=
    Fields("uint16", [
      ("stx_voltage_battery", Scaled(0.004, 0.0)),
      ("stx_current_battery", Scaled(0.000040, 0.0)),
      ("stx_voltage_poweramplifier", Scaled(0.004, 0.0)),
      ("stx_current_poweramplifier", Scaled(0.000040, 0.0))])

  /**
   * The two temperature registers: a signed 16-bit read passed to `getkbits8`
   * for 12 bits from bit 4 (lines 496-497).
   */
  const StxTemperatures: seq<Step> := [
    Split("int16", [Part("stx_temperature_top", 12, 4, Scaled(0.0625, 0.0))]),
    Split("int16", [Part("stx_temperature_bottom", 12, 4, Scaled(0.0625, 0.0))])
  ]

  /**
   * Amplifier temperature, `((v * 3 / 4096) - 0.5) * 100`, and the synthesiser
   * offset, `v * 0.5 + 2400` (lines 498-500).
   */
  const StxAnalogue: seq<Step> :=
    Fields("uint8", [
      ("stx_temperature_poweramplifier", Scaled(3.0 / 4096.0 * 100.0, -0.5 * 100.0)),
      ("stx_synth_offset", Scaled(0.5, 2400.0))])

  /** Buffer overrun and underrun counters (lines 501-502). */
  const StxBuffers: seq<Step> :=
    Fields("uint16", [
      ("stx_buffer_overrun", Raw),
      ("stx_buffer_underrun", Raw)])

  /** The amplifier status flags (lines 505-507). */
  const StxAmplifierStatus: seq<Step> := [
    Flags(1, [
      Pick("stx_poweramplifier_status_frequencylock", 0),
      Pick("stx_poweramplifier_status_powergood", 1)])
  ]

  /** RF output power (line 509). */
  const StxOutput: seq<Step> :=
    Fields("uint16", [("stx_rf_poweroutput", Scaled(3.0 * 28.0 / 4096.0 / 18.0, 0.0))])

  /** The antenna board temperature (line 518). */
  const AntsTemperature: seq<Step> :=
    Fields("uint16", [("ants_temperature", Scaled(3.3 / 1023.0, 0.0))])

  /** The two bytes of deployment flags; bit 12 is not read (lines 521-536). */
  const AntsStatus: seq<Step> := [
    Flags(2, [
      Pick("ants_status_armed", 0),
      Pick("ants_status_deploymentactive_4", 1),
      Pick("ants_status_stopcriteria_4", 2),
      Pick("ants_status_deploymentflag_4", 3),
      Pick("ants_status_independentburn", 4),
      Pick("ants_status_deploymentactive_3", 5),
      Pick("ants_status_stopcriteria_3", 6),
      Pick("ants_status_deploymentflag_3", 7),
      Pick("ants_status_ignoreswitches", 8),
      Pick("ants_status_deploymentactive_2", 9),
      Pick("ants_status_stopcriteria_2", 10),
      Pick("ants_status_deploymentflag_2", 11),
      Pick("ants_status_deploymentactive_1", 13),
      Pick("ants_status_stopcriteria_1", 14),
      Pick("ants_status_deploymentflag_1", 15)])
  ]

  /** `_eps`: the electrical power system. */
  const EpsLayout: seq<Step> :=
    EpsOutputs + EpsBoards + EpsSwitchbusA + EpsSwitchbusB + EpsBcrLow + EpsBcrHigh + EpsPdmState + EpsResets

  /** `_battery`. */
  const BatteryLayout: seq<Step> := BatteryReadings + BatteryHeaters

  /** `_vutrx`: the VHF/UHF transceiver. */
  const VutrxLayout: seq<Step> :=
    VutrxFailed + VutrxCounters + VutrxLocks + VutrxRssi + VutrxTemperatures
    + VutrxPower + VutrxOffsets + VutrxDtmf + VutrxSupply + VutrxForward

  /** `_stx`: the S-band transmitter. */
  const StxLayout: seq<Step> :=
    StxSupply + StxTemperatures + StxAnalogue + StxBuffers + StxAmplifierStatus + StxOutput

  /** `_ants`: the antenna deployment system. */
  const AntsLayout: seq<Step> := AntsTemperature + AntsStatus
}
