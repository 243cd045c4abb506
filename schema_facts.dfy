/**
 * What the schemas mean: on tokens that are all bytes, reading a layout
 * step by step from the cursor gives the same entries as reading every field
 * at its fixed byte offset, little-endian, with the bit fields cut out
 * arithmetically. Also the widths of the five layouts, and how `getkbits8`
 * behaves inside and outside the byte it was written for.
 */
module SchemaFacts {

  import opened Wrappers
  import opened PyText
  import opened PyInt
  import opened ByteCursor
  import opened ByteCursorFacts
  import opened Schemas

  // ------------------------------------------------------------ widths

  /** Tokens one `_parsebinary(_, dtype, numbytes)` pops when enough are there. */
  function ReadWidth(dtype: string, numbytes: int): nat {
    match KindOf(dtype, numbytes)
    case None => 0
    case Some(k) => Taken(k)
  }

  function StepWidth(step: Step): nat {
    match step
    case Field(_, dtype, _) => ReadWidth(dtype, 1)
    case Flags(numbytes, _) => ReadWidth("bool", numbytes)
    case Split(dtype, _) => ReadWidth(dtype, 1)
  }

  /** Tokens a whole layout pops. */
  function Width(layout: seq<Step>): nat
    decreases |layout|
  {
    if |layout| == 0 then 0 else StepWidth(layout[0]) + Width(layout[1..])
  }

  lemma {:induction false} WidthAppend(a: seq<Step>, b: seq<Step>)
    ensures Width(a + b) == Width(a) + Width(b)
    decreases |a|
  {
    if |a| == 0 {
      assert a + b == b;
    } else {
      assert (a + b)[1..] == a[1..] + b;
      WidthAppend(a[1..], b);
    }
  }

  // ------------------------------------------------------------ well-formed layouts

  /** Every pick names a bit below `n`. */
  predicate BitsBelow(picks: seq<Pick>, n: nat) {
    forall pick | pick in picks :: pick.bit < n
  }

  /** Every part lies inside one byte: at least one bit, and `p + k <= 8`. */
  predicate PartsFit(parts: seq<Part>) {
    forall part | part in parts :: 1 <= part.k && part.p + part.k <= 8
  }

  /**
   * A step whose every read of byte tokens succeeds: an integer of at least
   * one byte, a bit list whose picks lie inside it, or a one-byte register cut
   * into fields inside that byte.
   */
  predicate Safe(step: Step) {
    match step
    case Field(_, dtype, _) =>
      KindOf(dtype, 1).Some? && (KindOf(dtype, 1).value.Unsigned? || KindOf(dtype, 1).value.Signed?)
      && KindOf(dtype, 1).value.count >= 1
    case Flags(numbytes, picks) => numbytes >= 1 && BitsBelow(picks, 8 * numbytes)
    case Split(dtype, parts) => KindOf(dtype, 1) == Some(Unsigned(1)) && PartsFit(parts)
  }

  predicate AllSafe(layout: seq<Step>) {
    forall i :: 0 <= i < |layout| ==> Safe(layout[i])
  }

  // ------------------------------------------------------------ the reference reading

  /** The integer a field holds: the two's complement reading for a signed type. */
  function FieldNumber(k: Kind, v: nat): int {
    if k.Signed? then TwosComplement(v, k.count) else v
  }

  /** The entries of one step, computed from the bytes it covers. */
  function At(bytes: seq<string>, step: Step): seq<Entry>
    requires Safe(step) && AllBytes(bytes) && |bytes| == StepWidth(step)
  {
    var v := LittleEndian(bytes);
    match step
    case Field(name, dtype, t) => [Entry(name, ScaleInt(t, FieldNumber(KindOf(dtype, 1).value, v)))]
    case Flags(_, picks) => BitEntries(picks, v)
    case Split(_, parts) => FieldEntriesOf(parts, v)
  }

  /** Each pick gets bit `bit` of `v`. */
  function BitEntries(picks: seq<Pick>, v: nat): (r: seq<Entry>)
    ensures |r| == |picks|
    ensures forall j :: 0 <= j < |picks| ==> r[j] == Entry(picks[j].name, Int(Shr(v, picks[j].bit) % 2))
  {
    seq(|picks|, j requires 0 <= j < |picks| => Entry(picks[j].name, Int(Shr(v, picks[j].bit) % 2)))
  }

  /** Each part gets the `k` bits of `v` from bit `p` on, transformed. */
  function FieldEntriesOf(parts: seq<Part>, v: nat): (r: seq<Entry>)
    ensures |r| == |parts|
    ensures forall j :: 0 <= j < |parts| ==>
      r[j] == Entry(parts[j].name, ScaleInt(parts[j].t, Shr(v, parts[j].p) % Pow2(parts[j].k)))
  {
    seq(|parts|, j requires 0 <= j < |parts| =>
      Entry(parts[j].name, ScaleInt(parts[j].t, Shr(v, parts[j].p) % Pow2(parts[j].k))))
  }

  /**
   * Every step read from the bytes that follow the previous step's: the first
   * step from the first bytes, the next from the bytes after those, and so on.
   */
  function Reference(bytes: seq<string>, layout: seq<Step>): seq<Entry>
    requires AllSafe(layout) && AllBytes(bytes) && Width(layout) <= |bytes|
    decreases |layout|
  {
    if |layout| == 0 then []
    else
      var w := StepWidth(layout[0]);
      At(bytes[..w], layout[0]) + Reference(bytes[w..], layout[1..])
  }

  // ------------------------------------------------------------ getkbits8

  /**
   * Inside one byte `getkbits8` is what its comment says: the `k` bits of
   * `num` starting at bit `p`.
   */
  lemma GetKBits8Field(num: nat, k: nat, p: nat)
    requires num < Pow2(8) && 1 <= k && p + k <= 8
    ensures GetKBits8(num, k, p) == Ok(Shr(num, p) % Pow2(k))
  {
    var digits := PyBin(num)[2..];
    var binary := Zeros(8 - |digits|) + digits;
    PaddedByte(num);
    var s := PySlice(binary, 8 - p - k, 8 - p);
    WindowOfByte(num, k, p);
    assert ParseInt2(s) == Some(Shr(num, p) % Pow2(k));
  }

  /** `bin(num)[2:]` padded to eight digits is the byte's eight bits. */
  lemma PaddedByte(num: nat)
    requires num < Pow2(8)
    ensures var digits := PyBin(num)[2..]; Zeros(8 - |digits|) + digits == Msb(num, 8)
  {
    assert PyBin(num)[2..] == BinDigits(num);
    PaddedBinDigits(num, 8);
  }

  /** The slice `getkbits8` takes of the eight bits spells the `k` bits from bit `p`. */
  lemma WindowOfByte(num: nat, k: nat, p: nat)
    requires 1 <= k && p + k <= 8
    ensures PySlice(Msb(num, 8), 8 - p - k, 8 - p) == Msb(Shr(num, p), k)
    ensures BinValue(Msb(Shr(num, p), k)) == Shr(num, p) % Pow2(k)
  {
    WindowOf(num, 8, k, p);
  }

  /** The same window in a rendering of any width `w`. */
  lemma WindowOf(num: nat, w: nat, k: nat, p: nat)
    requires 1 <= k && p + k <= w
    ensures PySlice(Msb(num, w), w - p - k, w - p) == Msb(Shr(num, p), k)
    ensures BinValue(Msb(Shr(num, p), k)) == Shr(num, p) % Pow2(k)
  {
    assert PySlice(Msb(num, w), w - p - k, w - p) == Msb(num, w)[w - p - k..w - p];
    MsbSlice(num, w, w - p - k, w - p);
    MsbValue(Shr(num, p), k);
  }

  /**
   * The temperature registers of `_stx` pass a signed 16-bit reading with
   * `k = 12, p = 4`. The slice is then `[-8:4]`: on a reading below 256 it is
   * the byte's top four bits, which is also the 12-bit field the call asks for.
   */
  lemma TemperatureOfByte(n: nat)
    requires n < Pow2(8)
    ensures GetKBits8(n, 12, 4) == Ok(Shr(n, 4))
    ensures Shr(n, 4) == Shr(n, 4) % Pow2(12)
  {
    var digits := PyBin(n)[2..];
    var binary := Zeros(8 - |digits|) + digits;
    PaddedByte(n);
    var s := PySlice(binary, -8, 4);
    assert s == PySlice(Msb(n, 8), 8 - 4 - 4, 8 - 4);
    WindowOfByte(n, 4, 4);
    HighNibble(n);
    assert ParseInt2(s) == Some(Shr(n, 4));
  }

  lemma HighNibble(n: nat)
    requires n < Pow2(8)
    ensures Shr(n, 4) % Pow2(4) == Shr(n, 4) == Shr(n, 4) % Pow2(12)
  {
    Pow2Values();
    assert Pow2(12) == 4096 by {
      Pow2Add(4, 8);
    }
    assert Shr(n, 4) == n / 16;
  }

  /**
   * From 2048 on, `bin(num)` has twelve digits or more, the slice `[-8:4]` is
   * empty, and `int('', 2)` raises `ValueError`.
   */
  lemma TemperatureFromEleven(n: nat)
    requires Pow2(11) <= n
    ensures GetKBits8(n, 12, 4) == Err(ValueError)
  {
    BinDigitsLong(n, 11);
    assert PyBin(n)[2..] == BinDigits(n);
  }

  /** Between 256 and 2047 the slice keeps a few high digits only: 400 reads as 4, not 25. */
  lemma TemperatureOfFourHundred()
    ensures GetKBits8(400, 12, 4) == Ok(4)
    ensures Shr(400, 4) % Pow2(12) == 25
  {
    KBitsOfFourHundred();
    ShiftedFourHundred();
  }

  lemma KBitsOfFourHundred()
    ensures GetKBits8(400, 12, 4) == Ok(4)
  {
    var digits := PyBin(400)[2..];
    assert digits == BinDigits(400);
    BinDigitsOfFourHundred();
    assert Zeros(8 - |digits|) + digits == digits;
    var s := PySlice(digits, -8, 4);
    assert s == digits[1..4] == "100";
    assert BinValue("100") == 4 by {
      assert BinValue("1") == 1;
      assert BinValue("10") == 2;
    }
    assert ParseInt2(s) == Some(4);
  }

  lemma ShiftedFourHundred()
    ensures Shr(400, 4) % Pow2(12) == 25
  {
    Pow2Values();
    var p := Pow2(12);
    assert p == 0x1000 by {
      Pow2Add(8, 4);
    }
    assert Shr(400, 4) == 400 / 16 == 25;
    assert 25 % p == 25;
  }

  lemma BinDigitsOfFourHundred()
    ensures BinDigits(400) == "110010000"
  {
    assert BinDigits(1) == "1";
    assert BinDigits(3) == "11";
    assert BinDigits(6) == "110";
    assert BinDigits(12) == "1100";
    assert BinDigits(25) == "11001";
    assert BinDigits(50) == "110010";
    assert BinDigits(100) == "1100100";
    assert BinDigits(200) == "11001000";
  }

  /**
   * A negative reading keeps the `b` of `bin()`'s `-0b` prefix: -32 gives
   * `"b100000"`, padded to `"0b100000"`, whose slice `"0b10"` reads as 2.
   */
  lemma TemperatureOfMinusThirtyTwo()
    ensures GetKBits8(-32, 12, 4) == Ok(2)
  {
    var digits := PyBin(-32)[2..];
    PaddedMinusThirtyTwo();
    var binary := Zeros(8 - |digits|) + digits;
    var s := PySlice(binary, -8, 4);
    assert s == binary[0..4] == "0b10";
    assert StartsWith(s, "0b");
    assert s[2..] == "10";
    assert BinValue("10") == 2 by {
      assert BinValue("1") == 1;
    }
    assert ParseInt2(s) == Some(2);
  }

  /** `bin(-32)[2:]` is `b100000`, which the zero padding to eight leaves as `0b100000`. */
  lemma PaddedMinusThirtyTwo()
    ensures var digits := PyBin(-32)[2..]; Zeros(8 - |digits|) + digits == "0b100000"
  {
    var digits := PyBin(-32)[2..];
    assert digits == "b" + BinDigits(32);
    BinDigitsOfThirtyTwo();
  }

  lemma BinDigitsOfThirtyTwo()
    ensures BinDigits(32) == "100000"
  {
    assert BinDigits(1) == "1";
    assert BinDigits(2) == "10";
    assert BinDigits(4) == "100";
    assert BinDigits(8) == "1000";
    assert BinDigits(16) == "10000";
  }

  // ------------------------------------------------------------ one step, then the whole layout

  lemma FlagsOfBits(picks: seq<Pick>, bits: seq<int>, v: nat)
    requires forall j :: 0 <= j < |picks| ==> picks[j].bit < |bits|
    requires forall i :: 0 <= i < |bits| ==> bits[i] == Shr(v, i) % 2
    ensures FlagEntries(picks, Ok(Bits(bits))) == Ok(BitEntries(picks, v))
  {
    if |picks| > 0 {
      var got := seq(|picks|, j requires 0 <= j < |picks| => Entry(picks[j].name, Int(bits[picks[j].bit])));
      assert FlagEntries(picks, Ok(Bits(bits))) == Ok(got);
      assert forall j :: 0 <= j < |picks| ==> got[j] == BitEntries(picks, v)[j];
      assert got == BitEntries(picks, v);
    }
  }

  lemma BitsStep(tokens: seq<string>, numbytes: nat, picks: seq<Pick>)
    requires 1 <= numbytes <= |tokens| && AllBytes(tokens) && BitsBelow(picks, 8 * numbytes)
    ensures StepWidth(Flags(numbytes, picks)) == numbytes
    ensures StepSpec(tokens, Flags(numbytes, picks))
      == (Ok(At(tokens[..numbytes], Flags(numbytes, picks))), tokens[numbytes..])
  {
    KindsUsed(numbytes);
    BitsRead(tokens, numbytes, numbytes);
    var b := ReadSpec(tokens, "bool", numbytes).0.value;
    FlagsOfBits(picks, b.bits, LittleEndian(tokens[..numbytes]));
  }

  lemma PartsOfRegister(parts: seq<Part>, v: nat)
    requires v < Pow2(8) && PartsFit(parts)
    ensures SplitEntries(parts, Ok(Int(v))) == Ok(FieldEntriesOf(parts, v))
  {
    forall j | 0 <= j < |parts|
      ensures GetKBits8(v, parts[j].k, parts[j].p) == Ok(Shr(v, parts[j].p) % Pow2(parts[j].k))
    {
      GetKBits8Field(v, parts[j].k, parts[j].p);
    }
    if |parts| > 0 {
      var got := seq(|parts|, j requires 0 <= j < |parts| =>
        Entry(parts[j].name, ScaleInt(parts[j].t, GetKBits8(v, parts[j].k, parts[j].p).value)));
      assert SplitEntries(parts, Ok(Int(v))) == Ok(got);
      assert forall j :: 0 <= j < |parts| ==> got[j] == FieldEntriesOf(parts, v)[j];
      assert got == FieldEntriesOf(parts, v);
    }
  }

  lemma SplitStep(tokens: seq<string>, dtype: string, parts: seq<Part>)
    requires KindOf(dtype, 1) == Some(Unsigned(1)) && PartsFit(parts)
    requires 1 <= |tokens| && AllBytes(tokens)
    ensures StepWidth(Split(dtype, parts)) == 1
    ensures StepSpec(tokens, Split(dtype, parts)) == (Ok(At(tokens[..1], Split(dtype, parts))), tokens[1..])
  {
    UnsignedRead(tokens, dtype, 1, 1);
    PartsOfRegister(parts, LittleEndian(tokens[..1]));
  }

  lemma FieldStep(tokens: seq<string>, name: string, dtype: string, t: Transform)
    requires Safe(Field(name, dtype, t))
    requires StepWidth(Field(name, dtype, t)) <= |tokens| && AllBytes(tokens)
    ensures var w := StepWidth(Field(name, dtype, t));
      StepSpec(tokens, Field(name, dtype, t)) == (Ok(At(tokens[..w], Field(name, dtype, t))), tokens[w..])
  {
    var k := KindOf(dtype, 1).value;
    if k.Unsigned? {
      UnsignedRead(tokens, dtype, 1, k.count);
    } else {
      SignedRead(tokens, dtype, 1, k.count);
    }
  }

  /** One safe step on byte tokens pops its width and yields the entries read at offset 0. */
  lemma StepMatches(tokens: seq<string>, step: Step)
    requires Safe(step) && StepWidth(step) <= |tokens| && AllBytes(tokens)
    ensures StepSpec(tokens, step) == (Ok(At(tokens[..StepWidth(step)], step)), tokens[StepWidth(step)..])
  {
    match step
    case Field(name, dtype, t) => FieldStep(tokens, name, dtype, t);
    case Flags(numbytes, picks) => BitsStep(tokens, numbytes, picks);
    case Split(dtype, parts) => SplitStep(tokens, dtype, parts);
  }

  /**
   * Reading a safe layout from the cursor over byte tokens never raises, and
   * yields exactly the fixed-offset reading.
   */
  lemma {:induction false} RunMatchesReference(bytes: seq<string>, layout: seq<Step>)
    requires AllSafe(layout) && AllBytes(bytes) && Width(layout) <= |bytes|
    ensures Run(bytes, layout) == Ok(Reference(bytes, layout))
    decreases |layout|
  {
    if |layout| > 0 {
      var w := StepWidth(layout[0]);
      StepMatches(bytes, layout[0]);
      RunMatchesReference(bytes[w..], layout[1..]);
    }
  }

  lemma AtKeys(bytes: seq<string>, step: Step)
    requires Safe(step) && AllBytes(bytes) && |bytes| == StepWidth(step)
    ensures Keys(At(bytes, step)) == StepNames(step)
  {
  }

  /** The reading assigns exactly the layout's keys, in order. */
  lemma {:induction false} ReferenceKeys(bytes: seq<string>, layout: seq<Step>)
    requires AllSafe(layout) && AllBytes(bytes) && Width(layout) <= |bytes|
    ensures Keys(Reference(bytes, layout)) == Names(layout)
    decreases |layout|
  {
    if |layout| > 0 {
      var w := StepWidth(layout[0]);
      var head := At(bytes[..w], layout[0]);
      var tail := Reference(bytes[w..], layout[1..]);
      assert Reference(bytes, layout) == head + tail;
      AtKeys(bytes[..w], layout[0]);
      ReferenceKeys(bytes[w..], layout[1..]);
      KeysAppend(head, tail);
    } else {
      assert Keys([]) == [];
    }
  }

  lemma KeysAppend(a: seq<Entry>, b: seq<Entry>)
    ensures Keys(a + b) == Keys(a) + Keys(b)
  {
    assert forall j :: 0 <= j < |a + b| ==> Keys(a + b)[j] == (Keys(a) + Keys(b))[j];
  }

  // ------------------------------------------------------------ the five layouts

  /** Widths add up, and safety is kept, when layouts are joined. */
  lemma AppendShape(a: seq<Step>, b: seq<Step>)
    ensures Width(a + b) == Width(a) + Width(b)
    ensures AllSafe(a) && AllSafe(b) ==> AllSafe(a + b)
  {
    WidthAppend(a, b);
    assert forall i :: |a| <= i < |a + b| ==> (a + b)[i] == b[i - |a|];
  }

  lemma WidthSingle()
    ensures forall step: Step {:trigger Width([step])} :: Width([step]) == StepWidth(step)
  {
    forall step: Step
      ensures Width([step]) == StepWidth(step)
    {
      assert [step][1..] == [];
    }
  }

  /** A layout whose every step has the same width `w` is `w` bytes per step. */
  lemma {:induction false} UniformWidth(layout: seq<Step>, w: nat)
    requires forall i :: 0 <= i < |layout| ==> StepWidth(layout[i]) == w
    ensures Width(layout) == |layout| * w
    decreases |layout|
  {
    if |layout| > 0 {
      UniformWidth(layout[1..], w);
      MulSucc(|layout| - 1, w);
    }
  }

  lemma MulSucc(n: nat, w: nat)
    ensures (n + 1) * w == w + n * w
  {
  }

  lemma FieldsWidth()
    ensures forall dtype, fs {:trigger Fields(dtype, fs)} :: Width(Fields(dtype, fs)) == |fs| * ReadWidth(dtype, 1)
  {
    forall dtype, fs {
      UniformWidth(Fields(dtype, fs), ReadWidth(dtype, 1));
    }
  }

  lemma EpsOutputsShape()
    ensures Width(EpsOutputs) == 20 && AllSafe(EpsOutputs)
  {
    KindsUsed(1);
    FieldsWidth();
  }

  lemma EpsBoardsShape()
    ensures Width(EpsBoards) == 8 && AllSafe(EpsBoards)
  {
    KindsUsed(1);
    FieldsWidth();
  }

  lemma EpsSwitchbusAShape()
    ensures Width(EpsSwitchbusA) == 16 && AllSafe(EpsSwitchbusA)
  {
    KindsUsed(1);
    FieldsWidth();
  }

  lemma EpsSwitchbusBShape()
    ensures Width(EpsSwitchbusB) == 16 && AllSafe(EpsSwitchbusB)
  {
    KindsUsed(1);
    FieldsWidth();
  }

  lemma EpsBcrLowShape()
    ensures Width(EpsBcrLow) == 18 && AllSafe(EpsBcrLow)
  {
    KindsUsed(1);
    FieldsWidth();
  }

  lemma EpsBcrHighShape()
    ensures Width(EpsBcrHigh) == 22 && AllSafe(EpsBcrHigh)
  {
    KindsUsed(1);
    FieldsWidth();
  }

  lemma EpsPdmStateBits()
    ensures BitsBelow(EpsPdmState[0].picks, 16)
  {
  }

  lemma EpsPdmStateShape()
    ensures Width(EpsPdmState) == 2 && AllSafe(EpsPdmState)
  {
    EpsPdmStateBits();
    KindsUsed(2);
    WidthSingle();
  }

  lemma EpsResetsShape()
    ensures Width(EpsResets) == 14 && AllSafe(EpsResets)
  {
    KindsUsed(1);
    FieldsWidth();
  }

  lemma BatteryReadingsShape()
    ensures Width(BatteryReadings) == 14 && AllSafe(BatteryReadings)
  {
    KindsUsed(1);
    FieldsWidth();
  }

  lemma BatteryHeatersBits()
    ensures BitsBelow(BatteryHeaters[0].picks, 8)
  {
  }

  lemma BatteryHeatersShape()
    ensures Width(BatteryHeaters) == 1 && AllSafe(BatteryHeaters)
  {
    BatteryHeatersBits();
    KindsUsed(1);
    WidthSingle();
  }

  lemma VutrxFailedShape()
    ensures Width(VutrxFailed) == 1 && AllSafe(VutrxFailed)
  {
    KindsUsed(1);
    FieldsWidth();
  }

  lemma VutrxCountersShape()
    ensures Width(VutrxCounters) == 4 && AllSafe(VutrxCounters)
  {
    KindsUsed(1);
    FieldsWidth();
  }

  lemma VutrxLocksShape()
    ensures Width(VutrxLocks) == 1 && AllSafe(VutrxLocks)
  {
    KindsUsed(1);
    WidthSingle();
  }

  lemma VutrxRssiShape()
    ensures Width(VutrxRssi) == 2 && AllSafe(VutrxRssi)
  {
    KindsUsed(1);
    FieldsWidth();
  }

  lemma VutrxTemperaturesShape()
    ensures Width(VutrxTemperatures) == 2 && AllSafe(VutrxTemperatures)
  {
    KindsUsed(1);
    FieldsWidth();
  }

  lemma VutrxPowerShape()
    ensures Width(VutrxPower) == 1 && AllSafe(VutrxPower)
  {
    KindsUsed(1);
    FieldsWidth();
  }

  lemma VutrxOffsetsShape()
    ensures Width(VutrxOffsets) == 4 && AllSafe(VutrxOffsets)
  {
    KindsUsed(1);
    FieldsWidth();
  }

  lemma VutrxDtmfShape()
    ensures Width(VutrxDtmf) == 1 && AllSafe(VutrxDtmf)
  {
    KindsUsed(1);
    WidthSingle();
  }

  lemma VutrxSupplyShape()
    ensures Width(VutrxSupply) == 8 && AllSafe(VutrxSupply)
  {
    KindsUsed(1);
    FieldsWidth();
  }

  lemma VutrxForwardShape()
    ensures Width(VutrxForward) == 4 && AllSafe(VutrxForward)
  {
    KindsUsed(1);
    FieldsWidth();
  }

  lemma StxSupplyShape()
    ensures Width(StxSupply) == 8 && AllSafe(StxSupply)
  {
    KindsUsed(1);
    FieldsWidth();
  }

  lemma StxAnalogueShape()
    ensures Width(StxAnalogue) == 2 && AllSafe(StxAnalogue)
  {
    KindsUsed(1);
    FieldsWidth();
  }

  lemma StxBuffersShape()
    ensures Width(StxBuffers) == 4 && AllSafe(StxBuffers)
  {
    KindsUsed(1);
    FieldsWidth();
  }

  lemma StxAmplifierStatusBits()
    ensures BitsBelow(StxAmplifierStatus[0].picks, 8)
  {
  }

  lemma StxAmplifierStatusShape()
    ensures Width(StxAmplifierStatus) == 1 && AllSafe(StxAmplifierStatus)
  {
    StxAmplifierStatusBits();
    KindsUsed(1);
    WidthSingle();
  }

  lemma StxOutputShape()
    ensures Width(StxOutput) == 2 && AllSafe(StxOutput)
  {
    KindsUsed(1);
    FieldsWidth();
  }

  lemma AntsTemperatureShape()
    ensures Width(AntsTemperature) == 2 && AllSafe(AntsTemperature)
  {
    KindsUsed(1);
    FieldsWidth();
  }

  lemma AntsStatusBits()
    ensures BitsBelow(AntsStatus[0].picks, 16)
  {
  }

  lemma AntsStatusShape()
    ensures Width(AntsStatus) == 2 && AllSafe(AntsStatus)
  {
    AntsStatusBits();
    KindsUsed(2);
    WidthSingle();
  }

  lemma StxTemperaturesShape()
    ensures Width(StxTemperatures) == 4 && !Safe(StxTemperatures[0]) && !Safe(StxTemperatures[1])
  {
    KindsUsed(1);
    WidthSingle();
    assert StxTemperatures[1..] == [StxTemperatures[1]];
  }

  /** `_eps` takes 116 bytes, and every read in it succeeds on byte tokens. */
  lemma EpsShape()
    ensures Width(EpsLayout) == 116 && AllSafe(EpsLayout)
  {
    EpsOutputsShape();
    EpsBoardsShape();
    EpsSwitchbusAShape();
    EpsSwitchbusBShape();
    EpsBcrLowShape();
    EpsBcrHighShape();
    EpsPdmStateShape();
    EpsResetsShape();
    var l := EpsOutputs;
    AppendShape(l, EpsBoards);
    l := l + EpsBoards;
    AppendShape(l, EpsSwitchbusA);
    l := l + EpsSwitchbusA;
    AppendShape(l, EpsSwitchbusB);
    l := l + EpsSwitchbusB;
    AppendShape(l, EpsBcrLow);
    l := l + EpsBcrLow;
    AppendShape(l, EpsBcrHigh);
    l := l + EpsBcrHigh;
    AppendShape(l, EpsPdmState);
    l := l + EpsPdmState;
    AppendShape(l, EpsResets);
  }

  /** `_battery` takes 15 bytes, all read safely. */
  lemma BatteryShape()
    ensures Width(BatteryLayout) == 15 && AllSafe(BatteryLayout)
  {
    BatteryReadingsShape();
    BatteryHeatersShape();
    AppendShape(BatteryReadings, BatteryHeaters);
  }

  /** `_vutrx` takes 28 bytes, all read safely. */
  lemma VutrxShape()
    ensures Width(VutrxLayout) == 28 && AllSafe(VutrxLayout)
  {
    VutrxFailedShape();
    VutrxCountersShape();
    VutrxLocksShape();
    VutrxRssiShape();
    VutrxTemperaturesShape();
    VutrxPowerShape();
    VutrxOffsetsShape();
    VutrxDtmfShape();
    VutrxSupplyShape();
    VutrxForwardShape();
    var l := VutrxFailed;
    AppendShape(l, VutrxCounters);
    l := l + VutrxCounters;
    AppendShape(l, VutrxLocks);
    l := l + VutrxLocks;
    AppendShape(l, VutrxRssi);
    l := l + VutrxRssi;
    AppendShape(l, VutrxTemperatures);
    l := l + VutrxTemperatures;
    AppendShape(l, VutrxPower);
    l := l + VutrxPower;
    AppendShape(l, VutrxOffsets);
    l := l + VutrxOffsets;
    AppendShape(l, VutrxDtmf);
    l := l + VutrxDtmf;
    AppendShape(l, VutrxSupply);
    l := l + VutrxSupply;
    AppendShape(l, VutrxForward);
  }

  /**
   * `_stx` takes 21 bytes; all its reads are safe but the two temperature
   * registers, whose signed 16-bit values are cut as if they were one byte.
   */
  lemma StxShape()
    ensures Width(StxLayout) == 21
    ensures AllSafe(StxSupply) && AllSafe(StxAnalogue + StxBuffers + StxAmplifierStatus + StxOutput)
    ensures !AllSafe(StxLayout)
  {
    StxSupplyShape();
    StxTemperaturesShape();
    StxAnalogueShape();
    StxBuffersShape();
    StxAmplifierStatusShape();
    StxOutputShape();
    var l := StxSupply;
    AppendShape(l, StxTemperatures);
    l := l + StxTemperatures;
    AppendShape(l, StxAnalogue);
    l := l + StxAnalogue;
    AppendShape(l, StxBuffers);
    l := l + StxBuffers;
    AppendShape(l, StxAmplifierStatus);
    l := l + StxAmplifierStatus;
    AppendShape(l, StxOutput);
    var r := StxAnalogue;
    AppendShape(r, StxBuffers);
    r := r + StxBuffers;
    AppendShape(r, StxAmplifierStatus);
    r := r + StxAmplifierStatus;
    AppendShape(r, StxOutput);
    assert StxLayout[|StxSupply|] == StxTemperatures[0];
  }

  /** `_ants` takes 4 bytes, all read safely. */
  lemma AntsShape()
    ensures Width(AntsLayout) == 4 && AllSafe(AntsLayout)
  {
    AntsTemperatureShape();
    AntsStatusShape();
    AppendShape(AntsTemperature, AntsStatus);
  }
}
