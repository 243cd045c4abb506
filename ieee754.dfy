/**
 * `ParseDownlink.hextofloat` and `ParseDownlink.hextodouble`: an IEEE 754
 * binary32 / binary64 value rebuilt by hand from its hex rendering, as sign,
 * biased exponent and fraction, with exact reals in place of Python floats.
 * As in the program, one formula serves every exponent, the all-zero and
 * all-one exponent fields included.
 */
module Ieee754 {

  import opened Wrappers
  import opened PyText
  import opened PyInt
  import Normaliser

  /** The argument's Python type: anything that is not a `str` is rejected. */
  datatype Arg = Str(s: string) | NonStr

  /** Total width in bits, exponent width in bits, and exponent bias. */
  datatype Format = Format(width: nat, expBits: nat, bias: nat)

  const Binary32: Format := Format(32, 8, 127)
  const Binary64: Format := Format(64, 11, 1023)

  predicate WellFormed(f: Format) {
    1 + f.expBits <= f.width
  }

  function FractionBits(f: Format): nat
    requires WellFormed(f)
  {
    f.width - 1 - f.expBits
  }

  /** `2 ** e` as an exact real, for negative `e` too. */
  function Pow2Real(e: int): (r: real)
    ensures r > 0.0
  {
    if e >= 0 then Pow2(e) as real else 1.0 / Pow2(-e) as real
  }

  /**
   * The digit string that reaches `int(h[2:], 16)`: TypeError for a non-`str`,
   * ValueError for any character after the optional `0x` that is not a
   * lower-case hex digit or for nothing to parse; `swap` reverses the order of
   * the two-character groups.
   */
  function Digits(h: Arg, swap: bool): (r: Result<string>)
    ensures h.NonStr? ==> r == Err(TypeError)
    ensures h.Str? && !AllHex(if StartsWith(h.s, "0x") then h.s[2..] else h.s) ==> r == Err(ValueError)
    ensures r.Ok? ==> |r.value| > 0 && AllHex(r.value)
  {
    match h
    case NonStr => Err(TypeError)
    case Str(s) =>
      var prefixed := if StartsWith(s, "0x") then s else "0x" + s;
      var body := prefixed[2..];
      if !AllHex(body) then Err(ValueError)
      else
        var digits := if swap then Concat(Reverse(Normaliser.Chunks2(body))) else body;
        SwappedStaysHex(body);
        if |digits| == 0 then Err(ValueError) else Ok(digits)
  }

  lemma SwappedStaysHex(body: string)
    requires AllHex(body)
    ensures AllHex(Concat(Reverse(Normaliser.Chunks2(body))))
  {
    var parts := Reverse(Normaliser.Chunks2(body));
    forall k | 0 <= k < |parts| ensures AllHex(parts[k]) {
    }
    ConcatHex(parts);
  }

  /** `1 + sum of 2 ** -(k + 1)` over the set bits `k` of the fraction string. */
  function FractionValue(m: string): real
    requires IsBinary(m)
  {
    1.0 + BinValue(m) as real / Pow2(|m|) as real
  }

  /** The value as the program computes it from the argument. */
  function Reconstruct(h: Arg, swap: bool, f: Format): Result<real>
    requires WellFormed(f)
  {
    match Digits(h, swap)
    case Err(e) => Err(e)
    case Ok(d) => FromPattern(HexValue(d), f)
  }

  /**
   * Python converts the integer `2 ** k` to a float only for `k` below 1024,
   * the largest finite binary64 value being below `2 ** 1024`.
   */
  const FloatExpLimit: int := 1024

  /**
   * `sign * 2 ** (exponent - bias) * mval` raises OverflowError: the power of
   * two is an integer too large for a float, and `mval` has become a float
   * because some fraction bit is set.
   */
  predicate Overflows(i: nat, f: Format)
    requires WellFormed(f)
  {
    var b := ZeroPad(BinDigits(i), f.width);
    BinValue(b[1..1 + f.expBits]) - f.bias >= FloatExpLimit && '1' in b[1 + f.expBits..]
  }

  /**
   * The value of the integer `i`: its bits, zero-filled to the format width
   * (`bin(i)[2:].zfill(width)`), read as sign character, exponent field and
   * fraction field; or the OverflowError of the final product.
   */
  function FromPattern(i: nat, f: Format): Result<real>
    requires WellFormed(f)
  {
    var b := ZeroPad(BinDigits(i), f.width);
    if Overflows(i, f) then Err(OverflowError)
    else Ok(Combine(b[0] != '0', BinValue(b[1..1 + f.expBits]), FractionValue(b[1 + f.expBits..]), f))
  }

  /** `sign * 2 ** (exponent - bias) * mval`. */
  function Combine(negative: bool, exponent: nat, mval: real, f: Format): real {
    (if negative then -1.0 else 1.0) * Pow2Real(exponent - f.bias) * mval
  }

  lemma FractionStep(v: real, bit: real, p: real)
    requires p > 0.0
    ensures 1.0 + (2.0 * v + bit) / (2.0 * p) == (1.0 + v / p) + bit / (2.0 * p)
  {
  }

  /** The fraction loop: `1` plus `2 ** -(k + 1)` for every set bit `k`. */
  method SumFraction(mantissa: string) returns (mval: real)
    requires IsBinary(mantissa)
    ensures mval == FractionValue(mantissa)
  {
    mval := 1.0;
    var k := 0;
    while k < |mantissa|
      invariant 0 <= k <= |mantissa|
      invariant mval == FractionValue(mantissa[..k])
    {
      var prefix := mantissa[..k];
      assert mantissa[..k + 1][..k] == prefix;
      FractionStep(BinValue(prefix) as real, if mantissa[k] == '1' then 1.0 else 0.0, Pow2(k) as real);
      if mantissa[k] == '1' {
        mval := mval + 1.0 / Pow2(k + 1) as real;
      }
      k := k + 1;
    }
    assert mantissa[..k] == mantissa;
  }

  /** Prefix, validation and optional group swap, step by step. */
  method DigitsOf(h: Arg, swap: bool) returns (r: Result<string>)
    ensures r == Digits(h, swap)
  {
    if h.NonStr? {
      return Err(TypeError);
    }
    var s := h.s;
    if !StartsWith(s, "0x") {
      s := "0x" + s;
    }
    if !AllHex(s[2..]) {
      return Err(ValueError);
    }
    if swap {
      s := "0x" + Concat(Reverse(Normaliser.Chunks2(s[2..])));
    }
    if |s[2..]| == 0 {
      return Err(ValueError);
    }
    return Ok(s[2..]);
  }

  /** Shared body of `hextofloat` and `hextodouble`. */
  method ReconstructValue(h: Arg, swap: bool, f: Format) returns (r: Result<real>)
    requires WellFormed(f)
    ensures r == Reconstruct(h, swap, f)
  {
    var digits := DigitsOf(h, swap);
    if digits.Err? {
      return Err(digits.error);
    }
    var i := HexValue(digits.value);
    var b := ZeroPad(BinDigits(i), f.width);
    var exponent := BinValue(b[1..1 + f.expBits]);
    var mval := SumFraction(b[1 + f.expBits..]);
    if exponent - f.bias >= FloatExpLimit && '1' in b[1 + f.expBits..] {
      // the integer power of two times the float `mval`
      return Err(OverflowError);
    }
    r := Ok(Combine(b[0] != '0', exponent, mval, f));
  }

  /** `hextofloat(h, swap)`. */
  method HexToFloat(h: Arg, swap: bool) returns (r: Result<real>)
    ensures r == Reconstruct(h, swap, Binary32)
  {
    r := ReconstructValue(h, swap, Binary32);
  }

  /** `hextodouble(h, swap)`. */
  method HexToDouble(h: Arg, swap: bool) returns (r: Result<real>)
    ensures r == Reconstruct(h, swap, Binary64)
  {
    r := ReconstructValue(h, swap, Binary64);
  }
}

module Ieee754Facts {

  import opened Wrappers
  import opened PyText
  import opened PyInt
  import opened Ieee754

  /** The sign field: the top bit of a `width`-bit pattern. */
  function SignField(i: nat, f: Format): nat
    requires WellFormed(f)
  {
    Shr(i, f.width - 1)
  }

  /** The biased exponent field: the `expBits` bits below the sign. */
  function ExponentField(i: nat, f: Format): nat
    requires WellFormed(f)
  {
    Shr(i, FractionBits(f)) % Pow2(f.expBits)
  }

  /** The fraction field: the low `width - 1 - expBits` bits. */
  function FractionField(i: nat, f: Format): nat
    requires WellFormed(f)
  {
    i % Pow2(FractionBits(f))
  }

  /** `(-1) ** s * 2 ** (e - bias) * (1 + frac / 2 ** m)` over the three fields. */
  function FieldsValue(i: nat, f: Format): real
    requires WellFormed(f)
  {
    Combine(SignField(i, f) == 1, ExponentField(i, f),
            1.0 + FractionField(i, f) as real / Pow2(FractionBits(f)) as real, f)
  }

  lemma Pow2Monotonic(a: nat, b: nat)
    requires a <= b
    ensures Pow2(a) <= Pow2(b)
  {
    Pow2Add(a, b - a);
    MulBounds(Pow2(a), Pow2(b - a));
  }

  lemma DivBelowTwo(n: nat, p: nat)
    requires p > 0 && n < 2 * p
    ensures n / p < 2
  {
  }

  lemma SignOfPattern(i: nat, f: Format)
    requires WellFormed(f) && i < Pow2(f.width)
    ensures SignField(i, f) < 2
    ensures Msb(i, f.width)[0] != '0' <==> SignField(i, f) == 1
  {
    var w := f.width;
    var s := Shr(i, w - 1);
    assert s < 2 by {
      DivBelowTwo(i, Pow2(w - 1));
    }
    MsbAt(i, w, 0);
    assert s % 2 == s;
  }

  lemma ExponentOfPattern(i: nat, f: Format)
    requires WellFormed(f)
    ensures BinValue(Msb(i, f.width)[1..1 + f.expBits]) == ExponentField(i, f)
  {
    MsbSlice(i, f.width, 1, 1 + f.expBits);
    MsbValue(Shr(i, FractionBits(f)), f.expBits);
  }

  lemma FractionOfPattern(i: nat, f: Format)
    requires WellFormed(f)
    ensures BinValue(Msb(i, f.width)[1 + f.expBits..]) == FractionField(i, f)
  {
    var b := Msb(i, f.width);
    MsbSlice(i, f.width, 1 + f.expBits, f.width);
    assert b[1 + f.expBits..] == b[1 + f.expBits..f.width];
    assert Shr(i, 0) == i;
    MsbValue(i, FractionBits(f));
  }

  /**
   * For a pattern of at most `width` bits, the value is sign, exponent and
   * fraction read from the usual IEEE 754 bit positions:
   * `(-1) ** s * 2 ** (e - bias) * (1 + frac / 2 ** m)`, unless the
   * exponent reaches `bias + 1024` with a non-zero fraction, which raises.
   */
  lemma PatternValue(i: nat, f: Format)
    requires WellFormed(f) && i < Pow2(f.width)
    ensures SignField(i, f) < 2
    ensures Overflows(i, f) <==> ExponentField(i, f) - f.bias >= FloatExpLimit && FractionField(i, f) > 0
    ensures FromPattern(i, f) ==
      if Overflows(i, f) then Err(OverflowError) else Ok(FieldsValue(i, f))
  {
    PaddedBinDigits(i, f.width);
    SignOfPattern(i, f);
    ExponentOfPattern(i, f);
    FractionOfPattern(i, f);
    BinValuePositive(Msb(i, f.width)[1 + f.expBits..]);
  }

  /** Whatever the argument, a format whose largest exponent stays below `bias + 1024` never raises OverflowError. */
  lemma NoOverflowBelow(i: nat, f: Format)
    requires WellFormed(f) && Pow2(f.expBits) <= f.bias + FloatExpLimit
    ensures !Overflows(i, f)
  {
    var b := ZeroPad(BinDigits(i), f.width);
    var e := b[1..1 + f.expBits];
    assert |e| == f.expBits;
    assert BinValue(e) < Pow2(f.expBits);
  }

  /** `hextofloat` never raises OverflowError: its exponent is at most `255 - 127`. */
  lemma SingleNeverOverflows(i: nat)
    ensures !Overflows(i, Binary32)
  {
    assert Pow2(8) == 256;
    NoOverflowBelow(i, Binary32);
  }

  /** `hextodouble` of a 64-bit pattern raises exactly for the all-ones exponent with a non-zero fraction. */
  lemma DoubleOverflows(i: nat)
    requires i < Pow2(64)
    ensures Overflows(i, Binary64) <==>
      ExponentField(i, Binary64) == 2047 && FractionField(i, Binary64) > 0
  {
    PatternValue(i, Binary64);
    assert Pow2(11) == 2048;
  }

  /** Digits given without prefix and without swap reach `int(h, 16)` unchanged. */
  lemma PlainDigits(d: string, f: Format)
    requires WellFormed(f) && 0 < |d| && AllHex(d)
    ensures Reconstruct(Str(d), false, f) == FromPattern(HexValue(d), f)
  {
    HexPassesThrough(d, false);
  }

  /** Lower-case hex digits without prefix are kept (and regrouped when swapping). */
  lemma HexPassesThrough(d: string, swap: bool)
    requires 0 < |d| && AllHex(d)
    ensures Digits(Str(d), swap) == Ok(if swap then Concat(Reverse(Normaliser.Chunks2(d))) else d)
  {
    assert !StartsWith(d, "0x") by {
      assert "0x"[1] == 'x';
      assert |d| >= 2 ==> d[..2][1] == d[1] && d[1] != 'x';
    }
    assert ("0x" + d)[2..] == d;
    if swap {
      Normaliser.ChunksConcat(d);
      ConcatLengthReverse(Normaliser.Chunks2(d));
    }
  }

  /** The two together, for at most `width / 4` digits. */
  lemma ReconstructFields(d: string, f: Format)
    requires WellFormed(f) && 0 < |d| && AllHex(d) && 4 * |d| <= f.width
    ensures SignField(HexValue(d), f) < 2
    ensures var i := HexValue(d);
      Reconstruct(Str(d), false, f) ==
        if ExponentField(i, f) - f.bias >= FloatExpLimit && FractionField(i, f) > 0 then Err(OverflowError)
        else Ok(FieldsValue(i, f))
  {
    var i := HexValue(d);
    PlainDigits(d, f);
    Pow2Monotonic(4 * |d|, f.width);
    PatternValue(i, f);
  }

  /**
   * The error cases, both ways: a non-`str`, a character outside lower-case
   * hex, no digits, or the OverflowError of the final product, which
   * `hextofloat` never raises.
   */
  lemma ReconstructFails(h: Arg, swap: bool, f: Format)
    requires WellFormed(f)
    ensures Reconstruct(h, swap, f).Err? <==>
      h.NonStr? ||
      (var body := if StartsWith(h.s, "0x") then h.s[2..] else h.s;
       !AllHex(body) || |body| == 0) ||
      (Digits(h, swap).Ok? && Overflows(HexValue(Digits(h, swap).value), f))
    ensures Reconstruct(h, swap, f) == Err(OverflowError) <==>
      Digits(h, swap).Ok? && Overflows(HexValue(Digits(h, swap).value), f)
    ensures h.NonStr? ==> Reconstruct(h, swap, f) == Err(TypeError)
    ensures h.Str? ==> Reconstruct(h, swap, f) != Err(TypeError)
    ensures f == Binary32 ==> Reconstruct(h, swap, f) != Err(OverflowError)
  {
    if h.Str? {
      var s := h.s;
      var body := if StartsWith(s, "0x") then s[2..] else s;
      var prefixed := if StartsWith(s, "0x") then s else "0x" + s;
      assert prefixed[2..] == body;
      if swap && AllHex(body) {
        var chunks := Normaliser.Chunks2(body);
        Normaliser.ChunksConcat(body);
        ConcatLengthReverse(chunks);
      }
      if f == Binary32 && Digits(h, swap).Ok? {
        SingleNeverOverflows(HexValue(Digits(h, swap).value));
      }
    }
  }

  lemma {:induction false} ConcatLengthReverse(parts: seq<string>)
    ensures |Concat(Reverse(parts))| == |Concat(parts)|
    decreases |parts|
  {
    if |parts| > 0 {
      var init := parts[..|parts| - 1];
      assert Reverse(parts) == [parts[|parts| - 1]] + Reverse(init);
      ConcatLengthReverse(init);
      ConcatAppend([parts[|parts| - 1]], Reverse(init));
      assert Concat([parts[|parts| - 1]]) == Concat([]) + parts[|parts| - 1];
    }
  }

  /**
   * `swap=True` on the bytes in wire order is the same as no swap on the bytes
   * reversed: the form in which the byte cursor hands little-endian values over.
   */
  lemma SwapReversesBytes(ts: seq<string>, f: Format)
    requires WellFormed(f) && |ts| > 0
    requires forall k :: 0 <= k < |ts| ==> Normaliser.IsByteToken(ts[k])
    ensures Reconstruct(Str(Concat(ts)), true, f) == Reconstruct(Str(Concat(Reverse(ts))), false, f)
  {
    var rs := Reverse(ts);
    ConcatHex(ts);
    ConcatHex(rs);
    Normaliser.ChunksOfPairs(ts);
    HexPassesThrough(Concat(ts), true);
    HexPassesThrough(Concat(rs), false);
  }

  /** One more digit on the right. */
  lemma HexSnoc(s: string, c: char)
    requires AllHexAnyCase(s) && IsHexAnyCase(c)
    ensures AllHexAnyCase(s + [c])
    ensures HexValue(s + [c]) == HexValue(s) * 16 + HexDigitValue(c)
  {
    assert (s + [c])[..|s|] == s;
  }

  /**
   * Sign, exponent and fraction written into their bit positions are read
   * back by the three field functions.
   */
  lemma FieldsCompose(s: nat, e: nat, frac: nat, f: Format)
    requires WellFormed(f) && s < 2 && e < Pow2(f.expBits) && frac < Pow2(FractionBits(f))
    ensures var i := Pow2(FractionBits(f)) * (s * Pow2(f.expBits) + e) + frac;
      SignField(i, f) == s && ExponentField(i, f) == e && FractionField(i, f) == frac
  {
    var m := FractionBits(f);
    var q := s * Pow2(f.expBits) + e;
    var i := Pow2(m) * q + frac;
    DivUnique(i, Pow2(m), q, frac);
    DivUnique(q, Pow2(f.expBits), s, e);
    ShrShr(i, m, f.expBits);
    assert f.width - 1 == m + f.expBits;
  }

  lemma FieldsOfOne()
    ensures FieldsValue(0x3f800000, Binary32) == 1.0
  {
    Pow2Values();
    FieldsCompose(0, 127, 0, Binary32);
    assert 0x3f800000 == Pow2(23) * (0 * Pow2(8) + 127) + 0;
  }

  lemma HexOfOne()
    ensures HexValue("3f800000") == 0x3f800000
  {
    HexSnoc("", '3');
    assert "" + ['3'] == "3";
    HexSnoc("3", 'f');
    assert "3" + ['f'] == "3f";
    HexSnoc("3f", '8');
    assert "3f" + ['8'] == "3f8";
    HexSnoc("3f8", '0');
    assert "3f8" + ['0'] == "3f80";
    HexSnoc("3f80", '0');
    assert "3f80" + ['0'] == "3f800";
    HexSnoc("3f800", '0');
    assert "3f800" + ['0'] == "3f8000";
    HexSnoc("3f8000", '0');
    assert "3f8000" + ['0'] == "3f80000";
    HexSnoc("3f80000", '0');
    assert "3f80000" + ['0'] == "3f800000";
  }

  lemma FieldsOfPi()
    ensures FieldsValue(0x40490fdb, Binary32) == 13176795.0 / 4194304.0
  {
    Pow2Values();
    FieldsCompose(0, 128, 0x490fdb, Binary32);
    assert 0x40490fdb == Pow2(23) * (0 * Pow2(8) + 128) + 0x490fdb;
    assert Pow2Real(1) == 2.0;
  }

  lemma HexOfPi()
    ensures HexValue("40490fdb") == 0x40490fdb
  {
    HexSnoc("", '4');
    assert "" + ['4'] == "4";
    HexSnoc("4", '0');
    assert "4" + ['0'] == "40";
    HexSnoc("40", '4');
    assert "40" + ['4'] == "404";
    HexSnoc("404", '9');
    assert "404" + ['9'] == "4049";
    HexSnoc("4049", '0');
    assert "4049" + ['0'] == "40490";
    HexSnoc("40490", 'f');
    assert "40490" + ['f'] == "40490f";
    HexSnoc("40490f", 'd');
    assert "40490f" + ['d'] == "40490fd";
    HexSnoc("40490fd", 'b');
    assert "40490fd" + ['b'] == "40490fdb";
  }

  lemma FieldsOfMinusOne()
    ensures FieldsValue(0xbf800000, Binary32) == -1.0
  {
    Pow2Values();
    FieldsCompose(1, 127, 0, Binary32);
    assert 0xbf800000 == Pow2(23) * (1 * Pow2(8) + 127) + 0;
  }

  lemma HexOfMinusOne()
    ensures HexValue("bf800000") == 0xbf800000
  {
    HexSnoc("", 'b');
    assert "" + ['b'] == "b";
    HexSnoc("b", 'f');
    assert "b" + ['f'] == "bf";
    HexSnoc("bf", '8');
    assert "bf" + ['8'] == "bf8";
    HexSnoc("bf8", '0');
    assert "bf8" + ['0'] == "bf80";
    HexSnoc("bf80", '0');
    assert "bf80" + ['0'] == "bf800";
    HexSnoc("bf800", '0');
    assert "bf800" + ['0'] == "bf8000";
    HexSnoc("bf8000", '0');
    assert "bf8000" + ['0'] == "bf80000";
    HexSnoc("bf80000", '0');
    assert "bf80000" + ['0'] == "bf800000";
  }

  lemma FieldsOfZero()
    ensures FieldsValue(0x00000000, Binary32) == 1.0 / Pow2(127) as real
  {
    Pow2Values();
    FieldsCompose(0, 0, 0, Binary32);
    assert 0 == Pow2(23) * (0 * Pow2(8) + 0) + 0;
  }

  lemma HexOfZero()
    ensures HexValue("00000000") == 0x00000000
  {
    HexSnoc("", '0');
    assert "" + ['0'] == "0";
    HexSnoc("0", '0');
    assert "0" + ['0'] == "00";
    HexSnoc("00", '0');
    assert "00" + ['0'] == "000";
    HexSnoc("000", '0');
    assert "000" + ['0'] == "0000";
    HexSnoc("0000", '0');
    assert "0000" + ['0'] == "00000";
    HexSnoc("00000", '0');
    assert "00000" + ['0'] == "000000";
    HexSnoc("000000", '0');
    assert "000000" + ['0'] == "0000000";
    HexSnoc("0000000", '0');
    assert "0000000" + ['0'] == "00000000";
  }

  lemma FieldsOfDoubleOne()
    ensures FractionField(0x3ff0000000000000, Binary64) == 0
    ensures FieldsValue(0x3ff0000000000000, Binary64) == 1.0
  {
    Pow2Values();
    FieldsCompose(0, 1023, 0, Binary64);
    assert 0x3ff0000000000000 == Pow2(52) * (0 * Pow2(11) + 1023) + 0;
  }

  lemma HexOfDoubleHigh()
    ensures HexValue("3ff00000") == 0x3ff00000
  {
    HexSnoc("", '3');
    assert "" + ['3'] == "3";
    HexSnoc("3", 'f');
    assert "3" + ['f'] == "3f";
    HexSnoc("3f", 'f');
    assert "3f" + ['f'] == "3ff";
    HexSnoc("3ff", '0');
    assert "3ff" + ['0'] == "3ff0";
    HexSnoc("3ff0", '0');
    assert "3ff0" + ['0'] == "3ff00";
    HexSnoc("3ff00", '0');
    assert "3ff00" + ['0'] == "3ff000";
    HexSnoc("3ff000", '0');
    assert "3ff000" + ['0'] == "3ff0000";
    HexSnoc("3ff0000", '0');
    assert "3ff0000" + ['0'] == "3ff00000";
  }

  lemma HexOfDoubleOne()
    ensures HexValue("3ff0000000000000") == 0x3ff0000000000000
  {
    HexOfDoubleHigh();
    HexOfZero();
    HexValueAppend("3ff00000", "00000000");
    assert "3ff00000" + "00000000" == "3ff0000000000000";
    Pow2Values();
  }


  lemma HexOfDoubleNaNHigh()
    ensures HexValue("7ff80000") == 0x7ff80000
  {
    HexSnoc("", '7');
    assert "" + ['7'] == "7";
    HexSnoc("7", 'f');
    assert "7" + ['f'] == "7f";
    HexSnoc("7f", 'f');
    assert "7f" + ['f'] == "7ff";
    HexSnoc("7ff", '8');
    assert "7ff" + ['8'] == "7ff8";
    HexSnoc("7ff8", '0');
    assert "7ff8" + ['0'] == "7ff80";
    HexSnoc("7ff80", '0');
    assert "7ff80" + ['0'] == "7ff800";
    HexSnoc("7ff800", '0');
    assert "7ff800" + ['0'] == "7ff8000";
    HexSnoc("7ff8000", '0');
    assert "7ff8000" + ['0'] == "7ff80000";
  }

  lemma HexOfDoubleInfHigh()
    ensures HexValue("7ff00000") == 0x7ff00000
  {
    HexSnoc("", '7');
    assert "" + ['7'] == "7";
    HexSnoc("7", 'f');
    assert "7" + ['f'] == "7f";
    HexSnoc("7f", 'f');
    assert "7f" + ['f'] == "7ff";
    HexSnoc("7ff", '0');
    assert "7ff" + ['0'] == "7ff0";
    HexSnoc("7ff0", '0');
    assert "7ff0" + ['0'] == "7ff00";
    HexSnoc("7ff00", '0');
    assert "7ff00" + ['0'] == "7ff000";
    HexSnoc("7ff000", '0');
    assert "7ff000" + ['0'] == "7ff0000";
    HexSnoc("7ff0000", '0');
    assert "7ff0000" + ['0'] == "7ff00000";
  }

  lemma HexOfDoubleNaN()
    ensures HexValue("7ff8000000000000") == 0x7ff8000000000000
  {
    HexOfDoubleNaNHigh();
    HexOfZero();
    HexValueAppend("7ff80000", "00000000");
    assert "7ff80000" + "00000000" == "7ff8000000000000";
    Pow2Values();
  }

  lemma HexOfDoubleInf()
    ensures HexValue("7ff0000000000000") == 0x7ff0000000000000
  {
    HexOfDoubleInfHigh();
    HexOfZero();
    HexValueAppend("7ff00000", "00000000");
    assert "7ff00000" + "00000000" == "7ff0000000000000";
    Pow2Values();
  }

  lemma FieldsOfDoubleNaN()
    ensures ExponentField(0x7ff8000000000000, Binary64) == 2047
    ensures FractionField(0x7ff8000000000000, Binary64) == 0x8_0000_0000_0000
  {
    Pow2Values();
    FieldsCompose(0, 2047, 0x8_0000_0000_0000, Binary64);
    assert 0x7ff8000000000000 == Pow2(52) * (0 * Pow2(11) + 2047) + 0x8_0000_0000_0000;
  }

  lemma FieldsOfDoubleInf()
    ensures ExponentField(0x7ff0000000000000, Binary64) == 2047
    ensures FractionField(0x7ff0000000000000, Binary64) == 0
  {
    Pow2Values();
    FieldsCompose(0, 2047, 0, Binary64);
    assert 0x7ff0000000000000 == Pow2(52) * (0 * Pow2(11) + 2047) + 0;
  }

  /** `hextofloat('3f800000') == 1.0`. */
  lemma SingleOne()
    ensures Reconstruct(Str("3f800000"), false, Binary32) == Ok(1.0)
  {
    HexOfOne();
    ReconstructFields("3f800000", Binary32);
    FieldsOfOne();
  }

  /** `hextofloat('40490fdb')`, the binary32 value nearest to pi. */
  lemma SinglePi()
    ensures Reconstruct(Str("40490fdb"), false, Binary32) == Ok(13176795.0 / 4194304.0)
  {
    HexOfPi();
    ReconstructFields("40490fdb", Binary32);
    FieldsOfPi();
  }

  /** `hextofloat('bf800000') == -1.0`: the top bit is the sign. */
  lemma SingleMinusOne()
    ensures Reconstruct(Str("bf800000"), false, Binary32) == Ok(-1.0)
  {
    HexOfMinusOne();
    ReconstructFields("bf800000", Binary32);
    FieldsOfMinusOne();
  }

  /**
   * The all-zero pattern is not read as zero: the implicit leading one is
   * added for every exponent, so the result is `2 ** -127`.
   */
  lemma SingleZeroPattern()
    ensures Reconstruct(Str("00000000"), false, Binary32) == Ok(1.0 / Pow2(127) as real)
  {
    HexOfZero();
    ReconstructFields("00000000", Binary32);
    FieldsOfZero();
  }

  /** `hextodouble('3ff0000000000000') == 1.0`. */
  lemma DoubleOne()
    ensures Reconstruct(Str("3ff0000000000000"), false, Binary64) == Ok(1.0)
  {
    HexOfDoubleOne();
    ReconstructFields("3ff0000000000000", Binary64);
    FieldsOfDoubleOne();
  }

  /**
   * `hextodouble('7ff8000000000000')`, a NaN pattern: `2 ** 1024` is an
   * integer too large for a float, and multiplying it by the float `1.5`
   * raises OverflowError.
   */
  lemma DoubleNaNRaises()
    ensures Reconstruct(Str("7ff8000000000000"), false, Binary64) == Err(OverflowError)
  {
    HexOfDoubleNaN();
    ReconstructFields("7ff8000000000000", Binary64);
    FieldsOfDoubleNaN();
  }

  /**
   * `hextodouble('7ff0000000000000')`, the infinity pattern, does not raise:
   * with no fraction bit set `mval` stays the integer 1, and no integer is
   * converted to a float.
   */
  lemma DoubleInfinityPattern()
    ensures Reconstruct(Str("7ff0000000000000"), false, Binary64).Ok?
  {
    HexOfDoubleInf();
    ReconstructFields("7ff0000000000000", Binary64);
    FieldsOfDoubleInf();
  }

  /** Upper-case digits are refused, unlike `int(h, 16)` alone. */
  lemma UpperCaseRefused(swap: bool, f: Format)
    requires WellFormed(f)
    ensures Reconstruct(Str("3F800000"), swap, f) == Err(ValueError)
  {
    assert !IsHexDigit("3F800000"[1]);
  }
}
