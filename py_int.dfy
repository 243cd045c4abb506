/**
 * Python's integer parsing (`int(s, 16)`, `int(s, 2)`) and binary rendering
 * (`bin(n)`, `str.zfill`), with the arithmetic facts that connect the digit
 * strings to the numbers they denote.
 */
module PyInt {

  import opened Wrappers
  import opened PyText

  function Pow2(e: nat): (r: nat)
    ensures r >= 1
  {
    if e == 0 then 1 else 2 * Pow2(e - 1)
  }

  lemma {:induction false} Pow2Add(a: nat, b: nat)
    ensures Pow2(a + b) == Pow2(a) * Pow2(b)
    decreases a
  {
    if a > 0 {
      Pow2Add(a - 1, b);
    }
  }

  /** The powers the formats and field widths use. */
  lemma Pow2Values()
    ensures Pow2(4) == 16 && Pow2(7) == 0x80 && Pow2(8) == 0x100
    ensures Pow2(11) == 0x800 && Pow2(15) == 0x8000 && Pow2(16) == 0x1_0000
    ensures Pow2(23) == 0x80_0000 && Pow2(31) == 0x8000_0000 && Pow2(32) == 0x1_0000_0000
    ensures Pow2(52) == 0x10_0000_0000_0000 && Pow2(63) == 0x8000_0000_0000_0000
    ensures Pow2(64) == 0x1_0000_0000_0000_0000
  {
    assert Pow2(4) == 16 by {
      assert Pow2(2) == 4;
    }
    assert Pow2(7) == 0x80 by {
      Pow2Add(4, 3);
    }
    assert Pow2(8) == 0x100 by {
      Pow2Add(4, 4);
    }
    Pow2Add(8, 3);
    Pow2Add(8, 7);
    Pow2Add(8, 8);
    Pow2Add(16, 7);
    Pow2Add(16, 15);
    Pow2Add(16, 16);
    Pow2Add(32, 20);
    Pow2Add(16, 4);
    Pow2Add(32, 31);
    Pow2Add(32, 32);
  }

  lemma MulBounds(d: int, k: int)
    requires d > 0
    ensures k >= 1 ==> d * k >= d
    ensures k <= -1 ==> d * k <= -d
  {
  }

  /** `x` followed by `y` (a number of `p` values), then one more hex digit `d`. */
  lemma ShiftDigit(x: int, p: int, y: int, d: int, xy: int, p16: int)
    requires xy == x * p + y && p16 == p * 16
    ensures xy * 16 + d == x * p16 + (y * 16 + d)
  {
    assert (x * p + y) * 16 + d == x * (p * 16) + (y * 16 + d);
  }

  lemma Distribute(x: int, y: int, q: int, r: int)
    ensures x * (y * q + r) == (x * y) * q + x * r
  {
  }

  lemma MulLeMono(x: int, a: int, b: int)
    requires x >= 0 && a <= b
    ensures x * a <= x * b
  {
    assert x * b - x * a == x * (b - a);
  }

  lemma DivUnique(n: int, d: int, q: int, r: int)
    requires d > 0 && 0 <= r < d && n == d * q + r
    ensures n / d == q && n % d == r
  {
    var q0, r0 := n / d, n % d;
    assert d * (q - q0) == r0 - r;
    MulBounds(d, q - q0);
  }

  lemma DivDivMul(n: nat, x: nat, y: nat)
    requires x > 0 && y > 0
    ensures n / x / y == n / (x * y)
  {
    var q, r := n / x, n % x;
    var q2, r2 := q / y, q % y;
    DivNonNegative(n, x);
    assert n == x * q + r;
    assert q == y * q2 + r2;
    Distribute(x, y, q2, r2);
    assert n == (x * y) * q2 + (x * r2 + r);
    MulLeMono(x, r2, y - 1);
    Distribute(x, 1, y - 1, 1);
    assert x * r2 + r < x * y;
    DivUnique(n, x * y, q2, x * r2 + r);
  }

  lemma DivNonNegative(n: int, d: int)
    requires n >= 0 && d > 0
    ensures n / d >= 0
  {
    var q, r := n / d, n % d;
    assert n == d * q + r;
    MulBounds(d, q);
  }

  /** `n >> k`. */
  function Shr(n: nat, k: nat): nat {
    DivNonNegative(n, Pow2(k));
    n / Pow2(k)
  }

  lemma ShrShr(n: nat, a: nat, b: nat)
    ensures Shr(Shr(n, a), b) == Shr(n, a + b)
  {
    Pow2Add(a, b);
    DivDivMul(n, Pow2(a), Pow2(b));
  }

  lemma ShrOne(n: nat)
    ensures Shr(n, 1) == n / 2
  {
    assert Pow2(1) == 2;
  }

  // ---------------------------------------------------------------- hexadecimal

  /** A digit `int(s, 16)` accepts: either letter case. */
  predicate IsHexAnyCase(c: char) {
    IsHexDigit(c) || 'A' <= c <= 'F'
  }

  predicate AllHexAnyCase(s: string) {
    forall i :: 0 <= i < |s| ==> IsHexAnyCase(s[i])
  }

  function HexDigitValue(c: char): (v: nat)
    requires IsHexAnyCase(c)
    ensures v < 16
  {
    if '0' <= c <= '9' then c as int - '0' as int
    else if 'a' <= c <= 'f' then c as int - 'a' as int + 10
    else c as int - 'A' as int + 10
  }

  /** The number a string of hex digits denotes, most significant digit first. */
  function HexValue(s: string): (v: nat)
    requires AllHexAnyCase(s)
    ensures v < Pow2(4 * |s|)
    decreases |s|
  {
    if |s| == 0 then 0
    else
      var v := HexValue(s[..|s| - 1]) * 16 + HexDigitValue(s[|s| - 1]);
      Pow2Add(4 * (|s| - 1), 4);
      v
  }

  lemma {:induction false} HexValueAppend(a: string, b: string)
    requires AllHexAnyCase(a) && AllHexAnyCase(b)
    ensures AllHexAnyCase(a + b)
    ensures HexValue(a + b) == HexValue(a) * Pow2(4 * |b|) + HexValue(b)
    decreases |b|
  {
    HexAppend(a, b);
    if |b| == 0 {
      assert a + b == a;
    } else {
      var b', c := b[..|b| - 1], b[|b| - 1];
      assert (a + b)[..|a + b| - 1] == a + b' && (a + b)[|a + b| - 1] == c;
      HexValueAppend(a, b');
      var q := 4 * |b'|;
      assert 4 * |b| == q + 4;
      Pow2Add(q, 4);
      assert Pow2(4) == 16;
      ShiftDigit(HexValue(a), Pow2(q), HexValue(b'), HexDigitValue(c), HexValue(a + b'), Pow2(4 * |b|));
    }
  }

  lemma HexAppend(a: string, b: string)
    requires AllHexAnyCase(a) && AllHexAnyCase(b)
    ensures AllHexAnyCase(a + b)
  {
    forall i | 0 <= i < |a + b|
      ensures IsHexAnyCase((a + b)[i])
    {
      if i >= |a| {
        assert (a + b)[i] == b[i - |a|];
      }
    }
  }

  /**
   * `int(s, 16)`: an optional `0x` prefix, then at least one hex digit of either
   * case; anything else raises ValueError (None here).
   */
  function ParseInt16(s: string): (r: Option<nat>)
    ensures |s| > 0 && AllHexAnyCase(s) ==> r == Some(HexValue(s))
    ensures |s| > 2 && (s[..2] == "0x" || s[..2] == "0X") && AllHexAnyCase(s[2..]) ==> r == Some(HexValue(s[2..]))
    ensures r.Some? ==> exists t :: (s == t || s == "0x" + t || s == "0X" + t) && |t| > 0 && AllHexAnyCase(t) && r.value == HexValue(t)
  {
    var body := if StartsWith(s, "0x") || StartsWith(s, "0X") then s[2..] else s;
    assert StartsWith(s, "0x") ==> s == "0x" + body;
    assert StartsWith(s, "0X") ==> s == "0X" + body;
    if |body| > 0 && AllHexAnyCase(body) then Some(HexValue(body)) else None
  }

  // --------------------------------------------------------------------- binary

  predicate IsBinary(s: string) {
    forall i :: 0 <= i < |s| ==> s[i] == '0' || s[i] == '1'
  }

  function BitChar(b: nat): char
    requires b < 2
  {
    if b == 0 then '0' else '1'
  }

  /** The digits of `bin(n)` after its `0b` prefix (`'0'` for zero). */
  function BinDigits(n: nat): (r: string)
    ensures 1 <= |r| && IsBinary(r)
    decreases n
  {
    if n < 2 then [BitChar(n)] else BinDigits(n / 2) + [BitChar(n % 2)]
  }

  /** `'0' * k`: nothing when `k <= 0`. */
  function Zeros(k: int): (r: string)
    ensures |r| == if k <= 0 then 0 else k
    ensures forall i :: 0 <= i < |r| ==> r[i] == '0'
  {
    if k <= 0 then [] else seq(k, _ => '0')
  }

  /** `'0' * (w - len(s)) + s`, which is also `s.zfill(w)` for an unsigned `s`. */
  function ZeroPad(s: string, w: int): (r: string)
    ensures |r| == if |s| < w then w else |s|
  {
    Zeros(w - |s|) + s
  }

  /** The `w` low bits of `n`, most significant first. */
  function Msb(n: nat, w: nat): (r: string)
    ensures |r| == w && IsBinary(r)
  {
    if w == 0 then [] else Msb(n / 2, w - 1) + [BitChar(n % 2)]
  }

  /** The number a string of binary digits denotes, most significant digit first. */
  function BinValue(s: string): (v: nat)
    requires IsBinary(s)
    ensures v < Pow2(|s|)
    decreases |s|
  {
    if |s| == 0 then 0 else BinValue(s[..|s| - 1]) * 2 + (if s[|s| - 1] == '1' then 1 else 0)
  }

  /** A binary numeral is non-zero exactly when it has a `1` digit. */
  lemma {:induction false} BinValuePositive(s: string)
    requires IsBinary(s)
    ensures BinValue(s) > 0 <==> '1' in s
    decreases |s|
  {
    if |s| > 0 {
      var init := s[..|s| - 1];
      BinValuePositive(init);
      assert s == init + [s[|s| - 1]];
      assert '1' in s <==> '1' in init || s[|s| - 1] == '1';
    }
  }

  lemma ModDouble(n: nat, p: nat)
    requires p > 0
    ensures (n / 2 % p) * 2 + n % 2 == n % (2 * p)
  {
    var q, b := n / 2, n % 2;
    var q2, r2 := q / p, q % p;
    assert n == (2 * p) * q2 + (2 * r2 + b);
    DivUnique(n, 2 * p, q2, 2 * r2 + b);
  }

  /** Reading back the `w` bits of `n` gives `n` modulo `2^w`. */
  lemma {:induction false} MsbValue(n: nat, w: nat)
    ensures BinValue(Msb(n, w)) == n % Pow2(w)
  {
    if w > 0 {
      var s := Msb(n, w);
      assert s[..|s| - 1] == Msb(n / 2, w - 1);
      MsbValue(n / 2, w - 1);
      ModDouble(n, Pow2(w - 1));
    }
  }

  lemma {:induction false} MsbOfZero(w: nat)
    ensures Msb(0, w) == Zeros(w)
  {
    if w > 0 {
      MsbOfZero(w - 1);
      assert Msb(0, w) == Zeros(w - 1) + ['0'];
    }
  }

  /** `bin(n)[2:]` padded with zeros to `w` digits is the `w`-bit rendering of `n`. */
  lemma {:induction false} PaddedBinDigits(n: nat, w: nat)
    requires 1 <= w && n < Pow2(w)
    ensures |BinDigits(n)| <= w
    ensures ZeroPad(BinDigits(n), w) == Msb(n, w)
    decreases n
  {
    if n < 2 {
      MsbOfZero(w - 1);
      assert Msb(n, w) == Msb(0, w - 1) + [BitChar(n)];
    } else {
      assert Pow2(1) == 2;
      assert w >= 2;
      assert n / 2 < Pow2(w - 1);
      PaddedBinDigits(n / 2, w - 1);
      var d := BinDigits(n / 2);
      assert ZeroPad(BinDigits(n), w) == (Zeros(w - 1 - |d|) + d) + [BitChar(n % 2)];
    }
  }

  /** `bin(n)` of a number at least `2 ** m` has more than `m` digits. */
  lemma {:induction false} BinDigitsLong(n: nat, m: nat)
    requires Pow2(m) <= n
    ensures |BinDigits(n)| > m
    decreases m
  {
    if m > 0 {
      assert Pow2(m - 1) <= n / 2;
      BinDigitsLong(n / 2, m - 1);
    }
  }

  /** The bits of `n` split into a high part and the `b` low bits. */
  lemma {:induction false} MsbSplit(n: nat, a: nat, b: nat)
    ensures Msb(n, a + b) == Msb(Shr(n, b), a) + Msb(n, b)
    decreases b
  {
    if b == 0 {
      assert Shr(n, 0) == n;
    } else {
      var m, c := n / 2, [BitChar(n % 2)];
      MsbSplit(m, a, b - 1);
      ShrOne(n);
      ShrShr(n, 1, b - 1);
      calc {
        Msb(n, a + b);
        Msb(m, a + b - 1) + c;
        (Msb(Shr(n, b), a) + Msb(m, b - 1)) + c;
        Msb(Shr(n, b), a) + (Msb(m, b - 1) + c);
        Msb(Shr(n, b), a) + Msb(n, b);
      }
    }
  }

  /** Any window of the `w`-bit rendering is itself the rendering of a shifted value. */
  lemma MsbSlice(n: nat, w: nat, i: nat, j: nat)
    requires i <= j <= w
    ensures Msb(n, w)[i..j] == Msb(Shr(n, w - j), j - i)
  {
    var m := Shr(n, w - j);
    MsbSplit(n, j, w - j);
    assert w == j + (w - j);
    var whole, high := Msb(n, w), Msb(m, j);
    assert whole == high + Msb(n, w - j);
    MsbSplit(m, i, j - i);
    assert high == Msb(Shr(m, j - i), i) + Msb(m, j - i);
    assert whole[i..j] == high[i..];
  }

  /** Character `k` of the `w`-bit rendering is bit `w - 1 - k` of `n`. */
  lemma MsbAt(n: nat, w: nat, k: nat)
    requires k < w
    ensures Msb(n, w)[k] == BitChar(Shr(n, w - 1 - k) % 2)
  {
    MsbSlice(n, w, k, k + 1);
    assert Msb(n, w)[k] == Msb(n, w)[k..k + 1][0];
  }

  /**
   * `int(s, 2)` on strings over `0`, `1` and `b` (what slicing `bin()` output
   * yields): an optional `0b` prefix, then at least one binary digit.
   */
  function ParseInt2(s: string): (r: Option<nat>)
    ensures |s| > 0 && IsBinary(s) ==> r == Some(BinValue(s))
  {
    var body := if StartsWith(s, "0b") || StartsWith(s, "0B") then s[2..] else s;
    assert IsBinary(s) && |s| >= 2 ==> s[1] != 'b' && s[1] != 'B';
    if |body| > 0 && IsBinary(body) then Some(BinValue(body)) else None
  }
}
