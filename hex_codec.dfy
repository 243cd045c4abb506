/**
 * The byte/hex conversions the image reader relies on: `binascii.unhexlify`,
 * `binascii.hexlify(...).decode('utf-8')`, the nested helper `_swaphex` built
 * from them, and `bytes.fromhex`. Bytes are naturals below 256.
 */
module HexCodec {

  import opened Wrappers
  import opened PyText
  import opened PyInt

  type Byte = b: nat | b < 256

  /** The lower-case digit of a value below 16. */
  function DigitChar(d: nat): (c: char)
    requires d < 16
    ensures IsHexDigit(c) && IsHexAnyCase(c) && HexDigitValue(c) == d
  {
    if d < 10 then ('0' as int + d) as char else ('a' as int + d - 10) as char
  }

  /** The two hex digits of one byte, which `int(_, 16)` reads back as the byte. */
  function HexPair(b: Byte): (r: string)
    ensures |r| == 2 && AllHex(r)
    ensures HexValue(r) == b
  {
    var r := [DigitChar(b / 16), DigitChar(b % 16)];
    assert r[..1][..0] == [] && r[..1] == [r[0]];
    r
  }

  /** `binascii.hexlify(bs).decode('utf-8')`: two lower-case digits per byte. */
  function Hexlify(bs: seq<Byte>): (r: string)
    ensures |r| == 2 * |bs| && AllHex(r)
    decreases |bs|
  {
    if |bs| == 0 then [] else HexPair(bs[0]) + Hexlify(bs[1..])
  }

  /**
   * `binascii.unhexlify(s)`: an odd length raises, then every pair of digits of
   * either case is one byte; any other character raises. `binascii.Error` is a
   * subclass of ValueError.
   */
  function Unhexlify(s: string): (r: Result<seq<Byte>>)
    ensures r.Ok? ==> 2 * |r.value| == |s|
  {
    if |s| % 2 == 1 then Err(ValueError) else Pairs(s)
  }

  /** The byte of two digits. */
  function PairByte(hi: char, lo: char): Byte
    requires IsHexAnyCase(hi) && IsHexAnyCase(lo)
  {
    HexDigitValue(hi) * 16 + HexDigitValue(lo)
  }

  /** The pairs of digits of an even-length string, left to right. */
  function Pairs(s: string): (r: Result<seq<Byte>>)
    requires |s| % 2 == 0
    ensures r.Ok? ==> 2 * |r.value| == |s|
    decreases |s|
  {
    if |s| == 0 then Ok([])
    else if !(IsHexAnyCase(s[0]) && IsHexAnyCase(s[1])) then Err(ValueError)
    else
      match Pairs(s[2..])
      case Err(e) => Err(e)
      case Ok(rest) => Ok([PairByte(s[0], s[1])] + rest)
  }

  /** `_swaphex(hexstr)`: the bytes of `hexstr` in reverse order, in lower-case hex. */
  function SwapHex(hexstr: string): (r: Result<string>)
    ensures r.Ok? ==> |r.value| == |hexstr| && AllHex(r.value)
  {
    match Unhexlify(hexstr)
    case Err(e) => Err(e)
    case Ok(bs) => Ok(Hexlify(Reverse(bs)))
  }

  /** The characters `bytes.fromhex` skips between bytes. */
  predicate IsAsciiSpace(c: char) {
    c == ' ' || c == '\t' || c == '\n' || c == '\r' || c == '\U{0b}' || c == '\U{0c}'
  }

  /**
   * `bytes.fromhex(s)`: ASCII whitespace before a byte is skipped, then two
   * digits of either case make the byte; anything else, including a lone last
   * digit, raises ValueError.
   */
  function FromHex(s: string): (r: Result<seq<Byte>>)
    decreases |s|
  {
    if |s| == 0 then Ok([])
    else if IsAsciiSpace(s[0]) then FromHex(s[1..])
    else if |s| >= 2 && IsHexAnyCase(s[0]) && IsHexAnyCase(s[1]) then
      match FromHex(s[2..])
      case Err(e) => Err(e)
      case Ok(rest) => Ok([PairByte(s[0], s[1])] + rest)
    else Err(ValueError)
  }

  /** The number whose base-256 digits, least significant first, are `bs`. */
  function LittleEndian(bs: seq<Byte>): (v: nat)
    decreases |bs|
  {
    if |bs| == 0 then 0 else bs[0] + 256 * LittleEndian(bs[1..])
  }

  // ------------------------------------------------------------------ lemmas

  /** `unhexlify` succeeds exactly on text of even length made of hex digits. */
  lemma UnhexlifyOk(s: string)
    ensures Unhexlify(s).Ok? <==> |s| % 2 == 0 && AllHexAnyCase(s)
  {
    if |s| % 2 == 0 {
      PairsOk(s);
    }
  }

  lemma {:induction false} PairsOk(s: string)
    requires |s| % 2 == 0
    ensures Pairs(s).Ok? <==> AllHexAnyCase(s)
    decreases |s|
  {
    if |s| > 0 {
      PairsOk(s[2..]);
      if AllHexAnyCase(s) {
        assert forall i :: 0 <= i < |s| - 2 ==> s[2..][i] == s[i + 2];
      }
      if IsHexAnyCase(s[0]) && IsHexAnyCase(s[1]) && AllHexAnyCase(s[2..]) {
        forall i | 0 <= i < |s|
          ensures IsHexAnyCase(s[i])
        {
          if i >= 2 {
            assert s[i] == s[2..][i - 2];
          }
        }
      }
    }
  }

  lemma HexPairValue(b: Byte)
    ensures Unhexlify(HexPair(b)) == Ok([b])
    ensures AllHexAnyCase(HexPair(b)) && HexValue(HexPair(b)) == b
  {
    var p := HexPair(b);
    assert p[2..] == [];
    assert Pairs(p[2..]) == Ok([]);
    assert [PairByte(p[0], p[1])] + [] == [b];
    assert Pairs(p) == Ok([b]);
    assert p[..1][..0] == [];
    assert HexValue(p[..1]) == b / 16;
    assert HexValue(p) == HexValue(p[..1]) * 16 + b % 16;
  }

  /** Hexlify then unhexlify gives the bytes back. */
  lemma {:induction false} UnhexlifyHexlify(bs: seq<Byte>)
    ensures Unhexlify(Hexlify(bs)) == Ok(bs)
    decreases |bs|
  {
    if |bs| > 0 {
      UnhexlifyHexlify(bs[1..]);
      var s := Hexlify(bs);
      assert s[2..] == Hexlify(bs[1..]);
      assert s[0] == DigitChar(bs[0] / 16) && s[1] == DigitChar(bs[0] % 16);
      assert PairByte(s[0], s[1]) == bs[0];
      assert Pairs(s) == Ok([bs[0]] + bs[1..]);
      assert [bs[0]] + bs[1..] == bs;
    }
  }

  /** Unhexlify then hexlify gives the text back, lower-cased. */
  lemma HexlifyUnhexlify(s: string)
    requires Unhexlify(s).Ok?
    ensures Hexlify(Unhexlify(s).value) == Lower(s)
  {
    HexlifyPairs(s);
  }

  lemma {:induction false} HexlifyPairs(s: string)
    requires |s| % 2 == 0 && Pairs(s).Ok?
    ensures Hexlify(Pairs(s).value) == Lower(s)
    decreases |s|
  {
    if |s| > 0 {
      var rest := PairsHead(s);
      HexlifyPairs(s[2..]);
      HexPairLower(s[0], s[1]);
      assert Hexlify(Pairs(s).value) == HexPair(PairByte(s[0], s[1])) + Hexlify(rest);
      LowerSplit(s);
    }
  }

  /** The first pair of digits is the first byte; the others are the pairs of the rest. */
  lemma PairsHead(s: string) returns (rest: seq<Byte>)
    requires |s| % 2 == 0 && |s| > 0 && Pairs(s).Ok?
    ensures IsHexAnyCase(s[0]) && IsHexAnyCase(s[1])
    ensures Pairs(s[2..]) == Ok(rest)
    ensures Pairs(s).value == [PairByte(s[0], s[1])] + rest
  {
    rest := Pairs(s[2..]).value;
  }

  /** The digits `hexlify` writes for the byte of two digits are those digits, lower-cased. */
  lemma HexPairLower(hi: char, lo: char)
    requires IsHexAnyCase(hi) && IsHexAnyCase(lo)
    ensures HexPair(PairByte(hi, lo)) == [LowerChar(hi), LowerChar(lo)]
  {
    var h, l := HexDigitValue(hi), HexDigitValue(lo);
    assert (h * 16 + l) / 16 == h && (h * 16 + l) % 16 == l;
    LowerDigit(hi);
    LowerDigit(lo);
  }

  lemma LowerSplit(s: string)
    requires |s| >= 2
    ensures Lower(s) == [LowerChar(s[0]), LowerChar(s[1])] + Lower(s[2..])
  {
    assert forall i :: 2 <= i < |s| ==> Lower(s)[i] == Lower(s[2..])[i - 2];
  }

  /** A digit's lower-case form is the digit of its value. */
  lemma LowerDigit(c: char)
    requires IsHexAnyCase(c)
    ensures DigitChar(HexDigitValue(c)) == LowerChar(c)
  {
  }

  lemma HexlifyAppend(a: seq<Byte>, b: seq<Byte>)
    ensures Hexlify(a + b) == Hexlify(a) + Hexlify(b)
    decreases |a|
  {
    if |a| > 0 {
      assert (a + b)[1..] == a[1..] + b;
      HexlifyAppend(a[1..], b);
    } else {
      assert a + b == b;
    }
  }

  /** Swapping twice gives the text back, lower-cased. */
  lemma SwapHexTwice(hexstr: string)
    requires SwapHex(hexstr).Ok?
    ensures SwapHex(SwapHex(hexstr).value) == Ok(Lower(hexstr))
  {
    var bs := Unhexlify(hexstr).value;
    UnhexlifyHexlify(Reverse(bs));
    assert Reverse(Reverse(bs)) == bs;
    HexlifyUnhexlify(hexstr);
  }

  /**
   * `int(_swaphex(hexstr), 16)` is the little-endian number of the bytes of
   * `hexstr`.
   */
  lemma {:induction false} SwapHexValue(hexstr: string)
    requires SwapHex(hexstr).Ok? && |hexstr| > 0
    ensures ParseInt16(SwapHex(hexstr).value) == Some(LittleEndian(Unhexlify(hexstr).value))
  {
    var bs := Unhexlify(hexstr).value;
    ReversedValue(bs);
  }

  lemma {:induction false} ReversedValue(bs: seq<Byte>)
    ensures AllHexAnyCase(Hexlify(Reverse(bs)))
    ensures HexValue(Hexlify(Reverse(bs))) == LittleEndian(bs)
    decreases |bs|
  {
    if |bs| > 0 {
      var rest := bs[1..];
      ReversedValue(rest);
      var h := Hexlify(Reverse(rest));
      assert Reverse(bs) == Reverse(rest) + [bs[0]];
      HexlifyAppend(Reverse(rest), [bs[0]]);
      assert Hexlify([bs[0]]) == HexPair(bs[0]);
      assert Hexlify(Reverse(bs)) == h + HexPair(bs[0]);
      HexSnocByte(h, bs[0]);
    }
  }

  /** One more byte's digits on the right of hex text: its value shifted by a byte. */
  lemma HexSnocByte(h: string, b: Byte)
    requires AllHexAnyCase(h)
    ensures AllHexAnyCase(h + HexPair(b))
    ensures HexValue(h + HexPair(b)) == HexValue(h) * 256 + b
  {
    HexPairValue(b);
    HexValueAppend(h, HexPair(b));
    assert Pow2(8) == 256;
  }

  /** On text without whitespace `bytes.fromhex` and `binascii.unhexlify` agree. */
  lemma FromHexUnhexlify(s: string)
    requires forall i :: 0 <= i < |s| ==> !IsAsciiSpace(s[i])
    ensures FromHex(s) == Unhexlify(s)
  {
    if |s| % 2 == 0 {
      FromHexPairs(s);
    } else {
      FromHexOdd(s);
    }
  }

  lemma {:induction false} FromHexPairs(s: string)
    requires |s| % 2 == 0
    requires forall i :: 0 <= i < |s| ==> !IsAsciiSpace(s[i])
    ensures FromHex(s) == Pairs(s)
    decreases |s|
  {
    if |s| > 0 {
      assert !IsAsciiSpace(s[0]);
      FromHexPairs(s[2..]);
    }
  }

  lemma {:induction false} FromHexOdd(s: string)
    requires |s| % 2 == 1
    requires forall i :: 0 <= i < |s| ==> !IsAsciiSpace(s[i])
    ensures FromHex(s) == Err(ValueError)
    decreases |s|
  {
    assert !IsAsciiSpace(s[0]);
    if |s| > 1 {
      FromHexOdd(s[2..]);
    }
  }

  /** Pieces of even length decode one after the other. */
  lemma UnhexlifyAppend(a: string, b: string)
    requires Unhexlify(a).Ok? && Unhexlify(b).Ok?
    ensures Unhexlify(a + b) == Ok(Unhexlify(a).value + Unhexlify(b).value)
  {
    PairsAppend(a, b, Pairs(a).value, Pairs(b).value);
  }

  lemma {:induction false} PairsAppend(a: string, b: string, ra: seq<Byte>, rb: seq<Byte>)
    requires |a| % 2 == 0 && |b| % 2 == 0 && Pairs(a) == Ok(ra) && Pairs(b) == Ok(rb)
    ensures Pairs(a + b) == Ok(ra + rb)
    decreases |a|
  {
    if |a| == 0 {
      assert a + b == b && ra == [] && ra + rb == rb;
    } else {
      var rest := PairsHead(a);
      var ab, t := a + b, a[2..] + b;
      EvenLengths(|a|, |b|);
      assert |a[2..]| == |a| - 2 && |ab| == |a| + |b| && |t| == |a| + |b| - 2;
      assert Pairs(t) == Ok(rest + rb) by {
        PairsAppend(a[2..], b, rest, rb);
      }
      assert ab[2..] == t && ab[0] == a[0] && ab[1] == a[1];
      PairsCons(ab, rest + rb);
      assert [PairByte(a[0], a[1])] + (rest + rb) == ra + rb;
    }
  }

  lemma EvenLengths(m: int, n: int)
    requires m % 2 == 0 && n % 2 == 0
    ensures (m - 2) % 2 == 0 && (m + n) % 2 == 0 && (m + n - 2) % 2 == 0
  {
  }

  /** Two hex digits in front of text whose pairs are `rest` add their byte in front. */
  lemma PairsCons(s: string, rest: seq<Byte>)
    requires |s| % 2 == 0 && |s| > 0 && IsHexAnyCase(s[0]) && IsHexAnyCase(s[1])
    requires Pairs(s[2..]) == Ok(rest)
    ensures Pairs(s) == Ok([PairByte(s[0], s[1])] + rest)
  {
  }
}
