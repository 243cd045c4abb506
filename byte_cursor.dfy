/**
 * `ParseDownlink._parsebinary`: the byte cursor. The list of byte tokens is
 * read from the front, the bytes of one value taken least significant first,
 * and the tokens read are popped from the list.
 */
module ByteCursor {

  import opened Wrappers
  import opened PyText
  import opened PyInt
  import Ieee754
  import Normaliser

  /** What one read hands back. `Nothing` is the `None` of an unknown type name. */
  datatype Value =
    | Int(i: int)
    | Real(r: real)
    | Text(s: string)
    | Bits(bits: seq<int>)
    | Nothing

  /**
   * The branch a type name selects. `count` is the number of tokens taken
   * (`range(count)` is empty when it is not positive); a bit list is padded
   * to `8 * padBytes` bits, `padBytes` being the caller's `numbytes`.
   */
  datatype Kind =
    | Unsigned(count: int)
    | Signed(count: int)
    | BitList(count: int, padBytes: int)
    | Single
    | Double

  /**
   * The branch for `dtype.lower()`, `None` for a name no branch tests;
   * `numbytes` matters to `uint`, `int` and the `bool` family.
   */
  function KindOf(dtype: string, numbytes: int): Option<Kind> {
    var d := Lower(dtype);
    if d == "uint8" then Some(Unsigned(1))
    else if d == "uint16" then Some(Unsigned(2))
    else if d == "uint32" then Some(Unsigned(4))
    else if d == "uint" then Some(Unsigned(numbytes))
    else if d == "int8" then Some(Signed(1))
    else if d == "int16" then Some(Signed(2))
    else if d == "int32" then Some(Signed(4))
    else if d == "int" then Some(Signed(numbytes))
    else if d == "bool8" then Some(BitList(1, numbytes))
    else if d == "bool16" then Some(BitList(2, numbytes))
    else if d == "bool32" then Some(BitList(4, numbytes))
    else if d == "bool" then Some(BitList(numbytes, numbytes))
    else if d == "single" then Some(Single)
    else if d == "double" then Some(Double)
    else None
  }

  /** `len(range(n))`. */
  function RangeLength(n: int): nat {
    if n < 0 then 0 else n
  }

  /** Number of tokens a kind pops. */
  function Taken(k: Kind): nat {
    match k
    case Unsigned(n) => RangeLength(n)
    case Signed(n) => RangeLength(n)
    case BitList(n, _) => RangeLength(n)
    case Single => 4
    case Double => 8
  }

  /** `int(hexnum, 16)`. */
  function HexInt(hexnum: string): Result<nat> {
    match ParseInt16(hexnum)
    case None => Err(ValueError)
    case Some(v) => Ok(v)
  }

  /**
   * `num - 2 ** (8 * n)` when `num >= 2 ** (8 * n - 1)`. A parsed `hexnum` is
   * never empty, so `n >= 1` whenever the program reaches this test.
   */
  function TwosComplement(num: nat, n: int): int {
    if n >= 1 && num >= Pow2(8 * n - 1) then num - Pow2(8 * n) else num
  }

  /** `[int(char) for char in s[::-1]]` for a string of binary digits. */
  function BitsOf(s: string): (r: seq<int>)
    requires IsBinary(s)
    ensures |r| == |s|
    ensures forall j :: 0 <= j < |r| ==> r[j] == (if s[|s| - 1 - j] == '1' then 1 else 0)
  {
    seq(|s|, j requires 0 <= j < |s| => if s[|s| - 1 - j] == '1' then 1 else 0)
  }

  function FromFloat(r: Result<real>): Result<Value> {
    match r
    case Ok(x) => Ok(Real(x))
    case Err(e) => Err(e)
  }

  /**
   * What a known kind makes of the joined digits `hexnum`: `int(hexnum, 16)`
   * (ValueError when it does not parse), then the two's complement fold, the
   * bit list or the float reconstruction.
   */
  function Interpret(k: Kind, hexnum: string): Result<Value> {
    match k
    case Single => FromFloat(Ieee754.Reconstruct(Ieee754.Str(hexnum), false, Ieee754.Binary32))
    case Double => FromFloat(Ieee754.Reconstruct(Ieee754.Str(hexnum), false, Ieee754.Binary64))
    case Unsigned(_) =>
      (match HexInt(hexnum)
       case Err(e) => Err(e)
       case Ok(v) => Ok(Int(v)))
    case Signed(n) =>
      (match HexInt(hexnum)
       case Err(e) => Err(e)
       case Ok(v) => Ok(Int(TwosComplement(v, n))))
    case BitList(_, pad) =>
      (match HexInt(hexnum)
       case Err(e) => Err(e)
       case Ok(v) => Ok(Bits(BitsOf(ZeroPad(BinDigits(v), 8 * pad)))))
  }

  /**
   * One read as a function of the token list: the value and the list left.
   * An unknown type name changes nothing and yields `None`; too few tokens
   * raise IndexError before anything is popped; otherwise the tokens are
   * popped first and a parse failure is raised afterwards.
   */
  function ReadSpec(tokens: seq<string>, dtype: string, numbytes: int): (Result<Value>, seq<string>) {
    match KindOf(dtype, numbytes)
    case None => (Ok(Nothing), tokens)
    case Some(k) =>
      var n := Taken(k);
      if |tokens| < n then (Err(IndexError), tokens)
      else (Interpret(k, Concat(Reverse(tokens[..n]))), tokens[n..])
  }

  lemma ReverseExtend(ts: seq<string>, j: nat, m: nat)
    requires 0 < j <= m <= |ts|
    ensures Reverse(ts[j - 1..m]) == Reverse(ts[j..m]) + [ts[j - 1]]
  {
  }

  lemma ConcatSnoc(parts: seq<string>, last: string)
    ensures Concat(parts + [last]) == Concat(parts) + last
  {
    assert (parts + [last])[..|parts|] == parts;
  }

  /** The token list `_parsebinary` is handed, mutated in place by each read. */
  class Cursor {
    var tokens: seq<string>

    constructor(tokens: seq<string>)
      ensures this.tokens == tokens
    {
      this.tokens := tokens;
    }

    /** `_parsebinary(data, dtype, numbytes)`. */
    method Read(dtype: string, numbytes: int) returns (r: Result<Value>)
      modifies this
      ensures (r, tokens) == ReadSpec(old(tokens), dtype, numbytes)
    {
      var kind := KindOf(dtype, numbytes);
      if kind.None? {
        return Ok(Nothing);
      }
      var k := kind.value;
      var m := Taken(k);
      // hexnum = ''.join([data[i] for i in reversed(range(m))])
      var hexnum := "";
      var j := m;
      while j > 0
        invariant 0 <= j <= m
        invariant j == m ==> hexnum == ""
        invariant j < m ==> m <= |tokens| && hexnum == Concat(Reverse(tokens[j..m]))
        invariant tokens == old(tokens)
      {
        if j - 1 >= |tokens| {
          return Err(IndexError);
        }
        if j == m {
          assert Reverse(tokens[j - 1..m]) == [tokens[j - 1]];
          ConcatSnoc([], tokens[j - 1]);
        } else {
          ReverseExtend(tokens, j, m);
          ConcatSnoc(Reverse(tokens[j..m]), tokens[j - 1]);
        }
        hexnum := hexnum + tokens[j - 1];
        j := j - 1;
      }
      assert m == 0 ==> tokens[..m] == [] && Reverse(tokens[..m]) == [];
      assert tokens[0..m] == tokens[..m];
      // [data.pop(i) for i in reversed(range(m))]
      ghost var before := tokens;
      j := m;
      while j > 0
        invariant 0 <= j <= m <= |before|
        invariant tokens == before[..j] + before[m..]
      {
        tokens := tokens[..j - 1] + tokens[j..];
        j := j - 1;
      }
      assert before[..0] + before[m..] == before[m..];
      r := Decode(k, hexnum);
    }
  }

  /** The conversion step of a read, with the float conversions done by their own loops. */
  method Decode(k: Kind, hexnum: string) returns (r: Result<Value>)
    ensures r == Interpret(k, hexnum)
  {
    match k
    case Single =>
      var f := Ieee754.HexToFloat(Ieee754.Str(hexnum), false);
      r := FromFloat(f);
    case Double =>
      var f := Ieee754.HexToDouble(Ieee754.Str(hexnum), false);
      r := FromFloat(f);
    case _ =>
      r := Interpret(k, hexnum);
  }
}

module ByteCursorFacts {

  import opened Wrappers
  import opened PyText
  import opened PyInt
  import opened ByteCursor
  import Ieee754
  import Ieee754Facts
  import Normaliser

  predicate AllBytes(ts: seq<string>) {
    forall k :: 0 <= k < |ts| ==> Normaliser.IsByteToken(ts[k])
  }

  /** The little-endian number the byte tokens spell: `ts[0]` is the least significant byte. */
  function LittleEndian(ts: seq<string>): (v: nat)
    requires AllBytes(ts)
    ensures v < Pow2(8 * |ts|)
  {
    if |ts| == 0 then 0
    else
      var rest := LittleEndian(ts[1..]);
      var low := HexValue(ts[0]);
      assert low < Pow2(8) by {
        assert Pow2(4 * |ts[0]|) == Pow2(8);
      }
      LittleEndianStep(low, rest, Pow2(8 * (|ts| - 1)));
      Pow2Add(8, 8 * (|ts| - 1));
      low + Pow2(8) * rest
  }

  lemma LittleEndianStep(low: nat, rest: nat, p: nat)
    requires low < Pow2(8) && rest < p
    ensures low + Pow2(8) * rest < Pow2(8) * p
  {
    MulLeMono(Pow2(8), rest, p - 1);
  }

  /** Joining the tokens in reverse order and reading them as hex gives the little-endian number. */
  lemma {:induction false} ReversedJoin(ts: seq<string>)
    requires AllBytes(ts)
    ensures AllHexAnyCase(Concat(Reverse(ts)))
    ensures HexValue(Concat(Reverse(ts))) == LittleEndian(ts)
    decreases |ts|
  {
    if |ts| == 0 {
      assert Reverse(ts) == [];
    } else {
      var rest := ts[1..];
      assert AllBytes(rest);
      ReversedJoin(rest);
      assert Reverse(ts) == Reverse(rest) + [ts[0]];
      ConcatSnoc(Reverse(rest), ts[0]);
      JoinStep(ts[0], Concat(Reverse(rest)));
      assert LittleEndian(ts) == HexValue(ts[0]) + Pow2(8) * LittleEndian(rest);
    }
  }

  /** One more byte token on the right of a hex join: the join's value shifted by a byte. */
  lemma JoinStep(head: string, join: string)
    requires Normaliser.IsByteToken(head) && AllHexAnyCase(join)
    ensures AllHexAnyCase(join + head)
    ensures HexValue(join + head) == HexValue(head) + Pow2(8) * HexValue(join)
  {
    assert AllHexAnyCase(head) by {
      forall i | 0 <= i < |head|
        ensures IsHexAnyCase(head[i])
      {
        assert IsHexDigit(head[i]);
      }
    }
    HexValueAppend(join, head);
    var a, h, p := HexValue(join), HexValue(head), Pow2(4 * |head|);
    assert p == Pow2(8);
    assert HexValue(join + head) == a * p + h;
    assert a * p + h == h + p * a;
  }

  lemma KindsUsed(numbytes: int)
    ensures KindOf("uint8", numbytes) == Some(Unsigned(1))
    ensures KindOf("uint16", numbytes) == Some(Unsigned(2))
    ensures KindOf("int8", numbytes) == Some(Signed(1))
    ensures KindOf("int16", numbytes) == Some(Signed(2))
    ensures KindOf("bool", numbytes) == Some(BitList(numbytes, numbytes))
    ensures KindOf("single", numbytes) == Some(Single)
  {
    assert Lower("uint8") == "uint8";
    assert Lower("uint16") == "uint16";
    assert Lower("int8") == "int8";
    assert Lower("int16") == "int16";
    assert Lower("bool") == "bool";
    assert Lower("single") == "single";
  }

  /**
   * An unsigned read of `n` byte tokens yields their little-endian number
   * and pops exactly those `n` tokens.
   */
  lemma UnsignedRead(tokens: seq<string>, dtype: string, numbytes: int, n: nat)
    requires KindOf(dtype, numbytes) == Some(Unsigned(n))
    requires 1 <= n <= |tokens| && AllBytes(tokens[..n])
    ensures ReadSpec(tokens, dtype, numbytes) == (Ok(Int(LittleEndian(tokens[..n]))), tokens[n..])
  {
    ReversedJoin(tokens[..n]);
  }

  /**
   * A signed read of `n` byte tokens is the two's complement reading of the
   * little-endian number: in `[-2 ** (8n - 1), 2 ** (8n - 1))` and equal to it
   * modulo `2 ** (8n)`.
   */
  lemma SignedRead(tokens: seq<string>, dtype: string, numbytes: int, n: nat)
    requires KindOf(dtype, numbytes) == Some(Signed(n))
    requires 1 <= n <= |tokens| && AllBytes(tokens[..n])
    ensures var v := LittleEndian(tokens[..n]);
      ReadSpec(tokens, dtype, numbytes) == (Ok(Int(TwosComplement(v, n))), tokens[n..]) &&
      -(Pow2(8 * n - 1) as int) <= TwosComplement(v, n) < Pow2(8 * n - 1) &&
      (TwosComplement(v, n) == v || TwosComplement(v, n) == v - Pow2(8 * n)) &&
      (TwosComplement(v, n) < 0 <==> v >= Pow2(8 * n - 1))
  {
    ReversedJoin(tokens[..n]);
    TwosComplementRange(LittleEndian(tokens[..n]), n);
  }

  lemma TwosComplementRange(v: nat, n: nat)
    requires 1 <= n && v < Pow2(8 * n)
    ensures -(Pow2(8 * n - 1) as int) <= TwosComplement(v, n) < Pow2(8 * n - 1)
    ensures TwosComplement(v, n) == v || TwosComplement(v, n) == v - Pow2(8 * n)
    ensures TwosComplement(v, n) < 0 <==> v >= Pow2(8 * n - 1)
  {
    Pow2Add(1, 8 * n - 1);
    assert Pow2(1) == 2;
  }

  /**
   * A `bool` read of `n` byte tokens padded to `n` bytes is the list of the
   * little-endian number's `8n` bits, least significant first.
   */
  lemma BitsRead(tokens: seq<string>, numbytes: int, n: nat)
    requires numbytes == n && 1 <= n <= |tokens| && AllBytes(tokens[..n])
    ensures var v := LittleEndian(tokens[..n]);
      ReadSpec(tokens, "bool", numbytes).1 == tokens[n..] &&
      ReadSpec(tokens, "bool", numbytes).0.Ok? &&
      var b := ReadSpec(tokens, "bool", numbytes).0.value;
      b.Bits? && |b.bits| == 8 * n &&
      forall j :: 0 <= j < 8 * n ==> b.bits[j] == Shr(v, j) % 2
  {
    var v := LittleEndian(tokens[..n]);
    PaddedBinDigits(v, 8 * n);
    var bits := BitsOf(Msb(v, 8 * n));
    assert ReadSpec(tokens, "bool", numbytes) == (Ok(Bits(bits)), tokens[n..]) by {
      KindsUsed(numbytes);
      ReversedJoin(tokens[..n]);
      assert Taken(BitList(numbytes, numbytes)) == n;
    }
    MsbBits(v, n);
  }

  /** The bits of `Msb(v, 8n)`, least significant first, are the bits of `v`. */
  lemma MsbBits(v: nat, n: nat)
    ensures forall j :: 0 <= j < 8 * n ==> BitsOf(Msb(v, 8 * n))[j] == Shr(v, j) % 2
  {
    var bits := BitsOf(Msb(v, 8 * n));
    forall j | 0 <= j < 8 * n
      ensures bits[j] == Shr(v, j) % 2
    {
      MsbAt(v, 8 * n, 8 * n - 1 - j);
    }
  }

  /**
   * A `single` read is `hextofloat` applied with `swap=True` to the four
   * tokens in the order they arrived.
   */
  lemma SingleRead(tokens: seq<string>, numbytes: int)
    requires 4 <= |tokens| && AllBytes(tokens[..4])
    ensures ReadSpec(tokens, "single", numbytes)
      == (FromFloat(Ieee754.Reconstruct(Ieee754.Str(Concat(tokens[..4])), true, Ieee754.Binary32)), tokens[4..])
  {
    KindsUsed(numbytes);
    Ieee754Facts.SwapReversesBytes(tokens[..4], Ieee754.Binary32);
  }

  /** Too few tokens: IndexError, and nothing popped. */
  lemma ShortRead(tokens: seq<string>, dtype: string, numbytes: int)
    requires KindOf(dtype, numbytes).Some? && |tokens| < Taken(KindOf(dtype, numbytes).value)
    ensures ReadSpec(tokens, dtype, numbytes) == (Err(IndexError), tokens)
  {
  }

  /** A read yields `None` exactly for a type name no branch tests, and then pops nothing. */
  lemma UnknownKindRead(tokens: seq<string>, dtype: string, numbytes: int)
    ensures ReadSpec(tokens, dtype, numbytes).0 == Ok(Nothing) <==> KindOf(dtype, numbytes).None?
    ensures KindOf(dtype, numbytes).None? ==> ReadSpec(tokens, dtype, numbytes).1 == tokens
  {
  }

  /** A join that `int(_, 16)` refuses: ValueError, raised after the tokens were popped. */
  lemma UnparsedRead(tokens: seq<string>, dtype: string, numbytes: int)
    requires KindOf(dtype, numbytes).Some?
    requires var k := KindOf(dtype, numbytes).value;
      !k.Single? && !k.Double? && Taken(k) <= |tokens| &&
      ParseInt16(Concat(Reverse(tokens[..Taken(k)]))) == None
    ensures ReadSpec(tokens, dtype, numbytes)
      == (Err(ValueError), tokens[Taken(KindOf(dtype, numbytes).value)..])
  {
  }

  /** A token that kept a delimiter character makes the read fail, after popping. */
  lemma DelimiterInTokenFails()
    ensures ReadSpec(["1,", "00"], "uint16", 1) == (Err(ValueError), [])
  {
    KindsUsed(1);
    var ts := ["1,", "00"];
    assert ts[..2] == ts && ts[2..] == [];
    assert Reverse(ts) == ["00", "1,"];
    JoinOfExample();
    UnparsedRead(ts, "uint16", 1);
  }

  lemma JoinOfExample()
    ensures Concat(["00", "1,"]) == "001,"
    ensures ParseInt16("001,") == None
  {
    ConcatSnoc(["00"], "1,");
    ConcatSnoc([], "00");
    assert ([] + ["00"]) == ["00"];
    assert ["00"] + ["1,"] == ["00", "1,"];
    var hexnum := "001,";
    assert !IsHexAnyCase(hexnum[3]);
    assert hexnum[..2] == "00";
    assert !StartsWith(hexnum, "0x") && !StartsWith(hexnum, "0X");
  }
}
