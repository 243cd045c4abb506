/**
 * The few Python `str` operations the decoder relies on: `lower()`, `strip()`,
 * `replace(pat, '')`, `startswith`/`endswith`, `in` and slicing with negative
 * indices. Strings are `seq<char>`; only ASCII letters are case-folded.
 */
module PyText {

  import opened Wrappers

  /** The lower-case hexadecimal alphabet `'0123456789abcdef'`. */
  predicate IsHexDigit(c: char) {
    '0' <= c <= '9' || 'a' <= c <= 'f'
  }

  predicate IsDigit(c: char) {
    '0' <= c <= '9'
  }

  predicate AllHex(s: string) {
    forall i :: 0 <= i < |s| ==> IsHexDigit(s[i])
  }

  function LowerChar(c: char): char {
    if 'A' <= c <= 'Z' then (c as int + 32) as char else c
  }

  /** `s.lower()` on ASCII letters. */
  function Lower(s: string): (r: string)
    ensures |r| == |s|
    ensures forall i :: 0 <= i < |s| ==> r[i] == LowerChar(s[i])
  {
    seq(|s|, i requires 0 <= i < |s| => LowerChar(s[i]))
  }

  /** The characters for which Python's `str.isspace()` holds. */
  predicate IsSpace(c: char) {
    ('\t' <= c <= '\r') || ('\U{1c}' <= c <= ' ') || c == '\U{85}' || c == '\U{a0}'
    || c == '\U{1680}' || ('\U{2000}' <= c <= '\U{200a}') || c == '\U{2028}' || c == '\U{2029}'
    || c == '\U{202f}' || c == '\U{205f}' || c == '\U{3000}'
  }

  function TrimStart(s: string): string {
    if |s| > 0 && IsSpace(s[0]) then TrimStart(s[1..]) else s
  }

  function TrimEnd(s: string): string {
    if |s| > 0 && IsSpace(s[|s| - 1]) then TrimEnd(s[..|s| - 1]) else s
  }

  /** `s.strip()`: leading and trailing whitespace removed. */
  function Strip(s: string): string {
    TrimEnd(TrimStart(s))
  }

  /**
   * `s.replace(pat, '')`: the non-overlapping occurrences of `pat`, found left
   * to right, are deleted; an empty `pat` leaves `s` unchanged.
   */
  function RemoveAll(s: string, pat: string): string
    decreases |s|
  {
    if |pat| == 0 || |s| < |pat| then s
    else if s[..|pat|] == pat then RemoveAll(s[|pat|..], pat)
    else [s[0]] + RemoveAll(s[1..], pat)
  }

  predicate StartsWith(s: string, prefix: string) {
    |prefix| <= |s| && s[..|prefix|] == prefix
  }

  predicate EndsWith(s: string, suffix: string) {
    |suffix| <= |s| && s[|s| - |suffix|..] == suffix
  }

  /** Index of the leftmost occurrence of `sub` in `s`, as `str.find` gives it. */
  function Find(s: string, sub: string): (r: Option<nat>)
    ensures r.Some? ==> r.value <= |s| && StartsWith(s[r.value..], sub)
    ensures r.Some? ==> forall j :: 0 <= j < r.value ==> !StartsWith(s[j..], sub)
    ensures r.None? ==> forall j :: 0 <= j <= |s| ==> !StartsWith(s[j..], sub)
    decreases |s|
  {
    if StartsWith(s, sub) then Some(0)
    else if |s| == 0 then None
    else
      var r := Find(s[1..], sub);
      assert forall j :: 1 <= j <= |s| ==> s[j..] == s[1..][j - 1..];
      match r
      case None => None
      case Some(k) => Some(k + 1)
  }

  /** `sub in s`: `sub` starts at some offset of `s`. */
  predicate Contains(s: string, sub: string) {
    Find(s, sub).Some?
  }

  /** Python's normalisation of one slice bound against a length. */
  function SliceIndex(x: int, len: nat): (r: nat)
    ensures r <= len
  {
    if x < 0 then (if x + len < 0 then 0 else x + len)
    else if x > len then len
    else x
  }

  /** `s[start:stop]` with Python's treatment of negative and out-of-range bounds. */
  function PySlice(s: string, start: int, stop: int): (r: string)
    ensures |r| <= |s|
  {
    var lo := SliceIndex(start, |s|);
    var hi := SliceIndex(stop, |s|);
    if lo >= hi then [] else s[lo..hi]
  }

  /** `''.join(parts)`. */
  function Concat(parts: seq<string>): (r: string)
    decreases |parts|
  {
    if |parts| == 0 then [] else Concat(parts[..|parts| - 1]) + parts[|parts| - 1]
  }

  lemma {:induction false} ConcatAppend(a: seq<string>, b: seq<string>)
    ensures Concat(a + b) == Concat(a) + Concat(b)
    decreases |b|
  {
    if |b| == 0 {
      assert a + b == a;
    } else {
      var b', x := b[..|b| - 1], b[|b| - 1];
      assert (a + b)[..|a + b| - 1] == a + b' && (a + b)[|a + b| - 1] == x;
      ConcatAppend(a, b');
      var ca, cb := Concat(a), Concat(b');
      assert Concat(a + b) == ca + cb + x;
      assert ca + cb + x == ca + (cb + x);
    }
  }

  /** Every piece hex means the join is hex; pieces of two characters join to twice as many. */
  lemma {:induction false} ConcatHex(parts: seq<string>)
    requires forall k :: 0 <= k < |parts| ==> AllHex(parts[k])
    ensures AllHex(Concat(parts))
    ensures (forall k :: 0 <= k < |parts| ==> |parts[k]| == 2) ==> |Concat(parts)| == 2 * |parts|
    decreases |parts|
  {
    if |parts| > 0 {
      ConcatHex(parts[..|parts| - 1]);
    }
  }

  function Reverse<T>(s: seq<T>): (r: seq<T>)
    ensures |r| == |s|
    ensures forall i :: 0 <= i < |s| ==> r[i] == s[|s| - 1 - i]
  {
    seq(|s|, i requires 0 <= i < |s| => s[|s| - 1 - i])
  }

  /** `s * k`: `k` copies of `s`, none when `k <= 0`. */
  function Repeat(s: string, k: int): (r: string)
    ensures |r| == if k <= 0 then 0 else |s| * k
    decreases k
  {
    if k <= 0 then [] else s + Repeat(s, k - 1)
  }
}
