/**
 * The two capture-log readers, `_readputtylog` and `_readkss`, from the point
 * where the file has been split into lines and each line decoded as UTF-8
 * (or found undecodable). Both clean a line as `line.lower().strip()` with
 * spaces, tabs, carriage returns and line feeds then deleted.
 */
module LogReaders {

  import opened Wrappers
  import opened PyText

  /** One raw line of the capture file, after the attempt to decode it. */
  datatype Line = Decoded(text: string) | Undecodable

  /** `line.lower().strip().replace(' ', '').replace('\t', '').replace('\r', '').replace('\n', '')`. */
  function CleanLine(text: string): string {
    RemoveAll(RemoveAll(RemoveAll(RemoveAll(Strip(Lower(text)), " "), "\t"), "\r"), "\n")
  }

  /** Deleting a one-character pattern leaves none of it and adds no other character. */
  lemma {:induction false} RemoveAllChar(s: string, c: char)
    ensures forall i :: 0 <= i < |RemoveAll(s, [c])| ==> RemoveAll(s, [c])[i] != c && RemoveAll(s, [c])[i] in s
    decreases |s|
  {
    if |s| > 0 {
      RemoveAllChar(s[1..], c);
      var rest := RemoveAll(s[1..], [c]);
      assert forall x :: x in s[1..] ==> x in s;
      if s[..1] != [c] {
        assert RemoveAll(s, [c]) == [s[0]] + rest;
        assert forall i :: 1 <= i < |[s[0]] + rest| ==> ([s[0]] + rest)[i] == rest[i - 1];
      }
    }
  }

  /** A cleaned line holds no space, tab, carriage return or line feed. */
  lemma CleanLineNoBreaks(text: string)
    ensures forall i :: 0 <= i < |CleanLine(text)| ==> CleanLine(text)[i] !in " \t\r\n"
  {
    var s0 := Strip(Lower(text));
    var s1 := RemoveAll(s0, " ");
    var s2 := RemoveAll(s1, "\t");
    var s3 := RemoveAll(s2, "\r");
    RemoveAllChar(s0, ' ');
    RemoveAllChar(s1, '\t');
    RemoveAllChar(s2, '\r');
    RemoveAllChar(s3, '\n');
  }

  // ---------------------------------------------------------- _readputtylog

  /** A line `_readputtylog` keeps: decodable, and non-empty and all `0-9a-f` once cleaned. */
  predicate Kept(line: Line) {
    line.Decoded? && |CleanLine(line.text)| > 0 && AllHex(CleanLine(line.text))
  }

  /** The cleaned kept lines, in file order. */
  function PuttyPackets(lines: seq<Line>): (r: seq<string>)
    decreases |lines|
  {
    if |lines| == 0 then []
    else
      var n := |lines| - 1;
      PuttyPackets(lines[..n]) + if Kept(lines[n]) then [CleanLine(lines[n].text)] else []
  }

  /** `_readputtylog(fpath)` on the decoded lines of the file. */
  method ReadPuttyLog(rawlines: seq<Line>) returns (datapackets: seq<string>)
    ensures datapackets == PuttyPackets(rawlines)
  {
    datapackets := [];
    var k := 0;
    while k < |rawlines|
      invariant 0 <= k <= |rawlines|
      invariant datapackets == PuttyPackets(rawlines[..k])
    {
      assert rawlines[..k + 1][..k] == rawlines[..k];
      match rawlines[k] {
        case Undecodable =>
        case Decoded(text) =>
          var line := CleanLine(text);
          if AllHex(line) && line != "" {
            datapackets := datapackets + [line];
          }
      }
      k := k + 1;
    }
    assert rawlines[..k] == rawlines;
  }

  /** The packets of a file are those of its first part followed by those of the rest. */
  lemma {:induction false} PuttyPacketsAppend(a: seq<Line>, b: seq<Line>)
    ensures PuttyPackets(a + b) == PuttyPackets(a) + PuttyPackets(b)
    decreases |b|
  {
    if |b| == 0 {
      assert a + b == a;
    } else {
      var n := |b| - 1;
      PuttyPacketsAppend(a, b[..n]);
      assert (a + b)[..|a + b| - 1] == a + b[..n];
      assert (a + b)[|a + b| - 1] == b[n];
    }
  }

  /** The cleaned text of a kept line. */
  function KeptAs(line: Line): Option<string> {
    if Kept(line) then Some(CleanLine(line.text)) else None
  }

  /** Some line of `lines` is kept with cleaned text `x`. */
  ghost predicate KeptText(lines: seq<Line>, x: string) {
    exists k :: 0 <= k < |lines| && KeptAs(lines[k]) == Some(x)
  }

  lemma KeptTextLast(lines: seq<Line>, x: string)
    requires |lines| > 0
    ensures var n := |lines| - 1;
      KeptText(lines, x) <==> KeptText(lines[..n], x) || KeptAs(lines[n]) == Some(x)
  {
    var n := |lines| - 1;
    var front := lines[..n];
    assert forall k :: 0 <= k < n ==> front[k] == lines[k];
  }

  /** Exactly the cleaned text of the kept lines comes out. */
  lemma {:induction false} PuttyPacketsIff(lines: seq<Line>)
    ensures forall x :: x in PuttyPackets(lines) <==> KeptText(lines, x)
    decreases |lines|
  {
    if |lines| > 0 {
      var n := |lines| - 1;
      PuttyPacketsIff(lines[..n]);
      forall x
        ensures x in PuttyPackets(lines) <==> KeptText(lines, x)
      {
        KeptTextLast(lines, x);
        assert KeptAs(lines[n]) == Some(x) <==> Kept(lines[n]) && CleanLine(lines[n].text) == x;
      }
    }
  }

  /** Each packet `_readputtylog` returns is a non-empty string of `0-9a-f`. */
  lemma {:induction false} PuttyPacketsHex(lines: seq<Line>)
    ensures forall i :: 0 <= i < |PuttyPackets(lines)| ==> |PuttyPackets(lines)[i]| > 0 && AllHex(PuttyPackets(lines)[i])
    decreases |lines|
  {
    if |lines| > 0 {
      PuttyPacketsHex(lines[..|lines| - 1]);
    }
  }

  // ------------------------------------------------------------- _readkss

  /** Characters the pattern `[\d]{1,3}>` reads at offset `p`: `k` digits, then `>`. */
  predicate MarkerAt(s: string, p: nat, k: nat) {
    1 <= k <= 3 && p + k < |s| && (forall i :: p <= i < p + k ==> IsDigit(s[i])) && s[p + k] == '>'
  }

  /** Where a match of `[\d]{1,3}>` that starts at `p` ends, trying three digits first. */
  function MatchAt(s: string, p: nat): (r: Option<nat>)
    ensures r.Some? ==> p + 2 <= r.value && MarkerAt(s, p, r.value - p - 1)
    ensures r.None? ==> forall k: nat :: !MarkerAt(s, p, k)
  {
    if p + 3 < |s| && IsDigit(s[p]) && IsDigit(s[p + 1]) && IsDigit(s[p + 2]) && s[p + 3] == '>' then Some(p + 4)
    else if p + 2 < |s| && IsDigit(s[p]) && IsDigit(s[p + 1]) && s[p + 2] == '>' then Some(p + 3)
    else if p + 1 < |s| && IsDigit(s[p]) && s[p + 1] == '>' then Some(p + 2)
    else None
  }

  /** `re.search('[\d]{1,3}>', s[p:])`: the end of the leftmost match, if any. */
  function SearchFrom(s: string, p: nat): (r: Option<nat>)
    ensures r.Some? ==> r.value <= |s|
    ensures r.Some? ==>
      exists q: nat, k: nat :: p <= q && MarkerAt(s, q, k) && r.value == q + k + 1 &&
        forall q': nat, k': nat :: p <= q' < q ==> !MarkerAt(s, q', k')
    ensures r.None? ==> forall q: nat, k: nat :: p <= q ==> !MarkerAt(s, q, k)
    decreases |s| - p
  {
    if p >= |s| then None
    else
      match MatchAt(s, p)
      case Some(e) => Some(e)
      case None => SearchFrom(s, p + 1)
  }

  /** `match.span()[1]` for `re.search('[\d]{1,3}>', s)`. */
  function MarkerEnd(s: string): Option<nat> {
    SearchFrom(s, 0)
  }

  /** What a line adds to the open packet: the text after its marker, if it is decodable and has one. */
  function Marked(line: Line): (r: Option<string>)
  {
    match line
    case Undecodable => None
    case Decoded(text) =>
      var l := CleanLine(text);
      match MarkerEnd(l)
      case None => None
      case Some(e) => Some(l[e..])
  }

  /** The loop state of `_readkss`: the finished packets and the one being collected. */
  datatype KssState = KssState(datalines: seq<string>, packet: string)

  /** A packet being collected is finished, if it is not empty, and a new one begun. */
  function Flush(st: KssState): KssState {
    KssState(if st.packet != "" then st.datalines + [st.packet] else st.datalines, "")
  }

  function KssStep(st: KssState, line: Line): KssState {
    match Marked(line)
    case Some(data) => KssState(st.datalines, st.packet + data)
    case None => Flush(st)
  }

  /** The loop state after the given lines. */
  function KssFold(lines: seq<Line>): KssState
    decreases |lines|
  {
    if |lines| == 0 then KssState([], "")
    else KssStep(KssFold(lines[..|lines| - 1]), lines[|lines| - 1])
  }

  /** The wrapper prefix and suffix a packet may carry. */
  const Prefix: string := "c000"
  const Suffix: string := "c0"

  /** The call sign, lowered, that precedes the data of a packet. */
  const Callsign: string := "aea468aa8c40e0ae9664b092886103f0"

  /** `line[4:-2]` when the line starts with `c000` and ends with `c0`, else the line. */
  function Unwrap(line: string): string {
    if StartsWith(line, Prefix) && EndsWith(line, Suffix) then PySlice(line, |Prefix|, -|Suffix|) else line
  }

  /** `re.split(callsigns, line)[1]` when the call sign occurs, else the line. */
  function AfterCallsign(line: string): string {
    match Find(line, Callsign)
    case None => line
    case Some(i) => UpTo(line[i + |Callsign|..], Callsign)
  }

  /** `s.split(sep)[0]`: the text before the first occurrence of `sep`, or all of it. */
  function UpTo(s: string, sep: string): string {
    match Find(s, sep)
    case None => s
    case Some(j) => s[..j]
  }

  /** The packets `_readkss` returns for the given lines. */
  function KssPackets(lines: seq<Line>): (r: seq<string>)
    ensures |r| == |KssFold(lines).datalines|
  {
    var datalines := KssFold(lines).datalines;
    seq(|datalines|, i requires 0 <= i < |datalines| => AfterCallsign(Unwrap(datalines[i])))
  }

  /** `_readkss(fpath)` on the decoded lines of the file. */
  method ReadKss(rawlines: seq<Line>) returns (datapackets: seq<string>)
    ensures datapackets == KssPackets(rawlines)
  {
    var datalines: seq<string> := [];
    var packet := "";
    var k := 0;
    while k < |rawlines|
      invariant 0 <= k <= |rawlines|
      invariant KssState(datalines, packet) == KssFold(rawlines[..k])
    {
      assert rawlines[..k + 1][..k] == rawlines[..k];
      match rawlines[k] {
        case Undecodable =>
          if packet != "" {
            datalines := datalines + [packet];
          }
          packet := "";
        case Decoded(text) =>
          var line := CleanLine(text);
          var marker := MarkerEnd(line);
          if marker.Some? {
            packet := packet + line[marker.value..];
          } else {
            if packet != "" {
              datalines := datalines + [packet];
            }
            packet := "";
          }
      }
      k := k + 1;
    }
    assert rawlines[..k] == rawlines;
    var trimmedlines := seq(|datalines|, i requires 0 <= i < |datalines| => Unwrap(datalines[i]));
    datapackets := seq(|trimmedlines|, i requires 0 <= i < |trimmedlines| => AfterCallsign(trimmedlines[i]));
  }

  // ----------------------------------------------------------------- lemmas

  /** The text of the trailing run of lines that carry a marker. */
  function Run(lines: seq<Line>): seq<string>
    decreases |lines|
  {
    if |lines| == 0 then []
    else
      var n := |lines| - 1;
      match Marked(lines[n])
      case None => []
      case Some(data) => Run(lines[..n]) + [data]
  }

  /**
   * The packet being collected is the joined text of the trailing run of
   * marker lines, and every finished packet is non-empty.
   */
  lemma {:induction false} OpenPacketIsRun(lines: seq<Line>)
    ensures KssFold(lines).packet == Concat(Run(lines))
    ensures forall i :: 0 <= i < |KssFold(lines).datalines| ==> KssFold(lines).datalines[i] != ""
    decreases |lines|
  {
    if |lines| > 0 {
      var n := |lines| - 1;
      OpenPacketIsRun(lines[..n]);
      match Marked(lines[n])
      case None =>
      case Some(data) =>
        var run := Run(lines[..n]) + [data];
        assert run[..|run| - 1] == Run(lines[..n]);
    }
  }

  /**
   * A line without a marker ends the run before it: its joined text becomes a
   * packet unless it is empty. A run still open at the end of the file is
   * never returned.
   */
  lemma BreakEmitsRun(lines: seq<Line>, line: Line)
    requires Marked(line).None?
    ensures var open := Concat(Run(lines));
      KssFold(lines + [line]).datalines == KssFold(lines).datalines + (if open != "" then [open] else [])
    ensures KssFold(lines + [line]).packet == ""
  {
    OpenPacketIsRun(lines);
    assert (lines + [line])[..|lines|] == lines;
  }

  /** A marker line adds to the open packet and finishes none. */
  lemma MarkerExtends(lines: seq<Line>, line: Line)
    requires Marked(line).Some?
    ensures KssFold(lines + [line]).datalines == KssFold(lines).datalines
    ensures KssFold(lines + [line]).packet == KssFold(lines).packet + Marked(line).value
  {
    assert (lines + [line])[..|lines|] == lines;
  }

  /** The prefix and suffix come off a wrapped packet, and only together. */
  lemma UnwrapWrapped(x: string)
    ensures Unwrap(Prefix + x + Suffix) == x
  {
    var line := Prefix + x + Suffix;
    assert line[..|Prefix|] == Prefix;
    assert line[|line| - |Suffix|..] == Suffix;
    assert line[|Prefix|..|line| - |Suffix|] == x;
  }

  /** A packet without both wrappers is left as it is. */
  lemma UnwrapUnwrapped(line: string)
    requires !StartsWith(line, Prefix) || !EndsWith(line, Suffix)
    ensures Unwrap(line) == line
  {
  }

  /**
   * After the call sign: the text that follows its first occurrence, up to
   * the next occurrence or the end, with no occurrence inside it.
   */
  lemma AfterCallsignShape(line: string)
    requires Contains(line, Callsign)
    ensures var i := Find(line, Callsign).value;
      var after := line[i + |Callsign|..];
      var r := AfterCallsign(line);
      && StartsWith(after, r)
      && (r == after || StartsWith(after[|r|..], Callsign))
      && !Contains(r, Callsign)
  {
    var i := Find(line, Callsign).value;
    UpToShape(line[i + |Callsign|..], Callsign);
  }

  /** The text before the first separator starts `s`, is followed by a separator or the end, and holds none. */
  lemma UpToShape(s: string, sep: string)
    requires |sep| > 0
    ensures var r := UpTo(s, sep);
      && StartsWith(s, r)
      && (r == s || StartsWith(s[|r|..], sep))
      && !Contains(r, sep)
  {
    match Find(s, sep)
    case None =>
      NoOccurrencePrefix(s, sep, |s|);
    case Some(j) =>
      NoOccurrencePrefix(s, sep, j);
  }

  /** A prefix that ends before the first occurrence has none. */
  lemma NoOccurrencePrefix(s: string, sep: string, j: nat)
    requires j <= |s| && |sep| > 0
    requires forall q :: 0 <= q < j ==> !StartsWith(s[q..], sep)
    ensures !Contains(s[..j], sep)
  {
    var t := s[..j];
    forall q | 0 <= q <= |t|
      ensures !StartsWith(t[q..], sep)
    {
      if |sep| <= |t| - q {
        assert t[q..][..|sep|] == s[q..][..|sep|];
      }
    }
  }

  /** A packet without the call sign is returned as it is. */
  lemma AfterCallsignAbsent(line: string)
    requires !Contains(line, Callsign)
    ensures AfterCallsign(line) == line
  {
  }
}
