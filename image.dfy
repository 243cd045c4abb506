/**
 * `_readimage`: the reassembly of an image downlinked as data packets. Each
 * packet of at least 512 hex characters is cut to 512; its first 8 and next 8
 * characters are two little-endian 32-bit headers, the declared packet total
 * and the packet id, each 248 times too large; the remaining 496 characters
 * are one 248-byte block of the image. The headers are kept as the raw
 * integers: a comparison of two headers divided by 248 is a comparison of the
 * raw integers, and "the id is integral" is "the raw id is a multiple of 248".
 */
module ImageAssembly {

  import opened Wrappers
  import opened PyText
  import opened PyInt
  import opened HexCodec
  import opened PyOrder

  /** Characters of a packet that are read; shorter packets are ignored. */
  const FrameChars: nat := 512

  /** Bytes of image per packet, and the factor by which both headers over-report. */
  const BlockBytes: nat := 248

  /** One packet: its two raw headers and its payload hex. */
  datatype Frame = Frame(total: nat, id: nat, payload: string)

  /** What a call produces: nothing to do, or the missing count it prints, the bytes it built and whether it wrote them. */
  datatype Assembly = NoFrames | Assembled(nummissing: nat, image: seq<Byte>, written: bool)

  /** The value `_readimage` returns. */
  function Found(a: Assembly): bool {
    a.Assembled? && a.written
  }

  // ------------------------------------------------------------ the packets

  /** `[packet[0:512] for packet in datapackets if len(packet) >= 512]`. */
  function Long(datapackets: seq<string>): (r: seq<string>)
    ensures forall k :: 0 <= k < |r| ==> |r[k]| == FrameChars
    ensures |r| == 0 <==> forall k :: 0 <= k < |datapackets| ==> |datapackets[k]| < FrameChars
    decreases |datapackets|
  {
    if |datapackets| == 0 then []
    else
      var rest := Long(datapackets[1..]);
      assert forall k :: 1 <= k < |datapackets| ==> datapackets[k] == datapackets[1..][k - 1];
      if |datapackets[0]| >= FrameChars then [datapackets[0][..FrameChars]] + rest else rest
  }

  /** `int(_swaphex(hexstr), 16)`. */
  function HeaderValue(hexstr: string): Result<nat> {
    match SwapHex(hexstr)
    case Err(e) => Err(e)
    case Ok(swapped) =>
      match ParseInt16(swapped)
      case None => Err(ValueError)
      case Some(v) => Ok(v)
  }

  /** The two headers and the payload of one 512-character packet. */
  function ReadFrame(data: string): Result<Frame>
    requires |data| == FrameChars
  {
    match HeaderValue(data[0..8])
    case Err(e) => Err(e)
    case Ok(total) =>
      match HeaderValue(data[8..16])
      case Err(e) => Err(e)
      case Ok(id) => Ok(Frame(total, id, data[16..]))
  }

  /** The headers of every packet; a header that is not hex raises. */
  function Frames(data: seq<string>): (r: Result<seq<Frame>>)
    requires forall k :: 0 <= k < |data| ==> |data[k]| == FrameChars
    ensures r.Ok? ==> |r.value| == |data|
    ensures r.Ok? ==> forall k :: 0 <= k < |data| ==> ReadFrame(data[k]) == Ok(r.value[k])
  {
    MapOrRaise(ReadFrame, data, 0)
  }

  function Totals(fs: seq<Frame>): (r: seq<nat>)
    ensures |r| == |fs| && forall k :: 0 <= k < |fs| ==> r[k] == fs[k].total
  {
    seq(|fs|, k requires 0 <= k < |fs| => fs[k].total)
  }

  // ------------------------------------------------------------------ mode

  /**
   * Where `statistics.mode` finds its answer among the first `k` values: a
   * value no other value outnumbers, occurring before every value that
   * matches its count.
   */
  function ModeIndex(xs: seq<nat>, k: nat): (i: nat)
    requires 0 < k <= |xs|
    ensures i < k
    ensures forall j :: 0 <= j < k ==> multiset(xs)[xs[j]] <= multiset(xs)[xs[i]]
    ensures forall j :: 0 <= j < i ==> multiset(xs)[xs[j]] < multiset(xs)[xs[i]]
  {
    if k == 1 then 0
    else
      var m := ModeIndex(xs, k - 1);
      if multiset(xs)[xs[k - 1]] > multiset(xs)[xs[m]] then k - 1 else m
  }

  /** `statistics.mode(xs)`: the most common value, the first one met on a tie. */
  function Mode(xs: seq<nat>): nat
    requires |xs| > 0
  {
    xs[ModeIndex(xs, |xs|)]
  }

  // ------------------------------------------------------- filter and sort

  /** Agrees with the modal total and has an integral id between 0 and the total. */
  predicate Retained(f: Frame, total: nat) {
    f.total == total && f.id % BlockBytes == 0 && f.id <= total
  }

  /** The two list filters, applied to the packets as one. */
  function Retain(fs: seq<Frame>, total: nat): (r: seq<Frame>)
    ensures forall f :: f in r <==> f in fs && Retained(f, total)
    decreases |fs|
  {
    if |fs| == 0 then []
    else
      var rest := Retain(fs[1..], total);
      assert forall f :: f in fs <==> f == fs[0] || f in fs[1..];
      if Retained(fs[0], total) then [fs[0]] + rest else rest
  }

  /** `zip(packetids, imdata)` once the ids are divided by 248. */
  function Tag(fs: seq<Frame>): (r: seq<Tagged>)
    ensures |r| == |fs| && forall k :: 0 <= k < |fs| ==> r[k] == Tagged(fs[k].id / BlockBytes, fs[k].payload)
  {
    seq(|fs|, k requires 0 <= k < |fs| => Tagged(fs[k].id / BlockBytes, fs[k].payload))
  }

  function Ids(s: seq<Tagged>): (r: seq<int>)
    ensures |r| == |s| && forall k :: 0 <= k < |s| ==> r[k] == s[k].id
  {
    seq(|s|, k requires 0 <= k < |s| => s[k].id)
  }

  function Payloads(s: seq<Tagged>): (r: seq<string>)
    ensures |r| == |s| && forall k :: 0 <= k < |s| ==> r[k] == s[k].payload
  {
    seq(|s|, k requires 0 <= k < |s| => s[k].payload)
  }

  // --------------------------------------------------------------- _unique2

  /** What `_unique2` returns: IOError on lists of different lengths. */
  function Unique2Spec(list1: seq<int>, list2: seq<string>): Result<(seq<int>, seq<string>)> {
    if |list1| != |list2| then Err(IOError) else Ok(Dedup(list1, list2))
  }

  /** The first entry of each distinct `list1` value, with its partner from `list2`. */
  function Dedup(list1: seq<int>, list2: seq<string>): (r: (seq<int>, seq<string>))
    requires |list1| == |list2|
    ensures |r.0| == |r.1|
    decreases |list1|
  {
    if |list1| == 0 then ([], [])
    else
      var n := |list1| - 1;
      var prior := Dedup(list1[..n], list2[..n]);
      if list1[n] in prior.0 then prior else (prior.0 + [list1[n]], prior.1 + [list2[n]])
  }

  /** `_unique2(list1, list2)`. */
  method Unique2(list1: seq<int>, list2: seq<string>) returns (r: Result<(seq<int>, seq<string>)>)
    ensures r == Unique2Spec(list1, list2)
  {
    if |list1| != |list2| {
      return Err(IOError);
    }
    var unique1: seq<int> := [];
    var unique2: seq<string> := [];
    var k := 0;
    while k < |list1|
      invariant 0 <= k <= |list1|
      invariant (unique1, unique2) == Dedup(list1[..k], list2[..k])
    {
      assert list1[..k + 1][..k] == list1[..k] && list2[..k + 1][..k] == list2[..k];
      if list1[k] !in unique1 {
        unique1 := unique1 + [list1[k]];
        unique2 := unique2 + [list2[k]];
      }
      k := k + 1;
    }
    assert list1[..k] == list1 && list2[..k] == list2;
    return Ok((unique1, unique2));
  }

  /** `list1[j]` occurs nowhere before `j`. */
  predicate FirstAt(list1: seq<int>, j: nat)
    requires j < |list1|
  {
    forall i :: 0 <= i < j ==> list1[i] != list1[j]
  }

  /**
   * `_unique2` keeps each value of `list1` once, every value, and with each the
   * partner of its first occurrence.
   */
  lemma DedupKeepsFirst(list1: seq<int>, list2: seq<string>)
    requires |list1| == |list2|
    ensures var r := Dedup(list1, list2);
      Distinct(r.0) && SameValues(r.0, list1) && FirstPartners(list1, list2, r.0, r.1)
  {
    DedupDistinct(list1, list2);
    DedupValues(list1, list2);
    DedupFirst(list1, list2);
  }

  /**
   * `_unique2` only ever appends: what it keeps of a prefix of the lists is a
   * prefix of what it keeps of the whole, so the values come in the order of
   * their first occurrence.
   */
  lemma {:induction false} DedupPrefix(list1: seq<int>, list2: seq<string>, n: nat)
    requires |list1| == |list2| && n <= |list1|
    ensures var p, r := Dedup(list1[..n], list2[..n]), Dedup(list1, list2);
      p.0 <= r.0 && p.1 <= r.1
    decreases |list1|
  {
    if n < |list1| {
      var m := |list1| - 1;
      var l1, l2 := list1[..m], list2[..m];
      DedupPrefix(l1, l2, n);
      assert l1[..n] == list1[..n] && l2[..n] == list2[..n];
    } else {
      assert list1[..n] == list1 && list2[..n] == list2;
    }
  }

  /** No value occurs twice in `xs`. */
  predicate Distinct(xs: seq<int>) {
    forall i, j :: 0 <= i < j < |xs| ==> xs[i] != xs[j]
  }

  /** `xs` and `ys` hold the same values. */
  ghost predicate SameValues(xs: seq<int>, ys: seq<int>) {
    forall x :: x in xs <==> x in ys
  }

  /** Each `(u1[k], u2[k])` is a pair of `list1` and `list2` at the first occurrence of its value. */
  predicate FirstPartners(list1: seq<int>, list2: seq<string>, u1: seq<int>, u2: seq<string>)
    requires |list1| == |list2| && |u1| == |u2|
  {
    forall k :: 0 <= k < |u1| ==> FirstPartnerAt(list1, list2, u1[k], u2[k])
  }

  /** `(x, y)` is the pair of `list1` and `list2` at the first occurrence of `x`. */
  predicate FirstPartnerAt(list1: seq<int>, list2: seq<string>, x: int, y: string)
    requires |list1| == |list2|
  {
    exists j :: 0 <= j < |list1| && FirstAt(list1, j) && list1[j] == x && list2[j] == y
  }

  lemma {:induction false} DedupDistinct(list1: seq<int>, list2: seq<string>)
    requires |list1| == |list2|
    ensures Distinct(Dedup(list1, list2).0)
    decreases |list1|
  {
    if |list1| > 0 {
      var n := |list1| - 1;
      DedupDistinct(list1[..n], list2[..n]);
      var prior := Dedup(list1[..n], list2[..n]).0;
      if list1[n] !in prior {
        var r := prior + [list1[n]];
        forall i, j | 0 <= i < j < |r|
          ensures r[i] != r[j]
        {
          if j == |prior| {
            assert r[i] == prior[i];
          }
        }
      }
    }
  }

  lemma {:induction false} DedupValues(list1: seq<int>, list2: seq<string>)
    requires |list1| == |list2|
    ensures SameValues(Dedup(list1, list2).0, list1)
    decreases |list1|
  {
    if |list1| > 0 {
      var n := |list1| - 1;
      var l1, l2 := list1[..n], list2[..n];
      DedupValues(l1, l2);
      assert list1 == l1 + [list1[n]];
    }
  }

  lemma {:induction false} DedupFirst(list1: seq<int>, list2: seq<string>)
    requires |list1| == |list2|
    ensures var r := Dedup(list1, list2); FirstPartners(list1, list2, r.0, r.1)
    decreases |list1|
  {
    if |list1| > 0 {
      var n := |list1| - 1;
      var l1, l2 := list1[..n], list2[..n];
      DedupFirst(l1, l2);
      var prior := Dedup(l1, l2);
      FirstPartnersPrefix(list1, list2, n, prior.0, prior.1);
      if list1[n] !in prior.0 {
        DedupValues(l1, l2);
        assert FirstAt(list1, n);
        FirstPartnersSnoc(list1, list2, prior.0, prior.1, n);
      }
    }
  }

  /** First occurrences in a prefix are first occurrences in the whole list. */
  lemma FirstPartnersPrefix(list1: seq<int>, list2: seq<string>, n: nat, u1: seq<int>, u2: seq<string>)
    requires |list1| == |list2| && n <= |list1| && |u1| == |u2|
    requires FirstPartners(list1[..n], list2[..n], u1, u2)
    ensures FirstPartners(list1, list2, u1, u2)
  {
    var l1, l2 := list1[..n], list2[..n];
    forall k | 0 <= k < |u1|
      ensures FirstPartnerAt(list1, list2, u1[k], u2[k])
    {
      assert FirstPartnerAt(l1, l2, u1[k], u2[k]);
      var j :| 0 <= j < |l1| && FirstAt(l1, j) && l1[j] == u1[k] && l2[j] == u2[k];
      assert FirstAt(list1, j) by {
        forall i | 0 <= i < j
          ensures list1[i] != list1[j]
        {
          assert l1[i] != l1[j];
        }
      }
      assert list1[j] == u1[k] && list2[j] == u2[k];
    }
  }

  /** A value's first occurrence added to the back keeps the pairs first occurrences. */
  lemma FirstPartnersSnoc(list1: seq<int>, list2: seq<string>, u1: seq<int>, u2: seq<string>, n: nat)
    requires |list1| == |list2| && |u1| == |u2| && n < |list1|
    requires FirstPartners(list1, list2, u1, u2) && FirstAt(list1, n)
    ensures FirstPartners(list1, list2, u1 + [list1[n]], u2 + [list2[n]])
  {
    var v1, v2 := u1 + [list1[n]], u2 + [list2[n]];
    forall k | 0 <= k < |v1|
      ensures FirstPartnerAt(list1, list2, v1[k], v2[k])
    {
      if k < |u1| {
        assert FirstPartnerAt(list1, list2, u1[k], u2[k]);
        assert v1[k] == u1[k] && v2[k] == u2[k];
      } else {
        assert v1[k] == list1[n] && v2[k] == list2[n];
      }
    }
  }

  // ------------------------------------------------------------ the filling

  /** `[i for i in range(len(packetids)) if i not in packetids]`. */
  function MissingIds(packetids: seq<int>): (r: seq<nat>)
    ensures forall x :: x in r <==> 0 <= x < |packetids| && x !in packetids
  {
    MissingBelow(packetids, |packetids|)
  }

  function MissingBelow(packetids: seq<int>, n: nat): (r: seq<nat>)
    ensures forall x :: x in r <==> 0 <= x < n && x !in packetids
    decreases n
  {
    if n == 0 then []
    else
      var prior := MissingBelow(packetids, n - 1);
      if n - 1 in packetids then prior else prior + [n - 1]
  }

  /** `ceil(total / 248)`. */
  function Blocks(total: nat): nat {
    (total + BlockBytes - 1) / BlockBytes
  }

  /** The block that stands in for a missing packet: `filler * 248`. */
  function FillerBlock(filler: string): string {
    Repeat(filler, BlockBytes)
  }

  /**
   * The blocks from index `i` on: a filler block for an index that is not a
   * packet id, otherwise the next payload popped from the front of `queue`
   * (IndexError when there is none).
   */
  function FillFrom(packetids: seq<int>, queue: seq<string>, i: nat, blocks: nat, filler: string): Result<seq<string>>
    decreases blocks - i
  {
    if i >= blocks then Ok([])
    else if i !in packetids then Prepend([FillerBlock(filler)], FillFrom(packetids, queue, i + 1, blocks, filler))
    else if |queue| == 0 then Err(IndexError)
    else Prepend([queue[0]], FillFrom(packetids, queue[1..], i + 1, blocks, filler))
  }

  function Prepend(front: seq<string>, r: Result<seq<string>>): Result<seq<string>> {
    match r
    case Err(e) => Err(e)
    case Ok(rest) => Ok(front + rest)
  }

  lemma PrependPrepend(front: seq<string>, more: seq<string>, r: Result<seq<string>>)
    ensures Prepend(front, Prepend(more, r)) == Prepend(front + more, r)
  {
    if r.Ok? {
      assert front + (more + r.value) == (front + more) + r.value;
    }
  }

  lemma PrependNothing(r: Result<seq<string>>)
    ensures Prepend([], r) == r
  {
    if r.Ok? {
      assert [] + r.value == r.value;
    }
  }

  /** `[filler * 248 if i not in packetids else imdata.pop(0) for i in range(blocks)]`. */
  method Fill(packetids: seq<int>, imdata: seq<string>, blocks: nat, filler: string) returns (r: Result<seq<string>>)
    ensures r == FillFrom(packetids, imdata, 0, blocks, filler)
  {
    var queue := imdata;
    var imfill: seq<string> := [];
    var i := 0;
    PrependNothing(FillFrom(packetids, imdata, 0, blocks, filler));
    while i < blocks
      invariant i <= blocks
      invariant FillFrom(packetids, imdata, 0, blocks, filler) == Prepend(imfill, FillFrom(packetids, queue, i, blocks, filler))
      decreases blocks - i
    {
      ghost var rest := FillFrom(packetids, queue, i + 1, blocks, filler);
      if i !in packetids {
        PrependPrepend(imfill, [FillerBlock(filler)], rest);
        imfill := imfill + [FillerBlock(filler)];
      } else {
        if |queue| == 0 {
          return Err(IndexError);
        }
        rest := FillFrom(packetids, queue[1..], i + 1, blocks, filler);
        PrependPrepend(imfill, [queue[0]], rest);
        imfill := imfill + [queue[0]];
        queue := queue[1..];
      }
      i := i + 1;
    }
    assert imfill + [] == imfill;
    return Ok(imfill);
  }

  predicate Increasing(xs: seq<int>) {
    forall i, j :: 0 <= i < j < |xs| ==> xs[i] < xs[j]
  }

  /**
   * With increasing ids paired with their payloads, the filling never pops an
   * empty list: block `i` is the payload of id `i`, or the filler block.
   */
  lemma FillBlocks(packetids: seq<int>, imdata: seq<string>, blocks: nat, filler: string)
    requires |packetids| == |imdata| && Increasing(packetids)
    requires forall k :: 0 <= k < |packetids| ==> packetids[k] >= 0
    ensures var r := FillFrom(packetids, imdata, 0, blocks, filler);
      && r.Ok? && |r.value| == blocks
      && (forall k :: 0 <= k < |packetids| && packetids[k] < blocks ==> r.value[packetids[k]] == imdata[k])
      && (forall i :: 0 <= i < blocks && i !in packetids ==> r.value[i] == FillerBlock(filler))
  {
    assert imdata[0..] == imdata;
    FillBlocksFrom(packetids, imdata, 0, 0, blocks, filler);
    assert FillsFrom(packetids, imdata, 0, 0, blocks, filler);
  }

  /** The blocks from index `i` on, with the payloads of ids below `i` already popped. */
  predicate FillsFrom(packetids: seq<int>, imdata: seq<string>, m: nat, i: nat, blocks: nat, filler: string)
    requires |packetids| == |imdata| && m <= |packetids| && i <= blocks
  {
    var r := FillFrom(packetids, imdata[m..], i, blocks, filler);
    r.Ok? && Places(packetids, imdata, m, i, blocks, filler, r.value)
  }

  /** `r` holds, for each index from `i` on, the payload of its id or the filler block. */
  predicate Places(packetids: seq<int>, imdata: seq<string>, m: nat, i: nat, blocks: nat, filler: string, r: seq<string>)
    requires |packetids| == |imdata| && m <= |packetids| && i <= blocks
  {
    |r| == blocks - i && PayloadsAt(packetids, imdata, m, i, r) && FillersAt(packetids, i, FillerBlock(filler), r)
  }

  /** Each payload from the `m`-th on sits at its id's place in `r`, which starts at index `i`. */
  predicate PayloadsAt(packetids: seq<int>, imdata: seq<string>, m: nat, i: nat, r: seq<string>)
    requires |packetids| == |imdata| && m <= |packetids|
  {
    forall k :: m <= k < |packetids| && i <= packetids[k] < i + |r| ==> r[packetids[k] - i] == imdata[k]
  }

  /** Each index of `r` (which starts at index `i`) that is not an id holds `block`. */
  predicate FillersAt(packetids: seq<int>, i: nat, block: string, r: seq<string>) {
    forall j :: i <= j < i + |r| && j !in packetids ==> r[j - i] == block
  }

  predicate Split(packetids: seq<int>, m: nat, i: nat)
    requires m <= |packetids|
  {
    && (forall k :: 0 <= k < m ==> packetids[k] < i)
    && (forall k :: m <= k < |packetids| ==> packetids[k] >= i)
  }

  lemma {:induction false} FillBlocksFrom(packetids: seq<int>, imdata: seq<string>, m: nat, i: nat, blocks: nat, filler: string)
    requires |packetids| == |imdata| && Increasing(packetids) && m <= |packetids| && i <= blocks
    requires Split(packetids, m, i)
    ensures FillsFrom(packetids, imdata, m, i, blocks, filler)
    decreases blocks - i
  {
    if i < blocks {
      if m < |packetids| && packetids[m] == i {
        assert Split(packetids, m + 1, i + 1) by {
          forall k | m + 1 <= k < |packetids|
            ensures packetids[k] >= i + 1
          {
            assert packetids[m] < packetids[k];
          }
        }
        FillBlocksFrom(packetids, imdata, m + 1, i + 1, blocks, filler);
        PopStep(packetids, imdata, m, i, blocks, filler);
      } else {
        forall k | 0 <= k < |packetids|
          ensures packetids[k] != i
        {
          if k > m {
            assert packetids[m] < packetids[k];
          }
        }
        FillBlocksFrom(packetids, imdata, m, i + 1, blocks, filler);
        FillerStep(packetids, imdata, m, i, blocks, filler);
      }
    }
  }

  lemma PopStep(packetids: seq<int>, imdata: seq<string>, m: nat, i: nat, blocks: nat, filler: string)
    requires |packetids| == |imdata| && Increasing(packetids) && m < |packetids| && i < blocks
    requires packetids[m] == i
    requires FillsFrom(packetids, imdata, m + 1, i + 1, blocks, filler)
    ensures FillsFrom(packetids, imdata, m, i, blocks, filler)
  {
    var queue := imdata[m..];
    assert queue[0] == imdata[m] && queue[1..] == imdata[m + 1..];
    var tail := FillFrom(packetids, imdata[m + 1..], i + 1, blocks, filler).value;
    assert FillFrom(packetids, queue, i, blocks, filler) == Ok([imdata[m]] + tail);
    forall k | m < k < |packetids|
      ensures packetids[k] > i
    {
      assert packetids[m] < packetids[k];
    }
    PlacesPop(packetids, imdata, m, i, blocks, filler, tail);
  }

  /** Putting the payload of id `i` in front of the blocks after it. */
  lemma PlacesPop(packetids: seq<int>, imdata: seq<string>, m: nat, i: nat, blocks: nat, filler: string, tail: seq<string>)
    requires |packetids| == |imdata| && m < |packetids| && i < blocks
    requires packetids[m] == i && forall k :: m < k < |packetids| ==> packetids[k] > i
    requires Places(packetids, imdata, m + 1, i + 1, blocks, filler, tail)
    ensures Places(packetids, imdata, m, i, blocks, filler, [imdata[m]] + tail)
  {
    PayloadsPop(packetids, imdata, m, i, tail);
    FillersShift(packetids, i, FillerBlock(filler), imdata[m], tail);
  }

  lemma PayloadsPop(packetids: seq<int>, imdata: seq<string>, m: nat, i: nat, tail: seq<string>)
    requires |packetids| == |imdata| && m < |packetids|
    requires packetids[m] == i && forall k :: m < k < |packetids| ==> packetids[k] > i
    requires PayloadsAt(packetids, imdata, m + 1, i + 1, tail)
    ensures PayloadsAt(packetids, imdata, m, i, [imdata[m]] + tail)
  {
    var r := [imdata[m]] + tail;
    forall k | m <= k < |packetids| && i <= packetids[k] < i + |r|
      ensures r[packetids[k] - i] == imdata[k]
    {
      if k > m {
        assert r[packetids[k] - i] == tail[packetids[k] - (i + 1)];
      }
    }
  }

  /** A block placed at an id's index `i` leaves the filler blocks of the later indices in place. */
  lemma FillersShift(packetids: seq<int>, i: nat, block: string, head: string, tail: seq<string>)
    requires i in packetids
    requires FillersAt(packetids, i + 1, block, tail)
    ensures FillersAt(packetids, i, block, [head] + tail)
  {
    var r := [head] + tail;
    forall j | i <= j < i + |r| && j !in packetids
      ensures r[j - i] == block
    {
      assert j != i;
      assert r[j - i] == tail[j - (i + 1)];
    }
  }

  lemma FillerStep(packetids: seq<int>, imdata: seq<string>, m: nat, i: nat, blocks: nat, filler: string)
    requires |packetids| == |imdata| && m <= |packetids| && i < blocks
    requires i !in packetids
    requires FillsFrom(packetids, imdata, m, i + 1, blocks, filler)
    ensures FillsFrom(packetids, imdata, m, i, blocks, filler)
  {
    var queue := imdata[m..];
    var tail := FillFrom(packetids, queue, i + 1, blocks, filler).value;
    assert FillFrom(packetids, queue, i, blocks, filler) == Ok([FillerBlock(filler)] + tail);
    PlacesFiller(packetids, imdata, m, i, blocks, filler, tail);
  }

  /** Putting a filler block for the missing id `i` in front of the blocks after it. */
  lemma PlacesFiller(packetids: seq<int>, imdata: seq<string>, m: nat, i: nat, blocks: nat, filler: string, tail: seq<string>)
    requires |packetids| == |imdata| && m <= |packetids| && i < blocks
    requires i !in packetids
    requires Places(packetids, imdata, m, i + 1, blocks, filler, tail)
    ensures Places(packetids, imdata, m, i, blocks, filler, [FillerBlock(filler)] + tail)
  {
    var r := [FillerBlock(filler)] + tail;
    forall k | m <= k < |packetids| && i <= packetids[k] < blocks
      ensures r[packetids[k] - i] == imdata[k]
    {
      assert packetids[k] != i;
      assert r[packetids[k] - i] == tail[packetids[k] - (i + 1)];
    }
    forall j | i <= j < blocks && j !in packetids
      ensures r[j - i] == FillerBlock(filler)
    {
      if j > i {
        assert r[j - i] == tail[j - (i + 1)];
      }
    }
  }

  // ------------------------------------------------------------- assembling

  /** The ids and payloads left once the packets are filtered, sorted and made unique. */
  function Chosen(fs: seq<Frame>): (seq<int>, seq<string>)
    requires |fs| > 0
  {
    var pairs := Sort(Tag(Retain(fs, Mode(Totals(fs)))));
    Dedup(Ids(pairs), Payloads(pairs))
  }

  /** `imfill`: one block of hex text per 248 bytes of the modal total. */
  function Imfill(fs: seq<Frame>, filler: string): Result<seq<string>>
    requires |fs| > 0
  {
    var chosen := Chosen(fs);
    FillFrom(chosen.0, chosen.1, 0, Blocks(Mode(Totals(fs))), filler)
  }

  /** `_readimage` once there is at least one packet of 512 characters. */
  function Reassemble(fs: seq<Frame>, filler: string): (r: Result<Assembly>)
    requires |fs| > 0
    ensures r.Ok? ==> r.value.Assembled?
  {
    var total := Mode(Totals(fs));
    var nummissing := |MissingIds(Chosen(fs).0)|;
    match Imfill(fs, filler)
    case Err(e) => Err(e)
    case Ok(imfill) =>
      match FromHex(Concat(imfill))
      case Err(e) => Err(e)
      case Ok(image) => Ok(Assembled(nummissing, image, nummissing * BlockBytes < total))
  }

  /** `_readimage(datapackets, savepath, filler)`: the bytes are written to `savepath` when `written`. */
  function ReadImageSpec(datapackets: seq<string>, filler: string): Result<Assembly> {
    match Frames(Long(datapackets))
    case Err(e) => Err(e)
    case Ok(fs) => if |fs| == 0 then Ok(NoFrames) else Reassemble(fs, filler)
  }

  /** `_readimage`, with the two loops run as written. */
  method ReadImage(datapackets: seq<string>, filler: string) returns (r: Result<Assembly>)
    ensures r == ReadImageSpec(datapackets, filler)
  {
    var frames := Frames(Long(datapackets));
    if frames.Err? {
      return Err(frames.error);
    }
    var fs := frames.value;
    if |fs| == 0 {
      return Ok(NoFrames);
    }
    var totalpackets := Mode(Totals(fs));
    var pairs := Sort(Tag(Retain(fs, totalpackets)));
    var unique := Unique2(Ids(pairs), Payloads(pairs));
    var packetids := unique.value.0;
    var imdata := unique.value.1;
    var nummissing := |MissingIds(packetids)|;
    var imfill := Fill(packetids, imdata, Blocks(totalpackets), filler);
    if imfill.Err? {
      return Err(imfill.error);
    }
    var imbytes := FromHex(Concat(imfill.value));
    if imbytes.Err? {
      return Err(imbytes.error);
    }
    return Ok(Assembled(nummissing, imbytes.value, nummissing * BlockBytes < totalpackets));
  }

  // ----------------------------------------------------------------- lemmas

  /** Reading the packets raises exactly when one of them has a header that is not hex. */
  lemma FramesFail(data: seq<string>)
    requires forall k :: 0 <= k < |data| ==> |data[k]| == FrameChars
    ensures Frames(data).Err? <==> exists k :: 0 <= k < |data| && ReadFrame(data[k]).Err?
  {
    var r := MapOrRaise(ReadFrame, data, 0);
    if r.Err? {
      var k :| 0 <= k < |data| && ReadFrame(data[k]).Err?;
    }
  }

  /**
   * The headers of a packet are the little-endian numbers of its first and
   * second four bytes; they raise exactly when those are not sixteen hex
   * digits.
   */
  lemma ReadFrameHeaders(data: string)
    requires |data| == FrameChars
    ensures ReadFrame(data).Ok? <==> AllHexAnyCase(data[0..8]) && AllHexAnyCase(data[8..16])
    ensures ReadFrame(data).Ok? ==>
      ReadFrame(data).value == Frame(LittleEndian(Unhexlify(data[0..8]).value), LittleEndian(Unhexlify(data[8..16]).value), data[16..])
  {
    HeaderBytes(data[0..8]);
    HeaderBytes(data[8..16]);
  }

  lemma HeaderBytes(h: string)
    requires |h| == 8
    ensures HeaderValue(h).Ok? <==> AllHexAnyCase(h)
    ensures HeaderValue(h).Ok? ==> HeaderValue(h).value == LittleEndian(Unhexlify(h).value)
  {
    UnhexlifyOk(h);
    if SwapHex(h).Ok? {
      SwapHexValue(h);
    }
  }

  /** `_readimage` returns False without writing exactly when no packet has 512 characters. */
  lemma NoFramesWhenShort(datapackets: seq<string>, filler: string)
    ensures ReadImageSpec(datapackets, filler) == Ok(NoFrames) <==>
      forall k :: 0 <= k < |datapackets| ==> |datapackets[k]| < FrameChars
  {
    var data := Long(datapackets);
    if |data| > 0 && Frames(data).Ok? {
      assert |Frames(data).value| > 0;
    }
  }

  /** The ids of a sorted list of tuples are in ascending order: they are `packetids.sort()`. */
  lemma IdsAscending(s: seq<Tagged>)
    requires Sorted(s)
    ensures forall i, j :: 0 <= i < j < |s| ==> Ids(s)[i] <= Ids(s)[j]
  {
  }

  /** `_unique2` on a list of tuples, one tuple at a time from the end. */
  lemma DedupLast(s: seq<Tagged>)
    requires |s| > 0
    ensures var n := |s| - 1;
      var prior := Dedup(Ids(s[..n]), Payloads(s[..n]));
      Dedup(Ids(s), Payloads(s)) ==
        if s[n].id in prior.0 then prior else (prior.0 + [s[n].id], prior.1 + [s[n].payload])
  {
    var n := |s| - 1;
    assert Ids(s)[..n] == Ids(s[..n]) && Payloads(s)[..n] == Payloads(s[..n]);
  }

  /** Kept tuples of a sorted list come no later than its last tuple. */
  lemma KeptBeforeLast(s: seq<Tagged>, r: (seq<int>, seq<string>))
    requires |s| > 0 && Sorted(s) && |r.0| == |r.1|
    requires forall k :: 0 <= k < |r.0| ==> Tagged(r.0[k], r.1[k]) in s[..|s| - 1]
    ensures forall k :: 0 <= k < |r.0| ==> r.0[k] <= s[|s| - 1].id
    ensures forall k :: 0 <= k < |r.0| && r.0[k] == s[|s| - 1].id ==> StrLe(r.1[k], s[|s| - 1].payload)
  {
    var n := |s| - 1;
    forall k | 0 <= k < |r.0|
      ensures TaggedLe(Tagged(r.0[k], r.1[k]), s[n])
    {
      var j :| 0 <= j < n && s[..n][j] == Tagged(r.0[k], r.1[k]);
      assert TaggedLe(s[j], s[n]);
    }
  }

  /** What `_unique2` keeps of a sorted list of tuples. */
  ghost predicate KeepsLeast(s: seq<Tagged>, r: (seq<int>, seq<string>)) {
    && |r.0| == |r.1|
    && Increasing(r.0)
    && (forall p :: p in s ==> p.id in r.0)
    && (forall k :: 0 <= k < |r.0| ==> Tagged(r.0[k], r.1[k]) in s)
    && (forall k, q :: 0 <= k < |r.0| && q in s && q.id == r.0[k] ==> StrLe(r.1[k], q.payload))
  }

  /** A last tuple whose id is already kept changes nothing. */
  lemma LastRepeated(s: seq<Tagged>, prior: (seq<int>, seq<string>))
    requires |s| > 0 && Sorted(s) && KeepsLeast(s[..|s| - 1], prior) && s[|s| - 1].id in prior.0
    ensures KeepsLeast(s, prior)
  {
    var n := |s| - 1;
    assert s == s[..n] + [s[n]];
    assert forall p :: p in s <==> p in s[..n] || p == s[n];
    KeptBeforeLast(s, prior);
  }

  /** A last tuple with a new id is kept, with the largest id so far. */
  lemma LastNew(s: seq<Tagged>, prior: (seq<int>, seq<string>))
    requires |s| > 0 && Sorted(s) && KeepsLeast(s[..|s| - 1], prior) && s[|s| - 1].id !in prior.0
    ensures KeepsLeast(s, (prior.0 + [s[|s| - 1].id], prior.1 + [s[|s| - 1].payload]))
  {
    var n := |s| - 1;
    var front, last := s[..n], s[n];
    assert s == front + [last];
    assert forall p :: p in s <==> p in front || p == last;
    KeptBeforeLast(s, prior);
    forall q | q in s && q.id == last.id
      ensures StrLe(last.payload, q.payload)
    {
      assert q !in front;
      StrLeTotal(q.payload, q.payload);
    }
  }

  /**
   * Made unique after sorting, the ids ascend strictly, every id of the list
   * stays, and each keeps the smallest payload the list pairs with it.
   */
  lemma {:induction false} DedupSorted(s: seq<Tagged>)
    requires Sorted(s)
    ensures KeepsLeast(s, Dedup(Ids(s), Payloads(s)))
    decreases |s|
  {
    if |s| > 0 {
      var n := |s| - 1;
      assert Sorted(s[..n]);
      DedupSorted(s[..n]);
      DedupLast(s);
      var prior := Dedup(Ids(s[..n]), Payloads(s[..n]));
      if s[n].id in prior.0 {
        LastRepeated(s, prior);
      } else {
        LastNew(s, prior);
      }
    }
  }

  /** Sorting keeps exactly the tuples it was given. */
  lemma SortMembers(t: seq<Tagged>)
    ensures Sorted(Sort(t))
    ensures forall p :: p in Sort(t) <==> p in t
  {
    SortSorted(t);
    assert forall p :: p in Sort(t) <==> p in multiset(Sort(t));
    assert forall p :: p in t <==> p in multiset(t);
  }

  /** The sorted, unique tuples of the retained packets. */
  lemma ChosenKeepsLeast(fs: seq<Frame>)
    requires |fs| > 0
    ensures KeepsLeast(Tag(Retain(fs, Mode(Totals(fs)))), Chosen(fs))
  {
    var tagged := Tag(Retain(fs, Mode(Totals(fs))));
    SortMembers(tagged);
    DedupSorted(Sort(tagged));
  }

  /** Every chosen id is that of a retained packet, paired with its payload. */
  lemma ChosenFromPackets(fs: seq<Frame>)
    requires |fs| > 0
    ensures var t := Mode(Totals(fs));
      var c := Chosen(fs);
      forall k :: 0 <= k < |c.0| ==> c.0[k] >= 0 && BlockBytes * c.0[k] <= t && Frame(t, BlockBytes * c.0[k], c.1[k]) in fs
  {
    var t := Mode(Totals(fs));
    var kept := Retain(fs, t);
    var c := Chosen(fs);
    ChosenKeepsLeast(fs);
    forall k | 0 <= k < |c.0|
      ensures c.0[k] >= 0 && BlockBytes * c.0[k] <= t && Frame(t, BlockBytes * c.0[k], c.1[k]) in fs
    {
      var j :| 0 <= j < |Tag(kept)| && Tag(kept)[j] == Tagged(c.0[k], c.1[k]);
      assert kept[j] in kept;
    }
  }

  /** Every retained packet's id is chosen. */
  lemma ChosenCovers(fs: seq<Frame>, f: Frame)
    requires |fs| > 0 && f in fs && Retained(f, Mode(Totals(fs)))
    ensures f.id / BlockBytes in Chosen(fs).0
  {
    var kept := Retain(fs, Mode(Totals(fs)));
    ChosenKeepsLeast(fs);
    var j :| 0 <= j < |kept| && kept[j] == f;
    assert Tag(kept)[j] in Tag(kept);
  }

  /** A chosen payload is no greater than the payload of any retained packet with the same id. */
  lemma ChosenLeast(fs: seq<Frame>, k: nat, f: Frame)
    requires |fs| > 0 && k < |Chosen(fs).0| && f in fs && Retained(f, Mode(Totals(fs)))
    requires f.id / BlockBytes == Chosen(fs).0[k]
    ensures StrLe(Chosen(fs).1[k], f.payload)
  {
    var kept := Retain(fs, Mode(Totals(fs)));
    ChosenKeepsLeast(fs);
    var j :| 0 <= j < |kept| && kept[j] == f;
    assert Tag(kept)[j] in Tag(kept);
  }

  /** Block `i` sits within the declared total, so a packet with id `i` passes the id filter. */
  lemma BlockWithinTotal(total: nat, i: nat)
    requires i < Blocks(total)
    ensures BlockBytes * i < total
  {
  }

  /**
   * Ids and payloads picked from the packets for a total: ascending ids of
   * packets that pass the filters, every such id, each with the smallest
   * payload among the packets that carry it.
   */
  ghost predicate Picks(fs: seq<Frame>, t: nat, c: (seq<int>, seq<string>)) {
    && |c.0| == |c.1| && Increasing(c.0)
    && (forall k :: 0 <= k < |c.0| ==> c.0[k] >= 0 && BlockBytes * c.0[k] <= t && Frame(t, BlockBytes * c.0[k], c.1[k]) in fs)
    && (forall f :: f in fs && Retained(f, t) ==> f.id / BlockBytes in c.0)
    && (forall k, f :: 0 <= k < |c.0| && f in fs && Retained(f, t) && f.id / BlockBytes == c.0[k] ==> StrLe(c.1[k], f.payload))
  }

  /** What the filters, the sort and `_unique2` pick. */
  lemma ChosenPicks(fs: seq<Frame>)
    requires |fs| > 0
    ensures Picks(fs, Mode(Totals(fs)), Chosen(fs))
  {
    ChosenKeepsLeast(fs);
    ChosenFromPackets(fs);
    forall f | f in fs && Retained(f, Mode(Totals(fs)))
      ensures f.id / BlockBytes in Chosen(fs).0
    {
      ChosenCovers(fs, f);
    }
    forall k, f | 0 <= k < |Chosen(fs).0| && f in fs && Retained(f, Mode(Totals(fs))) && f.id / BlockBytes == Chosen(fs).0[k]
      ensures StrLe(Chosen(fs).1[k], f.payload)
    {
      ChosenLeast(fs, k, f);
    }
  }

  /**
   * Block `i` of the image: the smallest payload among the packets with the
   * modal total and id `i`, or the filler block when there is none.
   */
  ghost predicate BlockOf(fs: seq<Frame>, total: nat, i: nat, block: string, filler: string) {
    if exists p :: Frame(total, BlockBytes * i, p) in fs then
      && Frame(total, BlockBytes * i, block) in fs
      && forall p :: Frame(total, BlockBytes * i, p) in fs ==> StrLe(block, p)
    else block == FillerBlock(filler)
  }

  /** A block some picked packet fills. */
  lemma BlockFound(fs: seq<Frame>, t: nat, c: (seq<int>, seq<string>), filler: string, k: nat)
    requires Picks(fs, t, c)
    requires k < |c.0| && 0 <= c.0[k] < Blocks(t)
    ensures var r := FillFrom(c.0, c.1, 0, Blocks(t), filler);
      r.Ok? && c.0[k] < |r.value| && BlockOf(fs, t, c.0[k], r.value[c.0[k]], filler)
  {
    var i: nat := c.0[k];
    FillBlocks(c.0, c.1, Blocks(t), filler);
    BlockWithinTotal(t, i);
    forall p | Frame(t, BlockBytes * i, p) in fs
      ensures StrLe(c.1[k], p)
    {
      assert Retained(Frame(t, BlockBytes * i, p), t);
    }
  }

  /** A block no picked packet fills: no retained packet carries its id. */
  lemma BlockMissing(fs: seq<Frame>, t: nat, c: (seq<int>, seq<string>), filler: string, i: nat)
    requires Picks(fs, t, c)
    requires i < Blocks(t) && i !in c.0
    ensures var r := FillFrom(c.0, c.1, 0, Blocks(t), filler);
      r.Ok? && i < |r.value| && BlockOf(fs, t, i, r.value[i], filler)
  {
    FillBlocks(c.0, c.1, Blocks(t), filler);
    BlockWithinTotal(t, i);
    forall p | Frame(t, BlockBytes * i, p) in fs
      ensures false
    {
      assert Retained(Frame(t, BlockBytes * i, p), t);
    }
  }

  /** One block of the image. */
  lemma BlockAt(fs: seq<Frame>, t: nat, c: (seq<int>, seq<string>), filler: string, i: nat)
    requires Picks(fs, t, c)
    requires i < Blocks(t)
    ensures var r := FillFrom(c.0, c.1, 0, Blocks(t), filler);
      r.Ok? && i < |r.value| && BlockOf(fs, t, i, r.value[i], filler)
  {
    if i in c.0 {
      var k :| 0 <= k < |c.0| && c.0[k] == i;
      BlockFound(fs, t, c, filler, k);
    } else {
      BlockMissing(fs, t, c, filler, i);
    }
  }

  /**
   * The image text is `ceil(total / 248)` blocks, each the block `BlockOf`
   * describes; filling never runs out of payloads.
   */
  lemma ImageBlocks(fs: seq<Frame>, filler: string)
    requires |fs| > 0
    ensures Imfill(fs, filler).Ok? && |Imfill(fs, filler).value| == Blocks(Mode(Totals(fs)))
    ensures forall i :: 0 <= i < Blocks(Mode(Totals(fs))) ==>
      BlockOf(fs, Mode(Totals(fs)), i, Imfill(fs, filler).value[i], filler)
  {
    var t := Mode(Totals(fs));
    var c := Chosen(fs);
    ChosenPicks(fs);
    FillBlocks(c.0, c.1, Blocks(t), filler);
    forall i | 0 <= i < Blocks(t)
      ensures BlockOf(fs, t, i, FillFrom(c.0, c.1, 0, Blocks(t), filler).value[i], filler)
    {
      BlockAt(fs, t, c, filler, i);
    }
  }

  // ------------------------------------------------------- the missing count

  /**
   * Over ascending ids from 0 up, nothing is reported missing exactly when the
   * ids are `0, 1, ..., n - 1`.
   */
  lemma NothingMissingIff(ids: seq<int>)
    requires Increasing(ids) && forall k :: 0 <= k < |ids| ==> ids[k] >= 0
    ensures |MissingIds(ids)| == 0 <==> forall k :: 0 <= k < |ids| ==> ids[k] == k
  {
    if |MissingIds(ids)| == 0 {
      NoGapsFrom(ids, |ids|);
    } else {
      var x := MissingIds(ids)[0];
      assert x in MissingIds(ids);
      assert ids[x] != x;
    }
  }

  lemma {:induction false} NoGapsFrom(ids: seq<int>, n: nat)
    requires Increasing(ids) && forall k :: 0 <= k < |ids| ==> ids[k] >= 0
    requires n <= |ids| && forall x :: 0 <= x < |ids| ==> x in ids
    ensures forall k :: 0 <= k < n ==> ids[k] == k
    decreases n
  {
    if n > 0 {
      NoGapsFrom(ids, n - 1);
      var k := n - 1;
      assert k in ids;
      var j :| 0 <= j < |ids| && ids[j] == k;
      AtLeastIndex(ids, j);
      assert !(j < k);
    }
  }

  /** Ascending ids from 0 up are never below their position. */
  lemma {:induction false} AtLeastIndex(ids: seq<int>, k: nat)
    requires Increasing(ids) && forall i :: 0 <= i < |ids| ==> ids[i] >= 0
    requires k < |ids|
    ensures ids[k] >= k
    decreases k
  {
    if k > 0 {
      AtLeastIndex(ids, k - 1);
    }
  }

  /** No id is chosen exactly when no packet passes the filters. */
  lemma ChosenNoneIff(fs: seq<Frame>)
    requires |fs| > 0
    ensures |Chosen(fs).0| == 0 <==> forall f :: f in fs ==> !Retained(f, Mode(Totals(fs)))
  {
    ChosenPicks(fs);
    PicksNoneIff(fs, Mode(Totals(fs)), Chosen(fs));
  }

  lemma PicksNoneIff(fs: seq<Frame>, t: nat, c: (seq<int>, seq<string>))
    requires Picks(fs, t, c)
    ensures |c.0| == 0 <==> forall f :: f in fs ==> !Retained(f, t)
  {
    if |c.0| > 0 {
      assert Retained(Frame(t, BlockBytes * c.0[0], c.1[0]), t);
    } else {
      assert forall f :: f in fs ==> !Retained(f, t);
    }
  }

  /**
   * When no packet passes the filters yet the modal total is positive, no id
   * is reported missing, so the call writes an image made only of filler and
   * returns True; with a total of 0 it writes nothing.
   */
  lemma NoneRetainedWritten(fs: seq<Frame>, filler: string)
    requires |fs| > 0
    requires forall f :: f in fs ==> !Retained(f, Mode(Totals(fs)))
    ensures Imfill(fs, filler).Ok?
    ensures forall i :: 0 <= i < |Imfill(fs, filler).value| ==> Imfill(fs, filler).value[i] == FillerBlock(filler)
    ensures Reassemble(fs, filler).Ok? ==>
      Reassemble(fs, filler).value.nummissing == 0 && (Reassemble(fs, filler).value.written <==> Mode(Totals(fs)) > 0)
  {
    ChosenNoneIff(fs);
    FillBlocks(Chosen(fs).0, Chosen(fs).1, Blocks(Mode(Totals(fs))), filler);
  }

  // ----------------------------------------------------------- the bytes

  /** The join of `bytes.fromhex`: pieces of 496 hex digits decode to 248 bytes each, in order. */
  lemma {:induction false} BlocksDecode(blocks: seq<string>)
    requires forall k :: 0 <= k < |blocks| ==> |blocks[k]| == 2 * BlockBytes && AllHexAnyCase(blocks[k])
    ensures forall k :: 0 <= k < |blocks| ==> Unhexlify(blocks[k]).Ok?
    ensures AllHexAnyCase(Concat(blocks)) && Unhexlify(Concat(blocks)).Ok?
    ensures |Unhexlify(Concat(blocks)).value| == BlockBytes * |blocks|
    ensures forall k :: 0 <= k < |blocks| ==>
      Unhexlify(Concat(blocks)).value[BlockBytes * k..BlockBytes * (k + 1)] == Unhexlify(blocks[k]).value
    decreases |blocks|
  {
    forall k | 0 <= k < |blocks|
      ensures Unhexlify(blocks[k]).Ok?
    {
      UnhexlifyOk(blocks[k]);
    }
    if |blocks| == 0 {
      UnhexlifyOk([]);
    } else {
      var n := |blocks| - 1;
      var front, last := blocks[..n], blocks[n];
      BlocksDecode(front);
      var a, b := Concat(front), last;
      assert Concat(blocks) == a + b;
      assert AllHexAnyCase(a + b) by {
        assert forall i :: 0 <= i < |a + b| ==> (a + b)[i] == if i < |a| then a[i] else b[i - |a|];
      }
      UnhexlifyAppend(a, b);
      var image := Unhexlify(a + b).value;
      var ia := Unhexlify(a).value;
      assert image == ia + Unhexlify(b).value;
      forall k | 0 <= k < |blocks|
        ensures image[BlockBytes * k..BlockBytes * (k + 1)] == Unhexlify(blocks[k]).value
      {
        if k < n {
          assert image[BlockBytes * k..BlockBytes * (k + 1)] == ia[BlockBytes * k..BlockBytes * (k + 1)];
        } else {
          assert image[BlockBytes * k..BlockBytes * (k + 1)] == Unhexlify(b).value;
        }
      }
    }
  }

  /** Hex text repeated stays hex. */
  lemma {:induction false} RepeatHex(s: string, k: int)
    requires AllHexAnyCase(s)
    ensures AllHexAnyCase(Repeat(s, k))
    decreases k
  {
    if k > 0 {
      RepeatHex(s, k - 1);
      var r := Repeat(s, k - 1);
      assert forall i :: 0 <= i < |s + r| ==> (s + r)[i] == if i < |s| then s[i] else r[i - |s|];
    }
  }

  /** Blocks of hex text when the filler and the payloads that pass the filters are hex. */
  lemma BlocksHex(fs: seq<Frame>, t: nat, blocks: seq<string>, filler: string)
    requires |filler| == 2 && AllHexAnyCase(filler)
    requires forall f :: f in fs && Retained(f, t) ==> |f.payload| == 2 * BlockBytes && AllHexAnyCase(f.payload)
    requires |blocks| == Blocks(t) && forall i :: 0 <= i < |blocks| ==> BlockOf(fs, t, i, blocks[i], filler)
    ensures forall i :: 0 <= i < |blocks| ==> |blocks[i]| == 2 * BlockBytes && AllHexAnyCase(blocks[i])
  {
    RepeatHex(filler, BlockBytes);
    forall i | 0 <= i < |blocks|
      ensures |blocks[i]| == 2 * BlockBytes && AllHexAnyCase(blocks[i])
    {
      if exists p :: Frame(t, BlockBytes * i, p) in fs {
        BlockWithinTotal(t, i);
        assert Retained(Frame(t, BlockBytes * i, blocks[i]), t);
      }
    }
  }

  /**
   * With a two-digit hex filler and hex payloads in the packets that pass the
   * filters, the image is built without error: 248 bytes per block, block `i`
   * decoded from the text `BlockOf` describes.
   */
  lemma ImageBytes(fs: seq<Frame>, filler: string)
    requires |fs| > 0
    requires |filler| == 2 && AllHexAnyCase(filler)
    requires forall f :: f in fs && Retained(f, Mode(Totals(fs))) ==> |f.payload| == 2 * BlockBytes && AllHexAnyCase(f.payload)
    ensures Imfill(fs, filler).Ok? && |Imfill(fs, filler).value| == Blocks(Mode(Totals(fs)))
    ensures Reassemble(fs, filler).Ok? && |Reassemble(fs, filler).value.image| == BlockBytes * Blocks(Mode(Totals(fs)))
    ensures forall i :: 0 <= i < Blocks(Mode(Totals(fs))) ==>
      Unhexlify(Imfill(fs, filler).value[i]).Ok? &&
      Reassemble(fs, filler).value.image[BlockBytes * i..BlockBytes * (i + 1)] == Unhexlify(Imfill(fs, filler).value[i]).value
  {
    ImageBlocks(fs, filler);
    var blocks := Imfill(fs, filler).value;
    BlocksHex(fs, Mode(Totals(fs)), blocks, filler);
    BlocksDecode(blocks);
    FromHexUnhexlify(Concat(blocks));
  }
}
