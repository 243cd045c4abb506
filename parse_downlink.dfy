/**
 * `ParseDownlink._parse`: cleaning a beacon string, recognising the
 * acknowledgement message, cutting a flight-mode beacon into its subsystem
 * sections and compiling the decoded sections into one ordered record; and the
 * `ParseDownlink` object that holds the last error message and record.
 */
module Dispatcher {

  import opened Wrappers
  import opened PyText
  import opened PyInt
  import opened Normaliser
  import HexCodec
  import opened ByteCursor
  import ByteCursorFacts
  import opened Schemas
  import SchemaFacts
  import opened OrderedDict

  // ------------------------------------------------------------ constants

  /** `packetlens`: the tokens of each subsystem section of a beacon. */
  const EpsLength: nat := 116
  const BatteryLength: nat := 15
  const VutrxLength: nat := 28
  const AntsLength: nat := 4
  const StxLength: nat := 22

  /** Token counts of the flight mode 1 and flight mode 2 second beacons. */
  const FirstBeaconLength: nat := 163
  const SecondBeaconLength: nat := 185

  /** The text the ground station answers with when commanded. */
  const AckMessage: string := "Gator Nation Is Everywhere! From SwampSat II"

  /** The byte pairs whose join marks an acknowledgement anywhere in a string. */
  const AckPairs: seq<string> := [
    "47", "61", "74", "6f", "72", "20", "4e", "61",
    "74", "69", "6f", "6e", "20", "49", "73", "20",
    "45", "76", "65", "72", "79", "77", "68", "65",
    "72", "65", "21", "20", "46", "72", "6f", "6d",
    "20", "53", "77", "61", "6d", "70", "53", "61",
    "74", "20", "49", "49"]

  const NotBeaconMessage: string := "\t\t  Not a valid SS2 beacon"

  /** Cut lengths and layouts of the two beacons: all but the last section have a fixed length. */
  const FirstBeaconCuts: seq<nat> := [EpsLength, BatteryLength, VutrxLength]
  const SecondBeaconCuts: seq<nat> := [EpsLength, BatteryLength, VutrxLength, AntsLength]

  /** The schema decoders `_parse` calls, each given by its layout. */
  datatype Catalogue = Catalogue(eps: seq<Step>, battery: seq<Step>, vutrx: seq<Step>, ants: seq<Step>, stx: seq<Step>)

  /** `_eps`, `_battery`, `_vutrx`, `_ants` and `_stx`. */
  const SwampSat2: Catalogue := Catalogue(EpsLayout, BatteryLayout, VutrxLayout, AntsLayout, StxLayout)

  /** The layouts of the flight mode 1 sections in order; flight mode 2 adds the stx one. */
  function FirstLayouts(c: Catalogue): seq<seq<Step>> {
    [c.eps, c.battery, c.vutrx, c.ants]
  }

  function SecondLayouts(c: Catalogue): seq<seq<Step>> {
    [c.eps, c.battery, c.vutrx, c.ants, c.stx]
  }

  // ------------------------------------------------------------ the record

  /** The acknowledgement record, assigned key by key into a new dictionary. */
  function AckRecord(now: string): seq<Entry> {
    Update([], [
      Entry("timestamp", Text(now)),
      Entry("msgtype", Int(0)),
      Entry("messagenum", Int(1)),
      Entry("messagetotal", Int(1)),
      Entry("message", Text(AckMessage))])
  }

  /** The header a beacon record starts with. */
  function Header(now: string, msgtype: int): seq<Entry> {
    Update([], [
      Entry("timestamp", Text(now)),
      Entry("msgtype", Int(msgtype)),
      Entry("messagenum", Int(2)),
      Entry("messagetotal", Int(2))])
  }

  // ------------------------------------------------------------ the sections

  /**
   * The list slices of a beacon: one section per cut length, each starting
   * where the previous one ended (clamped to the list as Python clamps a
   * slice), and a last section holding the rest.
   */
  function Cut(tokens: seq<string>, lengths: seq<nat>): (r: seq<seq<string>>)
    ensures |r| == |lengths| + 1
    decreases |lengths|
  {
    if |lengths| == 0 then [tokens]
    else
      var n := Min(lengths[0], |tokens|);
      [tokens[..n]] + Cut(tokens[n..], lengths[1..])
  }

  /** The sections joined back together. */
  function Join(sections: seq<seq<string>>): seq<string>
    decreases |sections|
  {
    if |sections| == 0 then [] else sections[0] + Join(sections[1..])
  }

  function Sum(ns: seq<nat>): nat
    decreases |ns|
  {
    if |ns| == 0 then 0 else ns[0] + Sum(ns[1..])
  }

  /** The schema decoders in order on their sections; the first exception ends the parse. */
  function DecodeSections(sections: seq<seq<string>>, layouts: seq<seq<Step>>): (r: Result<seq<seq<Entry>>>)
    requires |sections| == |layouts|
    ensures r.Ok? ==> |r.value| == |layouts|
    decreases |layouts|
  {
    if |layouts| == 0 then Ok([])
    else
      match Run(sections[0], layouts[0])
      case Err(e) => Err(e)
      case Ok(d) =>
        match DecodeSections(sections[1..], layouts[1..])
        case Err(e) => Err(e)
        case Ok(ds) => Ok([d] + ds)
  }

  /** The record compiled from the decoded sections: the header updated with each in turn. */
  function Compile(decoded: Result<seq<seq<Entry>>>, now: string, msgtype: int): Result<seq<Entry>> {
    match decoded
    case Err(e) => Err(e)
    case Ok(ds) => Ok(UpdateAll(Header(now, msgtype), ds))
  }

  /** A beacon: its sections decoded and compiled. */
  function Beacon(tokens: seq<string>, now: string, msgtype: int, cuts: seq<nat>, layouts: seq<seq<Step>>): Result<seq<Entry>>
    requires |cuts| + 1 == |layouts|
  {
    Compile(DecodeSections(Cut(tokens, cuts), layouts), now, msgtype)
  }

  // ------------------------------------------------------------ the dispatch

  /** The two attributes `_parse` sets: the error message and the compiled record. */
  datatype Outcome = Outcome(errmsg: string, data: seq<Entry>)

  /** A new object before it parses anything. */
  const Fresh: Outcome := Outcome("", [])

  /**
   * `_parse` on an object whose attributes are `prior`, with `now` the
   * timestamp it formats and `c` the schema decoders it calls: the new
   * attributes, or the exception a schema decoder raised (which leaves the
   * attributes as they were).
   */
  function ParseWith(hexstr: string, dlim: string, now: string, prior: Outcome, c: Catalogue): Result<Outcome> {
    var (tokens, msg) := CleanInput(hexstr, dlim);
    var next: Result<Outcome> :=
      if |tokens| == 0 then Ok(Outcome(msg, prior.data))
      else if Contains(Concat(tokens), Concat(AckPairs)) then Ok(Outcome(prior.errmsg, AckRecord(now)))
      else if |tokens| == FirstBeaconLength then
        match Beacon(tokens, now, 3, FirstBeaconCuts, FirstLayouts(c))
        case Err(e) => Err(e)
        case Ok(d) => Ok(Outcome(prior.errmsg, d))
      else if |tokens| == SecondBeaconLength then
        match Beacon(tokens, now, 4, SecondBeaconCuts, SecondLayouts(c))
        case Err(e) => Err(e)
        case Ok(d) => Ok(Outcome(prior.errmsg, d))
      else Ok(Outcome(NotBeaconMessage, prior.data));
    match next
    case Err(e) => Err(e)
    case Ok(o) => Ok(if o.errmsg != "" then Outcome(o.errmsg, []) else o)
  }

  /** `_parse` with the SwampSat II decoders. */
  function ParseSpec(hexstr: string, dlim: string, now: string, prior: Outcome): Result<Outcome> {
    ParseWith(hexstr, dlim, now, prior, SwampSat2)
  }

  /** `ParseDownlink.parse`: the record a new object compiles. */
  function ParseRecord(hexstr: string, dlim: string, now: string): Result<seq<Entry>> {
    match ParseSpec(hexstr, dlim, now, Fresh)
    case Err(e) => Err(e)
    case Ok(o) => Ok(o.data)
  }

  class ParseDownlink {
    var errmsg: string
    var compileddata: seq<Entry>

    /** The attribute initialisation of `__init__`. */
    constructor Init()
      ensures errmsg == "" && compileddata == []
    {
      errmsg := "";
      compileddata := [];
    }

    /** `__init__`: a new object that parses `hexstr` at once; a decoder's exception escapes. */
    static method Create(hexstr: string, dlim: string, now: string) returns (r: Result<ParseDownlink>)
      ensures match ParseSpec(hexstr, dlim, now, Fresh)
        case Err(e) => r == Err(e)
        case Ok(o) => r.Ok? && fresh(r.value) && r.value.errmsg == o.errmsg && r.value.compileddata == o.data
    {
      var obj := new ParseDownlink.Init();
      var data := obj.Parse(hexstr, dlim, now);
      if data.Err? {
        return Err(data.error);
      }
      r := Ok(obj);
    }

    /** `ParseDownlink.parse`. */
    static method ParseOnce(hexstr: string, dlim: string, now: string) returns (r: Result<seq<Entry>>)
      ensures r == ParseRecord(hexstr, dlim, now)
    {
      var obj := Create(hexstr, dlim, now);
      if obj.Err? {
        return Err(obj.error);
      }
      r := Ok(obj.value.compileddata);
    }

    /** `_parse`, with each schema decoder on a cursor over its own section. */
    method Parse(hexstr: string, dlim: string, now: string) returns (r: Result<seq<Entry>>)
      modifies this
      ensures match ParseSpec(hexstr, dlim, now, old(Outcome(errmsg, compileddata)))
        case Err(e) => r == Err(e) && errmsg == old(errmsg) && compileddata == old(compileddata)
        case Ok(o) => r == Ok(compileddata) && errmsg == o.errmsg && compileddata == o.data
    {
      var (tokens, msg) := CleanInput(hexstr, dlim);
      if |tokens| == 0 {
        errmsg := msg;
      } else if Contains(Concat(tokens), Concat(AckPairs)) {
        compileddata := AckRecord(now);
      } else if |tokens| == FirstBeaconLength {
        var data := FirstBeacon(tokens, now);
        if data.Err? { return Err(data.error); }
        compileddata := data.value;
      } else if |tokens| == SecondBeaconLength {
        var data := SecondBeacon(tokens, now);
        if data.Err? { return Err(data.error); }
        compileddata := data.value;
      } else {
        errmsg := NotBeaconMessage;
      }
      if errmsg != "" {
        compileddata := [];
      }
      r := Ok(compileddata);
    }
  }

  /** The flight mode 1 branch of `_parse`: four sections decoded, then compiled under header 3. */
  method FirstBeacon(tokens: seq<string>, now: string) returns (r: Result<seq<Entry>>)
    ensures r == Beacon(tokens, now, 3, FirstBeaconCuts, FirstLayouts(SwampSat2))
  {
    r := CompileFour(Cut(tokens, FirstBeaconCuts), now, 3, EpsLayout, BatteryLayout, VutrxLayout, AntsLayout);
  }

  /** The flight mode 2 branch of `_parse`: five sections decoded, then compiled under header 4. */
  method SecondBeacon(tokens: seq<string>, now: string) returns (r: Result<seq<Entry>>)
    ensures r == Beacon(tokens, now, 4, SecondBeaconCuts, SecondLayouts(SwampSat2))
  {
    r := CompileFive(Cut(tokens, SecondBeaconCuts), now, 4, EpsLayout, BatteryLayout, VutrxLayout, AntsLayout, StxLayout);
  }

  /**
   * The body of a beacon branch, with the schema decoders it calls given by
   * their layouts: each section decoded in turn, then the header updated with
   * each result.
   */
  method CompileFour(sections: seq<seq<string>>, now: string, msgtype: int, l0: seq<Step>, l1: seq<Step>, l2: seq<Step>, l3: seq<Step>)
    returns (r: Result<seq<Entry>>)
    requires |sections| == 4
    ensures r == Compile(DecodeSections(sections, [l0, l1, l2, l3]), now, msgtype)
  {
    var decoded := DecodeFour(sections, l0, l1, l2, l3);
    if decoded.Err? {
      return Err(decoded.error);
    }
    var ds := decoded.value;
    var data := Header(now, msgtype);
    assert ds[0..] == ds;
    UpdateAllFrom(data, ds, 0);
    data := Update(data, ds[0]);
    UpdateAllFrom(data, ds, 1);
    data := Update(data, ds[1]);
    UpdateAllFrom(data, ds, 2);
    data := Update(data, ds[2]);
    UpdateAllFrom(data, ds, 3);
    data := Update(data, ds[3]);
    assert ds[4..] == [];
    r := Ok(data);
  }

  /** `CompileFour` with a fifth section, the stx one, decoded last and added last. */
  method CompileFive(sections: seq<seq<string>>, now: string, msgtype: int, l0: seq<Step>, l1: seq<Step>, l2: seq<Step>, l3: seq<Step>, l4: seq<Step>)
    returns (r: Result<seq<Entry>>)
    requires |sections| == 5
    ensures r == Compile(DecodeSections(sections, [l0, l1, l2, l3, l4]), now, msgtype)
  {
    assert sections == sections[..4] + sections[4..];
    assert [l0, l1, l2, l3, l4] == [l0, l1, l2, l3] + [l4];
    DecodeAppend(sections[..4], [l0, l1, l2, l3], sections[4..], [l4]);
    var decoded := DecodeFour(sections[..4], l0, l1, l2, l3);
    if decoded.Err? {
      return Err(decoded.error);
    }
    var last := DecodeSection(sections[4], l4);
    assert sections[4..][0] == sections[4];
    assert [l4][1..] == [] && sections[4..][1..] == [];
    if last.Err? {
      return Err(last.error);
    }
    assert DecodeSections(sections[4..], [l4]) == Ok([last.value]) by {
      assert [last.value] + [] == [last.value];
    }
    var ds := decoded.value + [last.value];
    var data := Header(now, msgtype);
    assert ds[0..] == ds;
    UpdateAllFrom(data, ds, 0);
    data := Update(data, ds[0]);
    UpdateAllFrom(data, ds, 1);
    data := Update(data, ds[1]);
    UpdateAllFrom(data, ds, 2);
    data := Update(data, ds[2]);
    UpdateAllFrom(data, ds, 3);
    data := Update(data, ds[3]);
    UpdateAllFrom(data, ds, 4);
    data := Update(data, ds[4]);
    assert ds[5..] == [];
    r := Ok(data);
  }

  /** `epsdata = self._eps(epslist)` and the three calls after it, in order; the first exception escapes. */
  method DecodeFour(sections: seq<seq<string>>, l0: seq<Step>, l1: seq<Step>, l2: seq<Step>, l3: seq<Step>)
    returns (r: Result<seq<seq<Entry>>>)
    requires |sections| == 4
    ensures r == DecodeSections(sections, [l0, l1, l2, l3])
  {
    var layouts := [l0, l1, l2, l3];
    var d0 := DecodeSection(sections[0], l0);
    if d0.Err? { FirstFailure(sections, layouts, 0); return Err(d0.error); }
    var d1 := DecodeSection(sections[1], l1);
    if d1.Err? { FirstFailure(sections, layouts, 1); return Err(d1.error); }
    var d2 := DecodeSection(sections[2], l2);
    if d2.Err? { FirstFailure(sections, layouts, 2); return Err(d2.error); }
    var d3 := DecodeSection(sections[3], l3);
    if d3.Err? { FirstFailure(sections, layouts, 3); return Err(d3.error); }
    AllDecoded(sections, layouts, [d0.value, d1.value, d2.value, d3.value]);
    r := Ok([d0.value, d1.value, d2.value, d3.value]);
  }

  /** Two runs of decoders one after the other: the first exception, or both lists of results. */
  function Then(a: Result<seq<seq<Entry>>>, b: Result<seq<seq<Entry>>>): Result<seq<seq<Entry>>> {
    match a
    case Err(e) => Err(e)
    case Ok(x) =>
      match b
      case Err(e) => Err(e)
      case Ok(y) => Ok(x + y)
  }

  /** Decoding two runs of sections is decoding the first, then the second. */
  lemma {:induction false} DecodeAppend(s1: seq<seq<string>>, l1: seq<seq<Step>>, s2: seq<seq<string>>, l2: seq<seq<Step>>)
    requires |s1| == |l1| && |s2| == |l2|
    ensures DecodeSections(s1 + s2, l1 + l2) == Then(DecodeSections(s1, l1), DecodeSections(s2, l2))
    decreases |s1|
  {
    if |s1| == 0 {
      assert s1 + s2 == s2 && l1 + l2 == l2;
      var b := DecodeSections(s2, l2);
      if b.Ok? {
        assert [] + b.value == b.value;
      }
    } else {
      assert (s1 + s2)[1..] == s1[1..] + s2 && (l1 + l2)[1..] == l1[1..] + l2;
      assert (s1 + s2)[0] == s1[0] && (l1 + l2)[0] == l1[0];
      DecodeAppend(s1[1..], l1[1..], s2, l2);
      var head := Run(s1[0], l1[0]);
      var rest := DecodeSections(s1[1..], l1[1..]);
      var b := DecodeSections(s2, l2);
      if head.Ok? && rest.Ok? && b.Ok? {
        assert [head.value] + (rest.value + b.value) == ([head.value] + rest.value) + b.value;
      }
    }
  }

  /** A schema decoder (`_eps`, `_battery`, ...) on a new cursor over one section. */
  method DecodeSection(section: seq<string>, layout: seq<Step>) returns (r: Result<seq<Entry>>)
    ensures r == Run(section, layout)
  {
    var c := new Cursor(section);
    r := Schemas.Decode(c, layout);
  }

  /** Decoding stops at the first section whose decoder raises, with that exception. */
  lemma {:induction false} FirstFailure(sections: seq<seq<string>>, layouts: seq<seq<Step>>, i: nat)
    requires |sections| == |layouts| && i < |layouts|
    requires forall j :: 0 <= j < i ==> Run(sections[j], layouts[j]).Ok?
    requires Run(sections[i], layouts[i]).Err?
    ensures DecodeSections(sections, layouts) == Err(Run(sections[i], layouts[i]).error)
    decreases i
  {
    if i > 0 {
      var s1, l1 := sections[1..], layouts[1..];
      forall j | 0 <= j < i - 1
        ensures Run(s1[j], l1[j]).Ok?
      {
        assert s1[j] == sections[j + 1] && l1[j] == layouts[j + 1];
      }
      assert s1[i - 1] == sections[i] && l1[i - 1] == layouts[i];
      assert Run(sections[0], layouts[0]).Ok?;
      FirstFailure(s1, l1, i - 1);
    }
  }

  /** Every section decoded gives the list of their entries, in order. */
  lemma {:induction false} AllDecoded(sections: seq<seq<string>>, layouts: seq<seq<Step>>, ds: seq<seq<Entry>>)
    requires |sections| == |layouts| == |ds|
    requires forall j :: 0 <= j < |ds| ==> Run(sections[j], layouts[j]) == Ok(ds[j])
    ensures DecodeSections(sections, layouts) == Ok(ds)
    decreases |ds|
  {
    if |ds| > 0 {
      AllDecoded(sections[1..], layouts[1..], ds[1..]);
      assert [ds[0]] + ds[1..] == ds;
    }
  }


  // ------------------------------------------------------------ properties

  /** The acknowledgement pairs spell the acknowledgement text, one character per pair. */
  lemma AckPairsSpellMessage()
    ensures |AckPairs| == |AckMessage|
    ensures forall i :: 0 <= i < |AckMessage| ==> AckMessage[i] as int < 256 && AckPairs[i] == HexCodec.HexPair(AckMessage[i] as int)
  {
    AckPairsSpell0();
    AckPairsSpell1();
    AckPairsSpell2();
    AckPairsSpell3();
    AckPairsSpell4();
    AckPairsSpell5();
    AckPairsSpell6();
    AckPairsSpell7();
  }

  lemma AckPairsSpell0()
    ensures forall i :: 0 <= i < 6 ==> AckMessage[i] as int < 256 && AckPairs[i] == HexCodec.HexPair(AckMessage[i] as int)
  {
  }

  lemma AckPairsSpell1()
    ensures forall i :: 6 <= i < 11 ==> AckMessage[i] as int < 256 && AckPairs[i] == HexCodec.HexPair(AckMessage[i] as int)
  {
  }

  lemma AckPairsSpell2()
    ensures forall i :: 11 <= i < 17 ==> AckMessage[i] as int < 256 && AckPairs[i] == HexCodec.HexPair(AckMessage[i] as int)
  {
  }

  lemma AckPairsSpell3()
    ensures forall i :: 17 <= i < 22 ==> AckMessage[i] as int < 256 && AckPairs[i] == HexCodec.HexPair(AckMessage[i] as int)
  {
  }

  lemma AckPairsSpell4()
    ensures forall i :: 22 <= i < 28 ==> AckMessage[i] as int < 256 && AckPairs[i] == HexCodec.HexPair(AckMessage[i] as int)
  {
  }

  lemma AckPairsSpell5()
    ensures forall i :: 28 <= i < 33 ==> AckMessage[i] as int < 256 && AckPairs[i] == HexCodec.HexPair(AckMessage[i] as int)
  {
  }

  lemma AckPairsSpell6()
    ensures forall i :: 33 <= i < 39 ==> AckMessage[i] as int < 256 && AckPairs[i] == HexCodec.HexPair(AckMessage[i] as int)
  {
  }

  lemma AckPairsSpell7()
    ensures forall i :: 39 <= i < 44 ==> AckMessage[i] as int < 256 && AckPairs[i] == HexCodec.HexPair(AckMessage[i] as int)
  {
  }

  /** The acknowledgement record holds its five keys once each, in assignment order. */
  lemma AckRecordEntries(now: string)
    ensures AckRecord(now) == [
      Entry("timestamp", Text(now)),
      Entry("msgtype", Int(0)),
      Entry("messagenum", Int(1)),
      Entry("messagetotal", Int(1)),
      Entry("message", Text(AckMessage))]
  {
    var es := [
      Entry("timestamp", Text(now)),
      Entry("msgtype", Int(0)),
      Entry("messagenum", Int(1)),
      Entry("messagetotal", Int(1)),
      Entry("message", Text(AckMessage))];
    assert Keys([]) + Keys(es) == ["timestamp", "msgtype", "messagenum", "messagetotal", "message"];
    UpdateFresh([], es);
  }

  /** A beacon record starts with its four header keys, once each. */
  lemma HeaderEntries(now: string, msgtype: int)
    ensures Header(now, msgtype) == [
      Entry("timestamp", Text(now)),
      Entry("msgtype", Int(msgtype)),
      Entry("messagenum", Int(2)),
      Entry("messagetotal", Int(2))]
  {
    var es := [
      Entry("timestamp", Text(now)),
      Entry("msgtype", Int(msgtype)),
      Entry("messagenum", Int(2)),
      Entry("messagetotal", Int(2))];
    assert Keys([]) + Keys(es) == ["timestamp", "msgtype", "messagenum", "messagetotal"];
    UpdateFresh([], es);
  }

  /** The sections join back into the token list they were cut from. */
  lemma {:induction false} CutJoin(tokens: seq<string>, lengths: seq<nat>)
    ensures Join(Cut(tokens, lengths)) == tokens
    decreases |lengths|
  {
    if |lengths| == 0 {
      assert Join([tokens]) == tokens + Join([]);
    } else {
      var n := Min(lengths[0], |tokens|);
      CutJoin(tokens[n..], lengths[1..]);
      var r := Cut(tokens, lengths);
      assert r[1..] == Cut(tokens[n..], lengths[1..]);
      assert tokens[..n] + tokens[n..] == tokens;
    }
  }

  /** When the list is long enough, every cut section has its length and the last holds the rest. */
  lemma {:induction false} CutLengths(tokens: seq<string>, lengths: seq<nat>)
    requires Sum(lengths) <= |tokens|
    ensures forall i :: 0 <= i < |lengths| ==> |Cut(tokens, lengths)[i]| == lengths[i]
    ensures |Cut(tokens, lengths)[|lengths|]| == |tokens| - Sum(lengths)
    decreases |lengths|
  {
    if |lengths| > 0 {
      var n := lengths[0];
      CutLengths(tokens[n..], lengths[1..]);
      var r := Cut(tokens, lengths);
      assert r[1..] == Cut(tokens[n..], lengths[1..]);
      forall i | 1 <= i < |lengths|
        ensures |r[i]| == lengths[i]
      {
        assert r[i] == r[1..][i - 1];
      }
    }
  }

  /** Sections of byte tokens are byte tokens. */
  lemma {:induction false} CutBytes(tokens: seq<string>, lengths: seq<nat>)
    requires ByteCursorFacts.AllBytes(tokens)
    ensures forall i :: 0 <= i < |Cut(tokens, lengths)| ==> ByteCursorFacts.AllBytes(Cut(tokens, lengths)[i])
    decreases |lengths|
  {
    if |lengths| > 0 {
      var n := Min(lengths[0], |tokens|);
      CutBytes(tokens[n..], lengths[1..]);
      var r := Cut(tokens, lengths);
      assert r[1..] == Cut(tokens[n..], lengths[1..]);
      forall i | 1 <= i < |r|
        ensures ByteCursorFacts.AllBytes(r[i])
      {
        assert r[i] == r[1..][i - 1];
      }
    }
  }

  /** Each section fits its layout: byte tokens, safe steps, and at least as many tokens as the layout reads. */
  predicate Fits(sections: seq<seq<string>>, layouts: seq<seq<Step>>)
    requires |sections| == |layouts|
  {
    forall i :: 0 <= i < |layouts| ==>
      SchemaFacts.AllSafe(layouts[i]) && ByteCursorFacts.AllBytes(sections[i]) && SchemaFacts.Width(layouts[i]) <= |sections[i]|
  }

  /** What the sections hold, read at the fixed offsets of their layouts. */
  function Readings(sections: seq<seq<string>>, layouts: seq<seq<Step>>): (r: seq<seq<Entry>>)
    requires |sections| == |layouts| && Fits(sections, layouts)
    ensures |r| == |layouts|
  {
    seq(|layouts|, i requires 0 <= i < |layouts| => SchemaFacts.Reference(sections[i], layouts[i]))
  }

  /** Sections that fit their layouts decode without an exception, to their readings. */
  lemma DecodeReadings(sections: seq<seq<string>>, layouts: seq<seq<Step>>)
    requires |sections| == |layouts| && Fits(sections, layouts)
    ensures DecodeSections(sections, layouts) == Ok(Readings(sections, layouts))
  {
    var ds := Readings(sections, layouts);
    forall j | 0 <= j < |ds|
      ensures Run(sections[j], layouts[j]) == Ok(ds[j])
    {
      SchemaFacts.RunMatchesReference(sections[j], layouts[j]);
    }
    AllDecoded(sections, layouts, ds);
  }

  /** Four sections cut to the widths of their layouts, the last one at least as long as its layout, fit them. */
  lemma FourSectionsFit(tokens: seq<string>, c0: nat, c1: nat, c2: nat, l0: seq<Step>, l1: seq<Step>, l2: seq<Step>, l3: seq<Step>)
    requires ByteCursorFacts.AllBytes(tokens) && c0 + c1 + c2 <= |tokens|
    requires SchemaFacts.AllSafe(l0) && SchemaFacts.Width(l0) == c0
    requires SchemaFacts.AllSafe(l1) && SchemaFacts.Width(l1) == c1
    requires SchemaFacts.AllSafe(l2) && SchemaFacts.Width(l2) == c2
    requires SchemaFacts.AllSafe(l3) && SchemaFacts.Width(l3) <= |tokens| - (c0 + c1 + c2)
    ensures Fits(Cut(tokens, [c0, c1, c2]), [l0, l1, l2, l3])
    ensures var sections := Cut(tokens, [c0, c1, c2]);
      |sections[0]| == c0 && |sections[1]| == c1 && |sections[2]| == c2 && |sections[3]| == |tokens| - (c0 + c1 + c2)
  {
    var cuts := [c0, c1, c2];
    assert Sum(cuts) == c0 + c1 + c2 by {
      assert cuts[1..] == [c1, c2] && [c1, c2][1..] == [c2] && [c2][1..] == [];
      assert Sum([c2]) == c2 + Sum([]);
      assert Sum([c1, c2]) == c1 + Sum([c2]);
    }
    var sections := Cut(tokens, cuts);
    var layouts := [l0, l1, l2, l3];
    CutLengths(tokens, cuts);
    CutBytes(tokens, cuts);
    forall i | 0 <= i < 4
      ensures SchemaFacts.AllSafe(layouts[i]) && ByteCursorFacts.AllBytes(sections[i])
      ensures SchemaFacts.Width(layouts[i]) <= |sections[i]|
    {
      if i < 3 {
        assert |sections[i]| == cuts[i];
      }
    }
  }

  /**
   * The widths `packetlens` takes for granted: each of the first four layouts reads
   * exactly its section, and the stx layout reads one token less than its
   * section holds.
   */
  predicate Shaped(c: Catalogue) {
    && SchemaFacts.AllSafe(c.eps) && SchemaFacts.Width(c.eps) == EpsLength
    && SchemaFacts.AllSafe(c.battery) && SchemaFacts.Width(c.battery) == BatteryLength
    && SchemaFacts.AllSafe(c.vutrx) && SchemaFacts.Width(c.vutrx) == VutrxLength
    && SchemaFacts.AllSafe(c.ants) && SchemaFacts.Width(c.ants) == AntsLength
    && SchemaFacts.Width(c.stx) == StxLength - 1
  }

  /** The SwampSat II decoders have those widths; the stx layout has steps that can raise. */
  lemma SwampSat2Shaped()
    ensures Shaped(SwampSat2)
    ensures !SchemaFacts.AllSafe(SwampSat2.stx)
  {
    SchemaFacts.EpsShape();
    SchemaFacts.BatteryShape();
    SchemaFacts.VutrxShape();
    SchemaFacts.AntsShape();
    SchemaFacts.StxShape();
  }

  /** The sections of a flight mode 1 beacon of byte tokens have exactly the widths of their layouts. */
  lemma FirstBeaconFits(tokens: seq<string>, c: Catalogue)
    requires Shaped(c) && ByteCursorFacts.AllBytes(tokens) && |tokens| == FirstBeaconLength
    ensures Fits(Cut(tokens, FirstBeaconCuts), FirstLayouts(c))
    ensures forall i :: 0 <= i < 4 ==> |Cut(tokens, FirstBeaconCuts)[i]| == SchemaFacts.Width(FirstLayouts(c)[i])
  {
    FourSectionsFit(tokens, EpsLength, BatteryLength, VutrxLength, c.eps, c.battery, c.vutrx, c.ants);
  }

  /**
   * The first four sections of a flight mode 2 beacon of byte tokens have
   * exactly the widths of their layouts; its stx section is one token longer
   * than its layout reads.
   */
  lemma SecondBeaconFits(tokens: seq<string>, c: Catalogue)
    requires Shaped(c) && ByteCursorFacts.AllBytes(tokens) && |tokens| == SecondBeaconLength
    ensures Fits(Cut(tokens, SecondBeaconCuts)[..4], FirstLayouts(c))
    ensures forall i :: 0 <= i < 4 ==> |Cut(tokens, SecondBeaconCuts)[i]| == SchemaFacts.Width(FirstLayouts(c)[i])
    ensures ByteCursorFacts.AllBytes(Cut(tokens, SecondBeaconCuts)[4])
    ensures |Cut(tokens, SecondBeaconCuts)[4]| == SchemaFacts.Width(c.stx) + 1
  {
    var head := tokens[..FirstBeaconLength];
    FourSectionsFit(head, EpsLength, BatteryLength, VutrxLength, c.eps, c.battery, c.vutrx, c.ants);
    SecondCut(tokens);
    CutBytes(tokens, SecondBeaconCuts);
  }

  /** Cutting one more length off the list leaves the earlier sections as a cut of the list's start. */
  lemma {:induction false} CutExtend(tokens: seq<string>, cuts: seq<nat>, extra: nat)
    requires Sum(cuts) + extra <= |tokens|
    ensures Cut(tokens, cuts + [extra])[..|cuts| + 1] == Cut(tokens[..Sum(cuts) + extra], cuts)
    ensures Cut(tokens, cuts + [extra])[|cuts| + 1] == tokens[Sum(cuts) + extra..]
    decreases |cuts|
  {
    if |cuts| == 0 {
      CutExtendBase(tokens, extra);
    } else {
      var k := |cuts|;
      var whole := Cut(tokens, cuts + [extra]);
      var c := cuts[0];
      var n := Sum(cuts) + extra;
      var rest := tokens[c..];
      var tail := cuts[1..];
      assert c <= n && Sum(tail) + extra == n - c;
      var later := Cut(rest, tail + [extra]);
      assert whole == [tokens[..c]] + later by {
        assert (cuts + [extra])[0] == c;
        assert (cuts + [extra])[1..] == tail + [extra];
      }
      var front := tokens[..n];
      var shorter := Cut(rest[..n - c], tail);
      assert later[..k] == shorter && later[k] == rest[n - c..] by {
        CutExtend(rest, tail, extra);
      }
      assert Cut(front, cuts) == [tokens[..c]] + shorter by {
        assert front[..c] == tokens[..c];
        assert front[c..] == rest[..n - c];
      }
      assert whole[..k + 1] == [tokens[..c]] + later[..k];
      assert whole[k + 1] == later[k];
    }
  }

  lemma CutExtendBase(tokens: seq<string>, extra: nat)
    requires extra <= |tokens|
    ensures Cut(tokens, [extra])[..1] == Cut(tokens[..extra], [])
    ensures Cut(tokens, [extra])[1] == tokens[extra..]
  {
    assert [extra][1..] == [];
    assert Min(extra, |tokens|) == extra;
    assert Cut(tokens, [extra]) == [tokens[..extra]] + Cut(tokens[extra..], []);
    assert Cut(tokens[extra..], []) == [tokens[extra..]];
    assert Cut(tokens[..extra], []) == [tokens[..extra]];
  }

  lemma SumOfFirstCuts()
    ensures Sum(FirstBeaconCuts) == 159
  {
    var cuts: seq<nat> := [116, 15, 28];
    assert cuts == FirstBeaconCuts;
    assert cuts[1..] == [15, 28] && cuts[1..][1..] == [28] && cuts[1..][1..][1..] == [];
    assert Sum([28]) == 28 + Sum([]);
    assert Sum([15, 28]) == 15 + Sum([28]);
    assert Sum(cuts) == 116 + Sum([15, 28]);
  }

  /** The flight mode 2 cut is the flight mode 1 cut of the first 163 tokens, then the stx rest. */
  lemma SecondCut(tokens: seq<string>)
    requires |tokens| == SecondBeaconLength
    ensures Cut(tokens, SecondBeaconCuts)[..4] == Cut(tokens[..FirstBeaconLength], FirstBeaconCuts)
    ensures Cut(tokens, SecondBeaconCuts)[4] == tokens[FirstBeaconLength..]
  {
    assert SecondBeaconCuts == FirstBeaconCuts + [AntsLength];
    SumOfFirstCuts();
    CutExtend(tokens, FirstBeaconCuts, AntsLength);
  }

  // ------------------------------------------------------------ what `_parse` does

  /** Every character of the cleaned string is one `_validatehex` lets through. */
  predicate AllAdmissible(hexstr: string, dlim: string) {
    var cleaned := CleanText(hexstr, dlim);
    forall i :: 0 <= i < |cleaned| ==> Admissible(cleaned[i], dlim)
  }

  /**
   * A string that cleans to nothing, or holds a character outside the hex
   * alphabet and the delimiter, leaves the object with that message and an
   * empty record, whatever it held before.
   */
  lemma RejectedInput(hexstr: string, dlim: string, now: string, prior: Outcome, c: Catalogue)
    ensures |CleanText(hexstr, dlim)| == 0 ==>
      ParseWith(hexstr, dlim, now, prior, c) == Ok(Outcome(EmptyMessage, []))
    ensures |CleanText(hexstr, dlim)| > 0 && !AllAdmissible(hexstr, dlim) ==>
      ParseWith(hexstr, dlim, now, prior, c) == Ok(Outcome(InvalidMessage, []))
  {
  }

  /**
   * A clean string that contains the acknowledgement marker anywhere, of any
   * length, compiles to the acknowledgement record (emptied if the object
   * already held an error).
   */
  lemma AcknowledgementFirst(hexstr: string, dlim: string, now: string, prior: Outcome, c: Catalogue)
    requires AllAdmissible(hexstr, dlim)
    requires Contains(CleanText(hexstr, dlim), Concat(AckPairs))
    ensures ParseWith(hexstr, dlim, now, prior, c) ==
      Ok(if prior.errmsg == "" then Outcome("", AckRecord(now)) else Outcome(prior.errmsg, []))
  {
    var cleaned := CleanText(hexstr, dlim);
    assert |cleaned| > 0 by {
      assert StartsWith(cleaned[Find(cleaned, Concat(AckPairs)).value..], Concat(AckPairs));
      MarkerLength();
    }
  }

  lemma MarkerLength()
    ensures |Concat(AckPairs)| == 88
  {
    ConcatPairs(AckPairs);
    AckPairsSpellMessage();
  }

  lemma {:induction false} ConcatPairs(parts: seq<string>)
    requires forall k :: 0 <= k < |parts| ==> |parts[k]| == 2
    ensures |Concat(parts)| == 2 * |parts|
    decreases |parts|
  {
    if |parts| > 0 {
      ConcatPairs(parts[..|parts| - 1]);
    }
  }

  /** A clean string of the wrong length without the marker is not a beacon. */
  lemma OtherLength(hexstr: string, dlim: string, now: string, prior: Outcome, c: Catalogue)
    requires AllAdmissible(hexstr, dlim) && |CleanText(hexstr, dlim)| > 0
    requires !Contains(CleanText(hexstr, dlim), Concat(AckPairs))
    requires var n := |CleanInput(hexstr, dlim).0|; n != FirstBeaconLength && n != SecondBeaconLength
    ensures ParseWith(hexstr, dlim, now, prior, c) == Ok(Outcome(NotBeaconMessage, []))
  {
  }

  /**
   * A flight mode 1 beacon of byte tokens without the marker never raises: the
   * new object's record is the header for message type 3 followed, through
   * `update`, by the eps, battery, vutrx and ants readings at their fixed
   * offsets.
   */
  lemma FirstBeaconParses(hexstr: string, dlim: string, now: string, c: Catalogue)
    requires Shaped(c)
    requires var tokens := CleanInput(hexstr, dlim).0;
      |tokens| == FirstBeaconLength && ByteCursorFacts.AllBytes(tokens)
    requires !Contains(CleanText(hexstr, dlim), Concat(AckPairs))
    ensures Fits(Cut(CleanInput(hexstr, dlim).0, FirstBeaconCuts), FirstLayouts(c))
    ensures ParseWith(hexstr, dlim, now, Fresh, c) ==
      Ok(Outcome("", UpdateAll(Header(now, 3), Readings(Cut(CleanInput(hexstr, dlim).0, FirstBeaconCuts), FirstLayouts(c)))))
  {
    var tokens := CleanInput(hexstr, dlim).0;
    FirstBeaconFits(tokens, c);
    DecodeReadings(Cut(tokens, FirstBeaconCuts), FirstLayouts(c));
  }

  /**
   * A flight mode 2 beacon of byte tokens without the marker raises exactly
   * when the stx decoder raises on its section; otherwise the record is the
   * header for message type 4 followed by the readings of the first four
   * sections and the stx entries.
   */
  lemma SecondBeaconParses(hexstr: string, dlim: string, now: string, c: Catalogue)
    requires Shaped(c)
    requires var tokens := CleanInput(hexstr, dlim).0;
      |tokens| == SecondBeaconLength && ByteCursorFacts.AllBytes(tokens)
    requires !Contains(CleanText(hexstr, dlim), Concat(AckPairs))
    ensures Fits(Cut(CleanInput(hexstr, dlim).0, SecondBeaconCuts)[..4], FirstLayouts(c))
    ensures var sections := Cut(CleanInput(hexstr, dlim).0, SecondBeaconCuts);
      ParseWith(hexstr, dlim, now, Fresh, c) ==
        match Run(sections[4], c.stx)
        case Err(e) => Err(e)
        case Ok(stx) => Ok(Outcome("", UpdateAll(Header(now, 4), Readings(sections[..4], FirstLayouts(c)) + [stx])))
  {
    SecondBeaconRecord(CleanInput(hexstr, dlim).0, now, c);
  }

  /** The decoding half of `SecondBeaconParses`, on the cleaned tokens. */
  lemma SecondBeaconRecord(tokens: seq<string>, now: string, c: Catalogue)
    requires Shaped(c)
    requires |tokens| == SecondBeaconLength && ByteCursorFacts.AllBytes(tokens)
    ensures Fits(Cut(tokens, SecondBeaconCuts)[..4], FirstLayouts(c))
    ensures var sections := Cut(tokens, SecondBeaconCuts);
      Beacon(tokens, now, 4, SecondBeaconCuts, SecondLayouts(c)) ==
        match Run(sections[4], c.stx)
        case Err(e) => Err(e)
        case Ok(stx) => Ok(UpdateAll(Header(now, 4), Readings(sections[..4], FirstLayouts(c)) + [stx]))
  {
    SecondBeaconFits(tokens, c);
    assert SecondLayouts(c) == FirstLayouts(c) + [c.stx];
    DecodeFourThenOne(Cut(tokens, SecondBeaconCuts), FirstLayouts(c), c.stx);
  }

  /** Four sections that fit their layouts, then a fifth whose decoder may still raise. */
  lemma DecodeFourThenOne(sections: seq<seq<string>>, first: seq<seq<Step>>, last: seq<Step>)
    requires |sections| == 5 && |first| == 4 && Fits(sections[..4], first)
    ensures DecodeSections(sections, first + [last]) ==
      match Run(sections[4], last)
      case Err(e) => Err(e)
      case Ok(x) => Ok(Readings(sections[..4], first) + [x])
  {
    DecodeReadings(sections[..4], first);
    assert sections == sections[..4] + sections[4..];
    DecodeAppend(sections[..4], first, sections[4..], [last]);
    assert sections[4..][0] == sections[4];
    assert sections[4..][1..] == [] && [last][1..] == [];
    var x := Run(sections[4], last);
    if x.Ok? {
      assert DecodeSections(sections[4..], [last]) == Ok([x.value]) by {
        assert [x.value] + [] == [x.value];
      }
    }
  }

  /** Every key name of a list of layouts. */
  function NamesOfAll(layouts: seq<seq<Step>>): set<string>
    decreases |layouts|
  {
    if |layouts| == 0 then {} else (set k | k in Names(layouts[0])) + NamesOfAll(layouts[1..])
  }

  /** The readings of fitting sections carry exactly the names of their layouts. */
  lemma {:induction false} ReadingsKeys(sections: seq<seq<string>>, layouts: seq<seq<Step>>)
    requires |sections| == |layouts| && Fits(sections, layouts)
    ensures KeysOfAll(Readings(sections, layouts)) == NamesOfAll(layouts)
    decreases |layouts|
  {
    if |layouts| > 0 {
      ReadingsTail(sections, layouts);
      ReadingsKeys(sections[1..], layouts[1..]);
      SchemaFacts.ReferenceKeys(sections[0], layouts[0]);
    }
  }

  /** Dropping the first section and layout keeps the rest fitting, with the rest of the readings. */
  lemma ReadingsTail(sections: seq<seq<string>>, layouts: seq<seq<Step>>)
    requires |sections| == |layouts| > 0 && Fits(sections, layouts)
    ensures Fits(sections[1..], layouts[1..])
    ensures Readings(sections, layouts)[0] == SchemaFacts.Reference(sections[0], layouts[0])
    ensures Readings(sections, layouts)[1..] == Readings(sections[1..], layouts[1..])
  {
    forall i | 0 <= i < |layouts| - 1
      ensures SchemaFacts.AllSafe(layouts[1..][i]) && ByteCursorFacts.AllBytes(sections[1..][i])
      ensures SchemaFacts.Width(layouts[1..][i]) <= |sections[1..][i]|
    {
      assert layouts[1..][i] == layouts[i + 1] && sections[1..][i] == sections[i + 1];
    }
    var r, r1 := Readings(sections, layouts), Readings(sections[1..], layouts[1..]);
    forall i | 0 <= i < |r1|
      ensures r[1..][i] == r1[i]
    {
      assert layouts[1..][i] == layouts[i + 1] && sections[1..][i] == sections[i + 1];
    }
  }

  /**
   * The record of a flight mode 1 beacon of byte tokens without the marker
   * has the four header keys and every name of the four layouts, and no other
   * key.
   */
  lemma FirstBeaconKeys(hexstr: string, dlim: string, now: string, c: Catalogue)
    requires Shaped(c)
    requires var tokens := CleanInput(hexstr, dlim).0;
      |tokens| == FirstBeaconLength && ByteCursorFacts.AllBytes(tokens)
    requires !Contains(CleanText(hexstr, dlim), Concat(AckPairs))
    ensures ParseWith(hexstr, dlim, now, Fresh, c).Ok?
    ensures (set k | k in Keys(ParseWith(hexstr, dlim, now, Fresh, c).value.data)) ==
      {"timestamp", "msgtype", "messagenum", "messagetotal"} + NamesOfAll(FirstLayouts(c))
  {
    var tokens := CleanInput(hexstr, dlim).0;
    var sections := Cut(tokens, FirstBeaconCuts);
    FirstBeaconParses(hexstr, dlim, now, c);
    var rs := Readings(sections, FirstLayouts(c));
    var data := UpdateAll(Header(now, 3), rs);
    assert ParseWith(hexstr, dlim, now, Fresh, c).value.data == data;
    UpdateAllKeySet(Header(now, 3), rs);
    ReadingsKeys(sections, FirstLayouts(c));
    HeaderKeys(now, 3);
  }

  /** The header carries exactly its four keys. */
  lemma HeaderKeys(now: string, msgtype: int)
    ensures (set k | k in Keys(Header(now, msgtype))) == {"timestamp", "msgtype", "messagenum", "messagetotal"}
  {
    HeaderEntries(now, msgtype);
    var ks := Keys(Header(now, msgtype));
    assert ks == ["timestamp", "msgtype", "messagenum", "messagetotal"];
  }

  /**
   * What any `_parse` leaves behind: an error message exactly when the record
   * is empty, no success once an error is held, only the known messages, and
   * an exception only from the two beacon lengths.
   */
  lemma ParseSettles(hexstr: string, dlim: string, now: string, prior: Outcome, c: Catalogue)
    ensures match ParseWith(hexstr, dlim, now, prior, c)
      case Ok(o) =>
        && (o.errmsg == "" <==> o.data != [])
        && (o.errmsg == "" ==> prior.errmsg == "")
        && o.errmsg in {prior.errmsg, EmptyMessage, InvalidMessage, NotBeaconMessage}
      case Err(_) =>
        var n := |CleanInput(hexstr, dlim).0|;
        n == FirstBeaconLength || n == SecondBeaconLength
  {
    AckRecordEntries(now);
    var tokens := CleanInput(hexstr, dlim).0;
    if |tokens| == FirstBeaconLength || |tokens| == SecondBeaconLength {
      var msgtype := if |tokens| == FirstBeaconLength then 3 else 4;
      HeaderEntries(now, msgtype);
      var cuts := if |tokens| == FirstBeaconLength then FirstBeaconCuts else SecondBeaconCuts;
      var layouts := if |tokens| == FirstBeaconLength then FirstLayouts(c) else SecondLayouts(c);
      var decoded := DecodeSections(Cut(tokens, cuts), layouts);
      if decoded.Ok? {
        UpdateAllGrows(Header(now, msgtype), decoded.value);
      }
    }
  }
}
