/**
 * The part of `collections.OrderedDict` the decoder uses: item assignment,
 * which overwrites an existing key where it stands and appends a new one, and
 * `update`, which assigns the items of another dictionary in their order.
 * A dictionary is its list of entries in insertion order.
 */
module OrderedDict {

  import opened Wrappers
  import opened ByteCursor
  import opened Schemas

  predicate Distinct(ks: seq<string>) {
    forall i, j :: 0 <= i < j < |ks| ==> ks[i] != ks[j]
  }

  /** Where `k` sits, if anywhere: the first entry with that key. */
  function KeyIndex(d: seq<Entry>, k: string): (r: Option<nat>)
    ensures r.Some? ==> r.value < |d| && d[r.value].key == k
    ensures r.Some? ==> forall j :: 0 <= j < r.value ==> d[j].key != k
    ensures r.None? ==> forall j :: 0 <= j < |d| ==> d[j].key != k
    decreases |d|
  {
    if |d| == 0 then None
    else if d[0].key == k then Some(0)
    else
      match KeyIndex(d[1..], k)
      case None => None
      case Some(i) => Some(i + 1)
  }

  /** `d[k]`, or `None` where the subscript would raise `KeyError`. */
  function Get(d: seq<Entry>, k: string): (r: Option<Value>)
    ensures r.Some? <==> k in Keys(d)
  {
    match KeyIndex(d, k)
    case None => None
    case Some(i) => Some(d[i].value)
  }

  /** `d[k] = v`. */
  function Assign(d: seq<Entry>, k: string, v: Value): seq<Entry> {
    match KeyIndex(d, k)
    case Some(i) => d[i := Entry(k, v)]
    case None => d + [Entry(k, v)]
  }

  /** `d.update(e)` for a dictionary `e` given by its entries. */
  function Update(d: seq<Entry>, e: seq<Entry>): seq<Entry>
    decreases |e|
  {
    if |e| == 0 then d else Update(Assign(d, e[0].key, e[0].value), e[1..])
  }

  /** `d.update(e1); d.update(e2); ...`. */
  function UpdateAll(d: seq<Entry>, es: seq<seq<Entry>>): seq<Entry>
    decreases |es|
  {
    if |es| == 0 then d else UpdateAll(Update(d, es[0]), es[1..])
  }

  /** One more dictionary of a list folded in. */
  lemma UpdateAllFrom(d: seq<Entry>, ds: seq<seq<Entry>>, k: nat)
    requires k < |ds|
    ensures UpdateAll(d, ds[k..]) == UpdateAll(Update(d, ds[k]), ds[k + 1..])
  {
    assert ds[k..][0] == ds[k] && ds[k..][1..] == ds[k + 1..];
  }

  /** After `d[k] = v`, `d[k]` is `v` and every other key reads as before. */
  lemma AssignGet(d: seq<Entry>, k: string, v: Value, other: string)
    ensures Get(Assign(d, k, v), k) == Some(v)
    ensures other != k ==> Get(Assign(d, k, v), other) == Get(d, other)
  {
    var r := Assign(d, k, v);
    match KeyIndex(d, k)
    case Some(i) =>
      assert forall j :: 0 <= j < |r| ==> r[j].key == d[j].key;
      if other != k {
        assert Keys(r) == Keys(d);
      }
    case None =>
      assert r[|d|].key == k;
      var at := KeyIndex(r, k);
      assert at.Some? && at.value == |d|;
      assert forall j :: 0 <= j < |d| ==> r[j] == d[j];
      if other != k {
        match KeyIndex(d, other)
        case None =>
        case Some(i) =>
          assert KeyIndex(r, other) == Some(i);
      }
  }

  /** Assignment keeps the keys of `d` in place and adds `k` if it was missing. */
  lemma AssignKeys(d: seq<Entry>, k: string, v: Value)
    ensures Keys(Assign(d, k, v)) == if k in Keys(d) then Keys(d) else Keys(d) + [k]
  {
    var r := Assign(d, k, v);
    match KeyIndex(d, k)
    case Some(i) =>
      assert forall j :: 0 <= j < |r| ==> r[j].key == d[j].key;
    case None =>
      assert forall j :: 0 <= j < |r| ==> Keys(r)[j] == (Keys(d) + [k])[j];
  }

  /** The keys of a dictionary, as a set. */
  function KeySet(d: seq<Entry>): set<string> {
    set k | k in Keys(d)
  }

  /** `update` ends with the keys of both dictionaries and no others. */
  lemma {:induction false} UpdateKeySet(d: seq<Entry>, e: seq<Entry>)
    ensures KeySet(Update(d, e)) == KeySet(d) + KeySet(e)
    decreases |e|
  {
    if |e| > 0 {
      var d1 := Assign(d, e[0].key, e[0].value);
      AssignKeySet(d, e[0].key, e[0].value);
      UpdateKeySet(d1, e[1..]);
      KeySetCons(e);
      assert KeySet(Update(d, e)) == KeySet(d1) + KeySet(e[1..]);
    }
  }

  /** Assignment adds its key to the key set. */
  lemma AssignKeySet(d: seq<Entry>, k: string, v: Value)
    ensures KeySet(Assign(d, k, v)) == KeySet(d) + {k}
  {
    AssignKeys(d, k, v);
  }

  lemma KeySetCons(e: seq<Entry>)
    requires |e| > 0
    ensures KeySet(e) == {e[0].key} + KeySet(e[1..])
  {
    assert Keys(e) == [e[0].key] + Keys(e[1..]);
  }

  /** A dictionary without repeated keys keeps that property through `update`. */
  lemma {:induction false} UpdateDistinct(d: seq<Entry>, e: seq<Entry>)
    requires Distinct(Keys(d))
    ensures Distinct(Keys(Update(d, e)))
    decreases |e|
  {
    if |e| > 0 {
      var d1 := Assign(d, e[0].key, e[0].value);
      AssignKeys(d, e[0].key, e[0].value);
      UpdateDistinct(d1, e[1..]);
    }
  }

  /** When no key of `e` is in `d` nor repeated in `e`, `update` appends `e`. */
  lemma {:induction false} UpdateFresh(d: seq<Entry>, e: seq<Entry>)
    requires Distinct(Keys(d) + Keys(e))
    ensures Update(d, e) == d + e
    decreases |e|
  {
    if |e| > 0 {
      FirstFresh(d, e);
      KeysShift(d, e);
      UpdateFresh(d + [e[0]], e[1..]);
      AppendStep(d, e);
    }
  }

  /** Assigning a missing key appends its entry, so `update` continues from the longer list. */
  lemma AppendStep(d: seq<Entry>, e: seq<Entry>)
    requires |e| > 0 && KeyIndex(d, e[0].key).None?
    requires Update(d + [e[0]], e[1..]) == d + [e[0]] + e[1..]
    ensures Update(d, e) == d + e
  {
    calc {
      Update(d, e);
      Update(Assign(d, e[0].key, e[0].value), e[1..]);
      { assert Assign(d, e[0].key, e[0].value) == d + [e[0]]; }
      Update(d + [e[0]], e[1..]);
      d + [e[0]] + e[1..];
      { ConcatHead(d, e); }
      d + e;
    }
  }

  lemma ConcatHead(d: seq<Entry>, e: seq<Entry>)
    requires |e| > 0
    ensures d + [e[0]] + e[1..] == d + e
  {
    assert forall j :: 0 <= j < |d + e| ==> (d + [e[0]] + e[1..])[j] == (d + e)[j];
  }

  lemma KeysShift(d: seq<Entry>, e: seq<Entry>)
    requires |e| > 0
    ensures Keys(d + [e[0]]) + Keys(e[1..]) == Keys(d) + Keys(e)
  {
    var ks := Keys(d) + Keys(e);
    assert forall j :: 0 <= j < |ks| ==> (Keys(d + [e[0]]) + Keys(e[1..]))[j] == ks[j];
  }

  lemma FirstFresh(d: seq<Entry>, e: seq<Entry>)
    requires |e| > 0 && Distinct(Keys(d) + Keys(e))
    ensures KeyIndex(d, e[0].key).None?
  {
    var ks := Keys(d) + Keys(e);
    assert e[0].key == ks[|d|];
    forall j | 0 <= j < |d|
      ensures d[j].key != e[0].key
    {
      assert d[j].key == ks[j];
    }
  }

  /** Assignment never removes an entry. */
  lemma AssignGrows(d: seq<Entry>, k: string, v: Value)
    ensures |Assign(d, k, v)| >= |d|
  {
  }

  /** `update` never removes an entry. */
  lemma {:induction false} UpdateGrows(d: seq<Entry>, e: seq<Entry>)
    ensures |Update(d, e)| >= |d|
    decreases |e|
  {
    if |e| > 0 {
      AssignGrows(d, e[0].key, e[0].value);
      UpdateGrows(Assign(d, e[0].key, e[0].value), e[1..]);
    }
  }

  /** A run of updates never removes an entry. */
  lemma {:induction false} UpdateAllGrows(d: seq<Entry>, ds: seq<seq<Entry>>)
    ensures |UpdateAll(d, ds)| >= |d|
    decreases |ds|
  {
    if |ds| > 0 {
      UpdateGrows(d, ds[0]);
      UpdateAllGrows(Update(d, ds[0]), ds[1..]);
    }
  }

  /** Every key of a list of dictionaries. */
  function KeysOfAll(ds: seq<seq<Entry>>): set<string>
    decreases |ds|
  {
    if |ds| == 0 then {} else KeySet(ds[0]) + KeysOfAll(ds[1..])
  }

  /** A run of updates ends with the keys of the dictionary and of every update, and no others. */
  lemma {:induction false} UpdateAllKeySet(d: seq<Entry>, ds: seq<seq<Entry>>)
    ensures KeySet(UpdateAll(d, ds)) == KeySet(d) + KeysOfAll(ds)
    decreases |ds|
  {
    if |ds| > 0 {
      UpdateKeySet(d, ds[0]);
      UpdateAllKeySet(Update(d, ds[0]), ds[1..]);
    }
  }
}
