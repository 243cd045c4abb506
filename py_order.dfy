/**
 * The order `sorted` uses on the `(packet id, payload)` tuples of the image
 * reader: ids as integers, ties broken by the payload strings compared
 * lexicographically by code point (a proper prefix comes first).
 */
module PyOrder {

  /** `a <= b` on Python strings. */
  predicate StrLe(a: string, b: string)
    decreases |a|
  {
    if |a| == 0 then true
    else if |b| == 0 then false
    else if a[0] != b[0] then a[0] < b[0]
    else StrLe(a[1..], b[1..])
  }

  lemma {:induction false} StrLeTotal(a: string, b: string)
    ensures StrLe(a, b) || StrLe(b, a)
    decreases |a|
  {
    if |a| > 0 && |b| > 0 && a[0] == b[0] {
      StrLeTotal(a[1..], b[1..]);
    }
  }

  lemma {:induction false} StrLeTrans(a: string, b: string, c: string)
    requires StrLe(a, b) && StrLe(b, c)
    ensures StrLe(a, c)
    decreases |a|
  {
    if |a| > 0 && |b| > 0 && |c| > 0 && a[0] == b[0] && b[0] == c[0] {
      StrLeTrans(a[1..], b[1..], c[1..]);
    }
  }

  lemma {:induction false} StrLeAntisym(a: string, b: string)
    requires StrLe(a, b) && StrLe(b, a)
    ensures a == b
    decreases |a|
  {
    if |a| > 0 {
      StrLeAntisym(a[1..], b[1..]);
      assert a == [a[0]] + a[1..] && b == [b[0]] + b[1..];
    }
  }

  /** One `(packet id, payload)` tuple of the image reader. */
  datatype Tagged = Tagged(id: int, payload: string)

  /** Tuple order: by id, then by payload. */
  predicate TaggedLe(p: Tagged, q: Tagged) {
    p.id < q.id || (p.id == q.id && StrLe(p.payload, q.payload))
  }

  lemma TaggedLeTotal(p: Tagged, q: Tagged)
    ensures TaggedLe(p, q) || TaggedLe(q, p)
  {
    StrLeTotal(p.payload, q.payload);
  }

  lemma TaggedLeTrans(p: Tagged, q: Tagged, r: Tagged)
    requires TaggedLe(p, q) && TaggedLe(q, r)
    ensures TaggedLe(p, r)
  {
    if p.id == q.id == r.id {
      StrLeTrans(p.payload, q.payload, r.payload);
    }
  }

  predicate Sorted(s: seq<Tagged>) {
    forall i, j :: 0 <= i < j < |s| ==> TaggedLe(s[i], s[j])
  }

  /** `p` placed before the first element it does not exceed. */
  function Insert(p: Tagged, s: seq<Tagged>): (r: seq<Tagged>)
    decreases |s|
  {
    if |s| == 0 then [p]
    else if TaggedLe(p, s[0]) then [p] + s
    else [s[0]] + Insert(p, s[1..])
  }

  /** `sorted(pairs)`, by insertion. */
  function Sort(s: seq<Tagged>): (r: seq<Tagged>)
    decreases |s|
  {
    if |s| == 0 then [] else Insert(s[0], Sort(s[1..]))
  }

  /** Insertion keeps a sorted list sorted and adds exactly the one tuple. */
  lemma {:induction false} InsertSorted(p: Tagged, s: seq<Tagged>)
    requires Sorted(s)
    ensures Sorted(Insert(p, s))
    ensures multiset(Insert(p, s)) == multiset(s) + multiset{p}
    decreases |s|
  {
    if |s| == 0 {
    } else if TaggedLe(p, s[0]) {
      forall k | 0 <= k < |s|
        ensures TaggedLe(p, s[k])
      {
        if k > 0 {
          TaggedLeTrans(p, s[0], s[k]);
        }
      }
      ConsSorted(p, s);
    } else {
      TaggedLeTotal(p, s[0]);
      InsertSorted(p, s[1..]);
      var t := Insert(p, s[1..]);
      HeadBelowInsert(p, s, t);
      ConsSorted(s[0], t);
      assert s == [s[0]] + s[1..];
    }
  }

  /** A tuple at or below every element of a sorted list can go in front of it. */
  lemma ConsSorted(x: Tagged, t: seq<Tagged>)
    requires Sorted(t)
    requires forall k :: 0 <= k < |t| ==> TaggedLe(x, t[k])
    ensures Sorted([x] + t)
  {
    var r := [x] + t;
    forall i, j | 0 <= i < j < |r|
      ensures TaggedLe(r[i], r[j])
    {
      assert r[j] == t[j - 1];
      if i > 0 {
        assert r[i] == t[i - 1];
      }
    }
  }

  /** The head of a sorted list is at or below every element after `p` is inserted into its tail. */
  lemma HeadBelowInsert(p: Tagged, s: seq<Tagged>, t: seq<Tagged>)
    requires |s| > 0 && Sorted(s) && TaggedLe(s[0], p)
    requires multiset(t) == multiset(s[1..]) + multiset{p}
    ensures forall k :: 0 <= k < |t| ==> TaggedLe(s[0], t[k])
  {
    forall k | 0 <= k < |t|
      ensures TaggedLe(s[0], t[k])
    {
      assert t[k] in multiset(t);
      if t[k] != p {
        assert t[k] in multiset(s[1..]);
        var m :| 0 <= m < |s[1..]| && s[1..][m] == t[k];
        assert s[m + 1] == t[k];
      }
    }
  }

  /** `sorted` returns the tuples it was given, in order. */
  lemma {:induction false} SortSorted(s: seq<Tagged>)
    ensures Sorted(Sort(s))
    ensures multiset(Sort(s)) == multiset(s)
    decreases |s|
  {
    if |s| > 0 {
      var rest := Sort(s[1..]);
      SortSorted(s[1..]);
      InsertSorted(s[0], rest);
      assert Sort(s) == Insert(s[0], rest);
      calc {
        multiset(s);
        == { assert s == [s[0]] + s[1..]; }
        multiset{s[0]} + multiset(s[1..]);
        == multiset(rest) + multiset{s[0]};
      }
    }
  }
}
