/**
 The order in which `Object.keys` lists the own properties of an ordinary
 JavaScript object (section 10.1.11.1, OrdinaryOwnPropertyKeys, of ECMA-262):
 first every property whose name is an array index, in ascending numeric
 order, then the other string-named properties in creation order.
 `getMappedData` returns the groups in this order.
 */
module PropertyOrder {
  import opened Wrappers
  import opened JsonText

  /** The largest array index, 2^32 - 2. */
  const MaxArrayIndex: nat := 0xFFFF_FFFE

  /**
   The numeric value of a property name that is an array index: a canonical
   decimal numeral (no sign, no leading zero) of a value at most 2^32 - 2.
   */
  function ArrayIndex(name: string): Option<nat>
  {
    if |name| > 0 && (forall k :: 0 <= k < |name| ==> IsDigit(name[k]))
       && (name[0] != '0' || |name| == 1) && DigitsValue(name) <= MaxArrayIndex
    then Some(DigitsValue(name))
    else None
  }

  predicate IsIndexName(name: string)
  {
    ArrayIndex(name).Some?
  }

  /** The sort key of an array-index property. */
  function IndexOf(name: string): nat
  {
    match ArrayIndex(name)
    case Some(n) => n
    case None => 0
  }

  /** The array-index properties, in creation order. */
  function Indexed<T>(ps: seq<(string, T)>): (r: seq<(string, T)>)
    ensures forall k :: 0 <= k < |r| ==> IsIndexName(r[k].0)
  {
    if |ps| == 0 then []
    else (if IsIndexName(ps[0].0) then [ps[0]] else []) + Indexed(ps[1..])
  }

  /** The other properties, in creation order. */
  function Named<T>(ps: seq<(string, T)>): (r: seq<(string, T)>)
    ensures forall k :: 0 <= k < |r| ==> !IsIndexName(r[k].0)
  {
    if |ps| == 0 then []
    else (if IsIndexName(ps[0].0) then [] else [ps[0]]) + Named(ps[1..])
  }

  predicate AscendingIndex<T>(ps: seq<(string, T)>)
  {
    forall i, j :: 0 <= i < j < |ps| ==> IndexOf(ps[i].0) <= IndexOf(ps[j].0)
  }

  function InsertByIndex<T>(p: (string, T), ps: seq<(string, T)>): (r: seq<(string, T)>)
    ensures |r| == |ps| + 1
    ensures multiset(r) == multiset(ps) + multiset{p}
  {
    if |ps| == 0 then [p]
    else if IndexOf(ps[0].0) < IndexOf(p.0) then
      assert ps == [ps[0]] + ps[1..];
      [ps[0]] + InsertByIndex(p, ps[1..])
    else [p] + ps
  }

  function SortByIndex<T>(ps: seq<(string, T)>): (r: seq<(string, T)>)
    ensures |r| == |ps|
    ensures multiset(r) == multiset(ps)
  {
    if |ps| == 0 then []
    else
      assert ps == [ps[0]] + ps[1..];
      InsertByIndex(ps[0], SortByIndex(ps[1..]))
  }

  /** The properties of an object in `Object.keys` order. */
  function EnumerationOrder<T>(ps: seq<(string, T)>): seq<(string, T)>
  {
    SortByIndex(Indexed(ps)) + Named(ps)
  }

  // ---------------------------------------------------------------------------

  lemma {:induction false} SplitPermutes<T>(ps: seq<(string, T)>)
    ensures multiset(Indexed(ps)) + multiset(Named(ps)) == multiset(ps)
    decreases |ps|
  {
    if |ps| > 0 {
      var tail := ps[1..];
      SplitPermutes(tail);
      assert ps == [ps[0]] + tail;
      if IsIndexName(ps[0].0) {
        SplitIndexed(ps[0], tail);
      } else {
        SplitNamed(ps[0], tail);
      }
    }
  }

  lemma SplitIndexed<T>(p: (string, T), tail: seq<(string, T)>)
    requires IsIndexName(p.0)
    ensures multiset(Indexed([p] + tail)) == multiset{p} + multiset(Indexed(tail))
    ensures Named([p] + tail) == Named(tail)
  {
    assert ([p] + tail)[1..] == tail;
  }

  lemma SplitNamed<T>(p: (string, T), tail: seq<(string, T)>)
    requires !IsIndexName(p.0)
    ensures Indexed([p] + tail) == Indexed(tail)
    ensures multiset(Named([p] + tail)) == multiset{p} + multiset(Named(tail))
  {
    assert ([p] + tail)[1..] == tail;
  }

  lemma InsertByIndexElements<T>(p: (string, T), ps: seq<(string, T)>)
    ensures forall x :: x in InsertByIndex(p, ps) ==> x == p || x in ps
  {
    forall x | x in InsertByIndex(p, ps) ensures x == p || x in ps {
      assert x in multiset(InsertByIndex(p, ps));
    }
  }

  lemma {:induction false} InsertByIndexAscending<T>(p: (string, T), ps: seq<(string, T)>)
    requires AscendingIndex(ps)
    ensures AscendingIndex(InsertByIndex(p, ps))
    decreases |ps|
  {
    if |ps| > 0 && IndexOf(ps[0].0) < IndexOf(p.0) {
      var tail := ps[1..];
      InsertByIndexAscending(p, tail);
      InsertByIndexElements(p, tail);
      var t := InsertByIndex(p, tail);
      var r := [ps[0]] + t;
      assert forall x :: x in tail ==> IndexOf(ps[0].0) <= IndexOf(x.0);
      forall j | 0 < j < |r| ensures IndexOf(r[0].0) <= IndexOf(r[j].0) {
        assert r[j] == t[j - 1] && t[j - 1] in t;
      }
    }
  }

  lemma {:induction false} SortByIndexAscending<T>(ps: seq<(string, T)>)
    ensures AscendingIndex(SortByIndex(ps))
    decreases |ps|
  {
    if |ps| > 0 {
      SortByIndexAscending(ps[1..]);
      InsertByIndexAscending(ps[0], SortByIndex(ps[1..]));
    }
  }

  /**
   Enumeration lists every property once, array indices first in ascending
   order, then the rest in creation order.
   */
  lemma EnumerationOrderSpec<T>(ps: seq<(string, T)>)
    ensures multiset(EnumerationOrder(ps)) == multiset(ps)
    ensures EnumerationOrder(ps)[|Indexed(ps)|..] == Named(ps)
    ensures AscendingIndex(EnumerationOrder(ps)[..|Indexed(ps)|])
    ensures forall k :: 0 <= k < |Indexed(ps)| ==> IsIndexName(EnumerationOrder(ps)[k].0)
  {
    var s := SortByIndex(Indexed(ps));
    SplitPermutes(ps);
    SortByIndexAscending(Indexed(ps));
    var r := EnumerationOrder(ps);
    assert r[..|s|] == s;
    assert r[|s|..] == Named(ps);
    forall k | 0 <= k < |s| ensures IsIndexName(s[k].0) {
      assert s[k] in multiset(Indexed(ps));
    }
  }

  lemma {:induction false} NamedKeepsAll<T>(ps: seq<(string, T)>)
    requires forall k :: 0 <= k < |ps| ==> !IsIndexName(ps[k].0)
    ensures Named(ps) == ps && Indexed(ps) == []
    decreases |ps|
  {
    if |ps| > 0 {
      NamedKeepsAll(ps[1..]);
      assert ps == [ps[0]] + ps[1..];
    }
  }

  /** Without array-index names, enumeration is creation order. */
  lemma EnumerationWithoutIndices<T>(ps: seq<(string, T)>)
    requires forall k :: 0 <= k < |ps| ==> !IsIndexName(ps[k].0)
    ensures EnumerationOrder(ps) == ps
  {
    NamedKeepsAll(ps);
  }
}
