/**
 The grouping of emissions by key (`_addMappedDataToItsIdGroup` and the
 `_mappedData` object in src/map.js). The object is modelled as its list of
 own properties in creation order: one entry per key, holding the group.
 */
module Grouping {
  import opened Wrappers
  import opened Values
  import opened GroupKey

  /** One call of `emit`: `{_id, value}`. */
  datatype Emission = Emission(id: Val, value: Val)

  /** One group: the id it is shown under and the values emitted for it. */
  datatype Group = Group(id: Val, values: seq<Val>)

  /** `_mappedData`: key -> group, in property creation order. */
  type Table = seq<(string, Group)>

  function KeyOf(e: Emission): string
  {
    GetKey(e.id)
  }

  /** The position of the property named `key`, if there is one. */
  function Find(t: Table, key: string): (r: Option<nat>)
    ensures r.Some? ==> r.value < |t| && t[r.value].0 == key
    ensures r.None? ==> forall i :: 0 <= i < |t| ==> t[i].0 != key
  {
    if |t| == 0 then None
    else if t[0].0 == key then Some(0)
    else
      match Find(t[1..], key)
      case None => None
      case Some(i) => Some(i + 1)
  }

  /**
   Files one emission: a new key gets a group shown under this emission's own
   id; an existing group keeps its id and gets the value appended.
   */
  function AddToGroup(t: Table, e: Emission): (r: Table)
    ensures |r| == if Find(t, KeyOf(e)).None? then |t| + 1 else |t|
    ensures (forall i :: 0 <= i < |t| ==> |t[i].1.values| > 0) ==>
              forall i :: 0 <= i < |r| ==> |r[i].1.values| > 0
  {
    var key := KeyOf(e);
    match Find(t, key)
    case None => t + [(key, Group(e.id, [e.value]))]
    case Some(i) => t[i := (key, Group(t[i].1.id, t[i].1.values + [e.value]))]
  }

  /**
   The table after filing every emission, in order, into an empty one: at
   most one group per emission, and no group without a value.
   */
  function GroupAll(emits: seq<Emission>): (t: Table)
    ensures |t| <= |emits|
    ensures forall i :: 0 <= i < |t| ==> |t[i].1.values| > 0
  {
    if |emits| == 0 then []
    else AddToGroup(GroupAll(emits[..|emits| - 1]), emits[|emits| - 1])
  }

  // ---------------------------------------------------------------------------
  // Reference description of the grouping

  predicate Occurs(emits: seq<Emission>, key: string)
  {
    exists k :: 0 <= k < |emits| && KeyOf(emits[k]) == key
  }

  /** The position of the first emission whose id has key `key`. */
  function First(emits: seq<Emission>, key: string): (k: nat)
    requires Occurs(emits, key)
    ensures k < |emits| && KeyOf(emits[k]) == key
    ensures forall j :: 0 <= j < k ==> KeyOf(emits[j]) != key
  {
    FirstFrom(emits, key, 0)
  }

  /** The position of the first emission at or after `from` whose id has key `key`. */
  function FirstFrom(emits: seq<Emission>, key: string, from: nat): (k: nat)
    requires exists k :: from <= k < |emits| && KeyOf(emits[k]) == key
    ensures from <= k < |emits| && KeyOf(emits[k]) == key
    ensures forall j :: from <= j < k ==> KeyOf(emits[j]) != key
    decreases |emits| - from
  {
    if KeyOf(emits[from]) == key then from else FirstFrom(emits, key, from + 1)
  }

  /** The values emitted under key `key`, in emission order. */
  function Select(emits: seq<Emission>, key: string): seq<Val>
  {
    if |emits| == 0 then []
    else
      var last := emits[|emits| - 1];
      Select(emits[..|emits| - 1], key) + (if KeyOf(last) == key then [last.value] else [])
  }

  function EmittedKeys(emits: seq<Emission>): set<string>
  {
    set k | 0 <= k < |emits| :: KeyOf(emits[k])
  }

  predicate DistinctKeys(t: Table)
  {
    forall i, j :: 0 <= i < |t| && 0 <= j < |t| && t[i].0 == t[j].0 ==> i == j
  }

  /** Every key of the table is emitted, and every emitted key has one entry. */
  predicate KeysMatch(t: Table, emits: seq<Emission>)
  {
    && DistinctKeys(t)
    && NameSet(t) == EmittedKeys(emits)
    && forall i :: 0 <= i < |t| ==> Occurs(emits, t[i].0)
  }

  /** The entry for a key holds every value emitted with that key, in order. */
  predicate ValuesMatch(t: Table, emits: seq<Emission>)
  {
    forall i :: 0 <= i < |t| ==> t[i].1.values == Select(emits, t[i].0)
  }

  /** The entry for a key shows the id of the first emission with that key. */
  predicate IdsMatch(t: Table, emits: seq<Emission>)
  {
    forall i :: 0 <= i < |t| ==> Occurs(emits, t[i].0) && t[i].1.id == emits[First(emits, t[i].0)].id
  }

  /** Key `a` is first emitted before key `b`. */
  predicate FirstBefore(emits: seq<Emission>, a: string, b: string)
  {
    Occurs(emits, a) && Occurs(emits, b) && First(emits, a) < First(emits, b)
  }

  /** Entries are ordered by the first emission of their key. */
  predicate OrderMatch(t: Table, emits: seq<Emission>)
  {
    forall i, j :: 0 <= i < j < |t| ==> FirstBefore(emits, t[i].0, t[j].0)
  }

  /** What the table holds after the emissions `emits`. */
  predicate Describes(t: Table, emits: seq<Emission>)
  {
    KeysMatch(t, emits) && ValuesMatch(t, emits) && IdsMatch(t, emits) && OrderMatch(t, emits)
  }

  // ---------------------------------------------------------------------------
  // Lemmas

  lemma FirstOfExtension(emits: seq<Emission>, e: Emission, key: string)
    requires Occurs(emits, key)
    ensures Occurs(emits + [e], key)
    ensures First(emits + [e], key) == First(emits, key)
  {
    assert forall j :: 0 <= j < |emits| ==> (emits + [e])[j] == emits[j];
    var k := First(emits, key);
    assert (emits + [e])[k] == emits[k];
  }

  lemma FirstOfNewKey(emits: seq<Emission>, e: Emission)
    requires !Occurs(emits, KeyOf(e))
    ensures Occurs(emits + [e], KeyOf(e))
    ensures First(emits + [e], KeyOf(e)) == |emits|
  {
    var es := emits + [e];
    assert es[|emits|] == e;
    assert forall j :: 0 <= j < |emits| ==> es[j] == emits[j];
  }

  lemma SelectExtension(emits: seq<Emission>, e: Emission, key: string)
    ensures Select(emits + [e], key) == Select(emits, key) + (if KeyOf(e) == key then [e.value] else [])
  {
    assert (emits + [e])[..|emits|] == emits;
  }

  lemma {:induction false} SelectAbsent(emits: seq<Emission>, key: string)
    requires !Occurs(emits, key)
    ensures Select(emits, key) == []
    decreases |emits|
  {
    if |emits| > 0 {
      var p := emits[..|emits| - 1];
      assert !Occurs(p, key) by {
        forall k | 0 <= k < |p| ensures KeyOf(p[k]) != key {
          assert p[k] == emits[k];
        }
      }
      SelectAbsent(p, key);
    }
  }

  lemma {:induction false} SelectNonEmpty(emits: seq<Emission>, key: string)
    requires Occurs(emits, key)
    ensures |Select(emits, key)| > 0
    decreases |emits|
  {
    var p := emits[..|emits| - 1];
    if KeyOf(emits[|emits| - 1]) != key {
      var k :| 0 <= k < |emits| && KeyOf(emits[k]) == key;
      assert p[k] == emits[k];
      SelectNonEmpty(p, key);
    }
  }

  lemma EmittedKeysExtension(emits: seq<Emission>, e: Emission)
    ensures EmittedKeys(emits + [e]) == EmittedKeys(emits) + {KeyOf(e)}
  {
    var es := emits + [e];
    assert forall j :: 0 <= j < |emits| ==> es[j] == emits[j];
    assert es[|emits|] == e;
    forall x | x in EmittedKeys(es) ensures x in EmittedKeys(emits) + {KeyOf(e)} {
      var k :| 0 <= k < |es| && KeyOf(es[k]) == x;
    }
  }

  lemma OccursFromKeys(emits: seq<Emission>, key: string)
    requires key in EmittedKeys(emits)
    ensures Occurs(emits, key)
  {
  }

  /** The entry `(key, g)` that replaces entry `p` leaves the other entries alone. */
  lemma StepExistingKeys(t: Table, emits: seq<Emission>, e: Emission, p: nat, g: Group)
    requires KeysMatch(t, emits)
    requires p < |t| && t[p].0 == KeyOf(e)
    ensures KeysMatch(t[p := (KeyOf(e), g)], emits + [e])
  {
    var t' := t[p := (KeyOf(e), g)];
    assert NameSet(t') == NameSet(t) by {
      forall x | x in NameSet(t) ensures x in NameSet(t') {
        var i :| 0 <= i < |t| && t[i].0 == x;
        assert t'[i].0 == x;
      }
    }
    EmittedKeysExtension(emits, e);
    assert KeyOf(e) in NameSet(t);
    forall i | 0 <= i < |t'| ensures Occurs(emits + [e], t'[i].0) {
      FirstOfExtension(emits, e, t[i].0);
    }
  }

  lemma StepExistingValues(t: Table, emits: seq<Emission>, e: Emission, p: nat)
    requires DistinctKeys(t) && ValuesMatch(t, emits)
    requires p < |t| && t[p].0 == KeyOf(e)
    ensures ValuesMatch(t[p := (KeyOf(e), Group(t[p].1.id, t[p].1.values + [e.value]))], emits + [e])
  {
    var t' := t[p := (KeyOf(e), Group(t[p].1.id, t[p].1.values + [e.value]))];
    forall i | 0 <= i < |t'| ensures t'[i].1.values == Select(emits + [e], t'[i].0) {
      SelectExtension(emits, e, t'[i].0);
    }
  }

  lemma StepExistingIds(t: Table, emits: seq<Emission>, e: Emission, p: nat, g: Group)
    requires IdsMatch(t, emits)
    requires p < |t| && t[p].0 == KeyOf(e) && g.id == t[p].1.id
    ensures IdsMatch(t[p := (KeyOf(e), g)], emits + [e])
  {
    var t' := t[p := (KeyOf(e), g)];
    forall i | 0 <= i < |t'| ensures Occurs(emits + [e], t'[i].0) && t'[i].1.id == (emits + [e])[First(emits + [e], t'[i].0)].id {
      FirstOfExtension(emits, e, t[i].0);
      assert (emits + [e])[First(emits, t[i].0)] == emits[First(emits, t[i].0)];
    }
  }

  lemma StepExistingOrder(t: Table, emits: seq<Emission>, e: Emission, p: nat, g: Group)
    requires OrderMatch(t, emits)
    requires forall i :: 0 <= i < |t| ==> Occurs(emits, t[i].0)
    requires p < |t| && t[p].0 == KeyOf(e)
    ensures OrderMatch(t[p := (KeyOf(e), g)], emits + [e])
  {
    var t' := t[p := (KeyOf(e), g)];
    forall i, j | 0 <= i < j < |t'| ensures FirstBefore(emits + [e], t'[i].0, t'[j].0) {
      assert t'[i].0 == t[i].0 && t'[j].0 == t[j].0;
      assert FirstBefore(emits, t[i].0, t[j].0);
      FirstOfExtension(emits, e, t[i].0);
      FirstOfExtension(emits, e, t[j].0);
    }
  }

  lemma StepNewKeys(t: Table, emits: seq<Emission>, e: Emission, g: Group)
    requires KeysMatch(t, emits)
    requires KeyOf(e) !in NameSet(t)
    ensures KeysMatch(t + [(KeyOf(e), g)], emits + [e])
  {
    var key := KeyOf(e);
    var t' := t + [(key, g)];
    assert forall i :: 0 <= i < |t| ==> t'[i] == t[i];
    assert NameSet(t') == NameSet(t) + {key} by {
      forall x | x in NameSet(t') ensures x in NameSet(t) + {key} {
        var i :| 0 <= i < |t'| && t'[i].0 == x;
      }
      forall x | x in NameSet(t) ensures x in NameSet(t') {
        var i :| 0 <= i < |t| && t[i].0 == x;
      }
      assert t'[|t|].0 == key;
    }
    EmittedKeysExtension(emits, e);
    assert !Occurs(emits, key);
    FirstOfNewKey(emits, e);
    forall i | 0 <= i < |t| ensures Occurs(emits + [e], t'[i].0) {
      FirstOfExtension(emits, e, t[i].0);
    }
  }

  lemma StepNewValues(t: Table, emits: seq<Emission>, e: Emission)
    requires ValuesMatch(t, emits)
    requires KeyOf(e) !in NameSet(t) && KeyOf(e) !in EmittedKeys(emits)
    ensures ValuesMatch(t + [(KeyOf(e), Group(e.id, [e.value]))], emits + [e])
  {
    var t' := t + [(KeyOf(e), Group(e.id, [e.value]))];
    forall i | 0 <= i < |t'| ensures t'[i].1.values == Select(emits + [e], t'[i].0) {
      SelectExtension(emits, e, t'[i].0);
      if i == |t| {
        assert !Occurs(emits, KeyOf(e));
        SelectAbsent(emits, KeyOf(e));
      } else {
        assert t'[i] == t[i];
        assert t[i].0 in NameSet(t);
      }
    }
  }

  lemma StepNewIds(t: Table, emits: seq<Emission>, e: Emission)
    requires IdsMatch(t, emits)
    requires KeyOf(e) !in EmittedKeys(emits)
    ensures IdsMatch(t + [(KeyOf(e), Group(e.id, [e.value]))], emits + [e])
  {
    var t' := t + [(KeyOf(e), Group(e.id, [e.value]))];
    assert !Occurs(emits, KeyOf(e));
    FirstOfNewKey(emits, e);
    forall i | 0 <= i < |t'| ensures Occurs(emits + [e], t'[i].0) && t'[i].1.id == (emits + [e])[First(emits + [e], t'[i].0)].id {
      if i < |t| {
        assert t'[i] == t[i];
        FirstOfExtension(emits, e, t[i].0);
        assert (emits + [e])[First(emits, t[i].0)] == emits[First(emits, t[i].0)];
      }
    }
  }

  lemma StepNewOrder(t: Table, emits: seq<Emission>, e: Emission, g: Group)
    requires OrderMatch(t, emits)
    requires forall i :: 0 <= i < |t| ==> Occurs(emits, t[i].0)
    requires KeyOf(e) !in EmittedKeys(emits)
    ensures OrderMatch(t + [(KeyOf(e), g)], emits + [e])
  {
    var t' := t + [(KeyOf(e), g)];
    assert !Occurs(emits, KeyOf(e));
    FirstOfNewKey(emits, e);
    forall i, j | 0 <= i < j < |t'| ensures FirstBefore(emits + [e], t'[i].0, t'[j].0) {
      assert t'[i] == t[i];
      FirstOfExtension(emits, e, t[i].0);
      if j < |t| {
        assert t'[j] == t[j];
        FirstOfExtension(emits, e, t[j].0);
      }
    }
  }

  lemma AddToGroupStep(t: Table, emits: seq<Emission>, e: Emission)
    requires Describes(t, emits)
    ensures Describes(AddToGroup(t, e), emits + [e])
  {
    var key := KeyOf(e);
    match Find(t, key)
    case Some(p) =>
      var g := Group(t[p].1.id, t[p].1.values + [e.value]);
      assert AddToGroup(t, e) == t[p := (key, g)];
      StepExistingKeys(t, emits, e, p, g);
      StepExistingValues(t, emits, e, p);
      StepExistingIds(t, emits, e, p, g);
      StepExistingOrder(t, emits, e, p, g);
    case None =>
      var g := Group(e.id, [e.value]);
      assert AddToGroup(t, e) == t + [(key, g)];
      assert key !in NameSet(t);
      StepNewKeys(t, emits, e, g);
      StepNewValues(t, emits, e);
      StepNewIds(t, emits, e);
      StepNewOrder(t, emits, e, g);
  }

  /** Filing the emissions one by one builds the table `Describes` specifies. */
  lemma {:induction false} GroupAllDescribes(emits: seq<Emission>)
    ensures Describes(GroupAll(emits), emits)
    decreases |emits|
  {
    if |emits| > 0 {
      var p := emits[..|emits| - 1];
      GroupAllDescribes(p);
      AddToGroupStep(GroupAll(p), p, emits[|emits| - 1]);
      assert p + [emits[|emits| - 1]] == emits;
    }
  }

  // ---------------------------------------------------------------------------
  // Consequences

  /** `Describes` leaves no freedom: it determines the table completely. */
  lemma DescribesUnique(t1: Table, t2: Table, emits: seq<Emission>)
    requires Describes(t1, emits) && Describes(t2, emits)
    ensures t1 == t2
  {
    KeysInSameOrder(t1, t2, emits);
  }

  /** Emission `i` is the first one with its key. */
  predicate IsFirst(emits: seq<Emission>, i: nat)
    requires i < |emits|
  {
    forall j :: 0 <= j < i ==> KeyOf(emits[j]) != KeyOf(emits[i])
  }

  function FirstPositions(emits: seq<Emission>): set<nat>
  {
    set i: nat | i < |emits| && IsFirst(emits, i)
  }

  /** The first emission of each entry's key, entry by entry. */
  function Firsts(t: Table, emits: seq<Emission>): seq<nat>
    requires forall i :: 0 <= i < |t| ==> Occurs(emits, t[i].0)
  {
    seq(|t|, i requires 0 <= i < |t| => First(emits, t[i].0))
  }

  lemma FirstsSpec(t: Table, emits: seq<Emission>)
    requires Describes(t, emits)
    ensures Increasing(Firsts(t, emits))
    ensures Set(Firsts(t, emits)) == FirstPositions(emits)
  {
    var ks := Firsts(t, emits);
    forall x | x in FirstPositions(emits) ensures x in Set(ks) {
      var key := KeyOf(emits[x]);
      assert key in EmittedKeys(emits);
      var m :| 0 <= m < |t| && t[m].0 == key;
      assert ks[m] == x;
    }
  }

  /** Two tables described by the same emissions list the same keys in the same order. */
  lemma KeysInSameOrder(t1: Table, t2: Table, emits: seq<Emission>)
    requires Describes(t1, emits) && Describes(t2, emits)
    ensures |t1| == |t2|
    ensures forall i :: 0 <= i < |t1| ==> t1[i].0 == t2[i].0
  {
    FirstsSpec(t1, emits);
    FirstsSpec(t2, emits);
    var k1, k2 := Firsts(t1, emits), Firsts(t2, emits);
    IncreasingUnique(k1, k2);
    forall i | 0 <= i < |t1| ensures t1[i].0 == t2[i].0 {
      assert KeyOf(emits[k1[i]]) == t1[i].0;
      assert KeyOf(emits[k2[i]]) == t2[i].0;
    }
  }

  function Set(xs: seq<nat>): set<nat>
  {
    set i | 0 <= i < |xs| :: xs[i]
  }

  predicate Increasing(xs: seq<nat>)
  {
    forall i, j :: 0 <= i < j < |xs| ==> xs[i] < xs[j]
  }

  lemma IncreasingTail(xs: seq<nat>)
    requires Increasing(xs) && |xs| > 0
    ensures Increasing(xs[1..])
    ensures Set(xs[1..]) == Set(xs) - {xs[0]}
  {
    var tx := xs[1..];
    forall x | x in Set(xs) - {xs[0]} ensures x in Set(tx) {
      var i :| 0 <= i < |xs| && xs[i] == x;
      assert tx[i - 1] == x;
    }
    forall x | x in Set(tx) ensures x in Set(xs) - {xs[0]} {
      var i :| 0 <= i < |tx| && tx[i] == x;
      assert xs[i + 1] == x;
    }
  }

  /** The first element of an increasing sequence is the least of its elements. */
  lemma IncreasingHead(xs: seq<nat>, ys: seq<nat>)
    requires Increasing(xs) && Increasing(ys) && Set(xs) == Set(ys) && |xs| > 0
    ensures |ys| > 0 && xs[0] == ys[0]
  {
    assert xs[0] in Set(xs);
    var j :| 0 <= j < |ys| && ys[j] == xs[0];
    assert ys[0] in Set(ys);
    var m :| 0 <= m < |xs| && xs[m] == ys[0];
  }

  /** Two increasing sequences with the same elements are equal. */
  lemma {:induction false} IncreasingUnique(xs: seq<nat>, ys: seq<nat>)
    requires Increasing(xs) && Increasing(ys) && Set(xs) == Set(ys)
    ensures xs == ys
    decreases |xs|
  {
    if |xs| > 0 {
      IncreasingHead(xs, ys);
      IncreasingTail(xs);
      IncreasingTail(ys);
      IncreasingUnique(xs[1..], ys[1..]);
      assert xs == [xs[0]] + xs[1..] && ys == [ys[0]] + ys[1..];
    } else if |ys| > 0 {
      IncreasingHead(ys, xs);
    }
  }

  /** The number of values held by the groups of a table. */
  function Total(t: Table): nat
  {
    if |t| == 0 then 0 else Total(t[..|t| - 1]) + |t[|t| - 1].1.values|
  }

  lemma {:induction false} TotalUpdate(t: Table, p: nat, x: (string, Group))
    requires p < |t|
    ensures Total(t[p := x]) + |t[p].1.values| == Total(t) + |x.1.values|
    decreases |t|
  {
    var t' := t[p := x];
    if p < |t| - 1 {
      assert t'[..|t| - 1] == t[..|t| - 1][p := x];
      TotalUpdate(t[..|t| - 1], p, x);
    } else {
      assert t'[..|t| - 1] == t[..|t| - 1];
    }
  }

  /** Grouping neither loses nor duplicates a value: the groups hold one value per emission. */
  lemma {:induction false} TotalCountsEmissions(emits: seq<Emission>)
    ensures Total(GroupAll(emits)) == |emits|
    decreases |emits|
  {
    if |emits| > 0 {
      var p := emits[..|emits| - 1];
      var e := emits[|emits| - 1];
      var t := GroupAll(p);
      TotalCountsEmissions(p);
      match Find(t, KeyOf(e))
      case None =>
        var t' := t + [(KeyOf(e), Group(e.id, [e.value]))];
        assert t'[..|t'| - 1] == t;
      case Some(i) =>
        TotalUpdate(t, i, (KeyOf(e), Group(t[i].1.id, t[i].1.values + [e.value])));
    }
  }

  /** The position of the group emission `k` was filed under. */
  lemma EmissionHasGroup(emits: seq<Emission>, k: nat)
    requires k < |emits|
    ensures Find(GroupAll(emits), KeyOf(emits[k])).Some?
  {
    GroupAllDescribes(emits);
    assert KeyOf(emits[k]) in EmittedKeys(emits);
    assert KeyOf(emits[k]) in NameSet(GroupAll(emits));
  }

  /**
   Two emissions with well-formed ids are filed under the same group exactly
   when their ids are equal up to property order.
   */
  lemma SameGroupIffEquiv(emits: seq<Emission>, k1: nat, k2: nat)
    requires k1 < |emits| && k2 < |emits|
    requires WellFormed(emits[k1].id) && WellFormed(emits[k2].id)
    ensures Find(GroupAll(emits), KeyOf(emits[k1])) == Find(GroupAll(emits), KeyOf(emits[k2]))
            <==> Equiv(emits[k1].id, emits[k2].id)
  {
    EmissionHasGroup(emits, k1);
    EmissionHasGroup(emits, k2);
    SameKeyIffEquiv(emits[k1].id, emits[k2].id);
  }
}
