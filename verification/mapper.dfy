/**
 The map phase (`MockReduce.Map` in src/map.js): a run resets the state,
 applies the map function to every record in order, files every emission,
 and answers the grouped data. The map function is a parameter that gives,
 for one record, the `(key, value)` pairs it passes to `emit`, in call order.
 The instance's mutable fields are a `MapState` value passed in and out.
 */
module Mapper {
  import opened Values
  import opened GroupKey
  import opened PropertyOrder
  import opened Grouping

  /** `_emits` and `_mappedData` of one `MockReduce.Map` instance. */
  datatype MapState = MapState(emits: seq<Emission>, mappedData: Table)

  /** The state a fresh instance has, and the one `_resetState` restores. */
  function ResetState(): (st: MapState)
    ensures Consistent(st) && |st.emits| == 0
  {
    MapState([], [])
  }

  /** The grouped data always is the grouping of the emission log. */
  predicate Consistent(st: MapState)
  {
    st.mappedData == GroupAll(st.emits)
  }

  /**
   `emit(key, value)`: answers `{_id: key, value: value}`, appends exactly that
   entry to the emission log and files it under its group.
   */
  function Emit(st: MapState, key: Val, value: Val): (r: (MapState, Emission))
    ensures r.1 == Emission(key, value)
    ensures |r.0.emits| == |st.emits| + 1
    ensures r.0.emits[..|st.emits|] == st.emits && r.0.emits[|st.emits|] == r.1
    ensures Consistent(st) ==> Consistent(r.0)
  {
    var e := Emission(key, value);
    var emits := st.emits + [e];
    assert emits[..|emits| - 1] == st.emits;
    (MapState(emits, AddToGroup(st.mappedData, e)), e)
  }

  /**
   `getEmits()`: the log. It holds as many entries as the groups hold
   values, so the two getters account for the same emissions.
   */
  function GetEmits(st: MapState): (emits: seq<Emission>)
    ensures Consistent(st) ==> |emits| == Total(st.mappedData)
  {
    TotalCountsEmissions(st.emits);
    st.emits
  }

  /** The groups of a table in the order `Object.keys` lists their keys. */
  /**
   The groups of a table in the order `Object.keys` lists their keys: every
   group of the table, each exactly once.
   */
  function MappedData(t: Table): (groups: seq<Group>)
    ensures |groups| == |t|
    ensures multiset(groups) == multiset(GroupsOf(t))
  {
    var ordered := EnumerationOrder(t);
    EnumerationOrderSpec(t);
    assert |ordered| == |t| by {
      assert |multiset(ordered)| == |multiset(t)|;
    }
    MultisetGroups(ordered, t);
    GroupsOf(ordered)
  }

  /** `getMappedData()`: every group it answers holds at least one value. */
  function GetMappedData(st: MapState): (groups: seq<Group>)
    ensures Consistent(st) ==> forall i :: 0 <= i < |groups| ==> |groups[i].values| > 0
  {
    var groups := MappedData(st.mappedData);
    forall i | 0 <= i < |groups| ensures Consistent(st) ==> |groups[i].values| > 0 {
      assert groups[i] in multiset(GroupsOf(st.mappedData));
    }
    groups
  }

  /** The emissions of one call of the map function. */
  function EmissionsOf(pairs: seq<(Val, Val)>): (es: seq<Emission>)
    ensures |es| == |pairs|
  {
    seq(|pairs|, i requires 0 <= i < |pairs| => Emission(pairs[i].0, pairs[i].1))
  }

  /** The emissions of a whole run: each record's emissions, in record order. */
  function AllEmissions<R>(records: seq<R>, mapFn: R -> seq<(Val, Val)>): seq<Emission>
  {
    if |records| == 0 then []
    else AllEmissions(records[..|records| - 1], mapFn) + EmissionsOf(mapFn(records[|records| - 1]))
  }

  /**
   Mapping two batches of records one after the other logs the same emissions
   as mapping their concatenation: each record contributes its own emissions,
   independently of the records around it.
   */
  lemma {:induction false} AllEmissionsAppend<R>(a: seq<R>, b: seq<R>, mapFn: R -> seq<(Val, Val)>)
    ensures AllEmissions(a + b, mapFn) == AllEmissions(a, mapFn) + AllEmissions(b, mapFn)
    decreases |b|
  {
    if |b| > 0 {
      var b' := b[..|b| - 1];
      assert (a + b)[..|a + b| - 1] == a + b';
      AllEmissionsAppend(a, b', mapFn);
    } else {
      assert a + b == a;
    }
  }

  /**
   `run(testData, mapFunction)`. Whatever the instance held before, afterwards
   the log is exactly this run's emissions in order, the groups are their
   grouping, and the answer is `getMappedData()`. The log is each record's
   emissions in record order (`AllEmissions`).
   */
  method Run<R>(st: MapState, records: seq<R>, mapFn: R -> seq<(Val, Val)>)
    returns (st': MapState, result: seq<Group>)
    ensures st'.emits == AllEmissions(records, mapFn)
    ensures st'.mappedData == GroupAll(AllEmissions(records, mapFn))
    ensures result == GetMappedData(st')
  {
    st' := ResetState();
    var i := 0;
    while i < |records|
      invariant i <= |records|
      invariant st'.emits == AllEmissions(records[..i], mapFn)
      invariant Consistent(st')
    {
      st' := EmitAll(st', mapFn(records[i]));
      assert records[..i + 1][..i] == records[..i];
      i := i + 1;
    }
    assert records[..i] == records;
    result := GetMappedData(st');
  }

  /** The `emit` calls of one map-function call, in order. */
  method EmitAll(st: MapState, pairs: seq<(Val, Val)>) returns (st': MapState)
    requires Consistent(st)
    ensures st'.emits == st.emits + EmissionsOf(pairs)
    ensures Consistent(st')
  {
    st' := st;
    var j := 0;
    while j < |pairs|
      invariant j <= |pairs|
      invariant st'.emits == st.emits + EmissionsOf(pairs[..j])
      invariant Consistent(st')
    {
      var step := Emit(st', pairs[j].0, pairs[j].1);
      st' := step.0;
      assert EmissionsOf(pairs[..j + 1]) == EmissionsOf(pairs[..j]) + [step.1];
      j := j + 1;
    }
    assert pairs[..j] == pairs;
  }

  // ---------------------------------------------------------------------------
  // The order of the grouped data

  /** The groups of a table, in property creation (first-seen) order. */
  function GroupsOf(t: Table): (groups: seq<Group>)
    ensures |groups| == |t|
  {
    seq(|t|, i requires 0 <= i < |t| => t[i].1)
  }

  predicate AllWellFormed(emits: seq<Emission>)
  {
    forall k :: 0 <= k < |emits| ==> WellFormed(emits[k].id)
  }

  /** Each entry is keyed by the key of the well-formed id it shows. */
  predicate KeyedByShownId(t: Table)
  {
    forall i :: 0 <= i < |t| ==> t[i].0 == GetKey(t[i].1.id) && WellFormed(t[i].1.id)
  }

  lemma {:induction false} EntriesKeyedByShownId(emits: seq<Emission>)
    requires AllWellFormed(emits)
    ensures KeyedByShownId(GroupAll(emits))
  {
    GroupAllDescribes(emits);
  }

  lemma KeyedByShownIdPermutes(ps: Table, qs: Table)
    requires multiset(ps) == multiset(qs) && KeyedByShownId(qs)
    ensures KeyedByShownId(ps)
  {
    forall i | 0 <= i < |ps| ensures ps[i].0 == GetKey(ps[i].1.id) && WellFormed(ps[i].1.id) {
      assert ps[i] in multiset(qs);
    }
  }

  /** Which entries `Object.keys` puts first, and by what number. */
  lemma IndexNameIffSmallIndex(x: (string, Group))
    requires x.0 == GetKey(x.1.id) && WellFormed(x.1.id)
    ensures IsIndexName(x.0) <==> IsSmallIndex(x.1.id)
    ensures IsSmallIndex(x.1.id) ==> IndexOf(x.0) == x.1.id.n
  {
    KeyArrayIndex(x.1.id);
  }

  lemma GroupsOfConcat(a: Table, b: Table)
    ensures GroupsOf(a + b) == GroupsOf(a) + GroupsOf(b)
  {
  }

  /** Taking the same element out of two permutations leaves permutations. */
  lemma RemoveMatching<T>(ps: seq<T>, qs: seq<T>, k: nat)
    requires multiset(ps) == multiset(qs)
    requires |ps| > 0 && k < |qs| && qs[k] == ps[0]
    ensures multiset(ps[1..]) == multiset(qs[..k] + qs[k + 1..])
  {
    var x := ps[0];
    var a, b := qs[..k], qs[k + 1..];
    assert qs == a + [x] + b;
    assert ps == [x] + ps[1..];
    assert multiset(ps[1..]) == multiset(ps) - multiset{x};
    assert multiset(a + b) == multiset(qs) - multiset{x};
  }

  lemma GroupsOfMiddle(a: Table, x: (string, Group), b: Table)
    ensures multiset(GroupsOf(a + [x] + b)) == multiset{x.1} + multiset(GroupsOf(a + b))
  {
    GroupsOfConcat(a + [x], b);
    GroupsOfConcat(a, [x]);
    GroupsOfConcat(a, b);
    assert GroupsOf([x]) == [x.1];
  }

  lemma {:induction false} MultisetGroups(ps: Table, qs: Table)
    requires multiset(ps) == multiset(qs)
    ensures multiset(GroupsOf(ps)) == multiset(GroupsOf(qs))
    decreases |ps|
  {
    if |ps| == 0 {
      assert |multiset(qs)| == 0;
    } else {
      var x := ps[0];
      assert x in multiset(qs);
      var k :| 0 <= k < |qs| && qs[k] == x;
      var a, b := qs[..k], qs[k + 1..];
      RemoveMatching(ps, qs, k);
      MultisetGroups(ps[1..], a + b);
      var none: Table := [];
      assert ps == none + [x] + ps[1..];
      assert none + ps[1..] == ps[1..];
      GroupsOfMiddle(none, x, ps[1..]);
      assert multiset(GroupsOf(ps)) == multiset{x.1} + multiset(GroupsOf(a + b));
      assert qs == a + [x] + b;
      GroupsOfMiddle(a, x, b);
    }
  }

  lemma MappedDataSplit(t: Table)
    ensures |Indexed(t)| <= |MappedData(t)|
    ensures MappedData(t)[..|Indexed(t)|] == GroupsOf(SortByIndex(Indexed(t)))
    ensures MappedData(t)[|Indexed(t)|..] == GroupsOf(Named(t))
  {
    var ordered := EnumerationOrder(t);
    EnumerationOrderSpec(t);
    assert MappedData(t) == GroupsOf(ordered);
    GroupsOfConcat(SortByIndex(Indexed(t)), Named(t));
  }

  /** Every entry of a table keyed by shown ids, wherever it is moved to. */
  lemma KeyedWithin(ps: Table, qs: Table)
    requires forall x :: x in ps ==> x in qs
    requires KeyedByShownId(qs)
    ensures KeyedByShownId(ps)
  {
    forall i | 0 <= i < |ps| ensures ps[i].0 == GetKey(ps[i].1.id) && WellFormed(ps[i].1.id) {
      assert ps[i] in ps;
      var k :| 0 <= k < |qs| && qs[k] == ps[i];
    }
  }

  lemma SortedIndexedWithin(t: Table)
    ensures forall x :: x in SortByIndex(Indexed(t)) ==> x in t && IsIndexName(x.0)
  {
    var sorted := SortByIndex(Indexed(t));
    SplitPermutes(t);
    forall x | x in sorted ensures x in t && IsIndexName(x.0) {
      assert x in multiset(sorted);
      assert x in multiset(Indexed(t));
      assert x in multiset(t);
    }
  }

  lemma NamedWithin(t: Table)
    ensures forall x :: x in Named(t) ==> x in t
  {
    SplitPermutes(t);
    forall x | x in Named(t) ensures x in t {
      assert x in multiset(Named(t));
      assert x in multiset(t);
    }
  }

  /** Entries with array-index keys in ascending key order show ascending small numbers. */
  lemma AscendingGroups(s: Table)
    requires KeyedByShownId(s) && AscendingIndex(s)
    requires forall x :: x in s ==> IsIndexName(x.0)
    ensures var gs := GroupsOf(s);
            && (forall i :: 0 <= i < |gs| ==> IsSmallIndex(gs[i].id))
            && (forall i, j :: 0 <= i < j < |gs| ==> gs[i].id.n <= gs[j].id.n)
  {
    forall i | 0 <= i < |s| ensures IsSmallIndex(s[i].1.id) && IndexOf(s[i].0) == s[i].1.id.n {
      assert s[i] in s;
      IndexNameIffSmallIndex(s[i]);
    }
  }

  lemma NumericGroupsAscending(t: Table)
    requires KeyedByShownId(t)
    ensures var s := GroupsOf(SortByIndex(Indexed(t)));
            && (forall i :: 0 <= i < |s| ==> IsSmallIndex(s[i].id))
            && (forall i, j :: 0 <= i < j < |s| ==> s[i].id.n <= s[j].id.n)
  {
    var sorted := SortByIndex(Indexed(t));
    SortedIndexedWithin(t);
    SortByIndexAscending(Indexed(t));
    KeyedWithin(sorted, t);
    AscendingGroups(sorted);
  }

  lemma OtherGroupsNotNumeric(t: Table)
    requires KeyedByShownId(t)
    ensures forall i :: 0 <= i < |GroupsOf(Named(t))| ==> !IsSmallIndex(GroupsOf(Named(t))[i].id)
  {
    var named := Named(t);
    NamedWithin(t);
    KeyedWithin(named, t);
    forall i | 0 <= i < |named| ensures !IsSmallIndex(named[i].1.id) {
      IndexNameIffSmallIndex(named[i]);
    }
  }

  /** The shape of `getMappedData()` for a table keyed by its shown ids. */
  lemma MappedDataShape(t: Table)
    requires KeyedByShownId(t)
    ensures var gs := MappedData(t);
            var n := |Indexed(t)|;
            && n <= |gs|
            && (forall i :: 0 <= i < n ==> IsSmallIndex(gs[i].id))
            && (forall i, j :: 0 <= i < j < n ==> gs[i].id.n <= gs[j].id.n)
            && gs[n..] == GroupsOf(Named(t))
            && (forall i :: n <= i < |gs| ==> !IsSmallIndex(gs[i].id))
  {
    var gs := MappedData(t);
    var n := |Indexed(t)|;
    MappedDataSplit(t);
    NumericGroupsAscending(t);
    OtherGroupsNotNumeric(t);
    SplitGroups(gs, n, GroupsOf(SortByIndex(Indexed(t))), GroupsOf(Named(t)));
  }

  /** Properties of the two parts of a sequence of groups carry over to the whole. */
  lemma SplitGroups(gs: seq<Group>, n: nat, front: seq<Group>, back: seq<Group>)
    requires n <= |gs| && gs[..n] == front && gs[n..] == back
    requires forall i :: 0 <= i < |front| ==> IsSmallIndex(front[i].id)
    requires forall i, j :: 0 <= i < j < |front| ==>
               IsSmallIndex(front[i].id) && IsSmallIndex(front[j].id) && front[i].id.n <= front[j].id.n
    requires forall i :: 0 <= i < |back| ==> !IsSmallIndex(back[i].id)
    ensures forall i :: 0 <= i < n ==> IsSmallIndex(gs[i].id)
    ensures forall i, j :: 0 <= i < j < n ==>
              IsSmallIndex(gs[i].id) && IsSmallIndex(gs[j].id) && gs[i].id.n <= gs[j].id.n
    ensures forall i :: n <= i < |gs| ==> !IsSmallIndex(gs[i].id)
  {
    assert forall i :: 0 <= i < n ==> gs[i] == front[i];
    assert forall i :: n <= i < |gs| ==> gs[i] == back[i - n];
  }

  /**
   `getMappedData()` after filing `emits` (all ids well-formed): every group
   exactly once; first the groups whose id is a number in 0 .. 2^32 - 2, in
   ascending numeric order; then all other groups in the order their keys
   were first emitted.
   */
  lemma {:induction false} MappedDataOrder(emits: seq<Emission>)
    requires AllWellFormed(emits)
    ensures var t := GroupAll(emits);
            var gs := MappedData(t);
            var n := |Indexed(t)|;
            && multiset(gs) == multiset(GroupsOf(t))
            && n <= |gs|
            && (forall i :: 0 <= i < n ==> IsSmallIndex(gs[i].id))
            && (forall i, j :: 0 <= i < j < n ==> gs[i].id.n <= gs[j].id.n)
            && gs[n..] == GroupsOf(Named(t))
            && (forall i :: n <= i < |gs| ==> !IsSmallIndex(gs[i].id))
  {
    EntriesKeyedByShownId(emits);
    MappedDataShape(GroupAll(emits));
  }

  /**
   Without numeric ids in 0 .. 2^32 - 2, `getMappedData()` lists the groups in
   the order their keys were first emitted.
   */
  lemma {:induction false} MappedDataFirstSeen(emits: seq<Emission>)
    requires AllWellFormed(emits)
    requires forall k :: 0 <= k < |emits| ==> !IsSmallIndex(emits[k].id)
    ensures MappedData(GroupAll(emits)) == GroupsOf(GroupAll(emits))
  {
    var t := GroupAll(emits);
    GroupAllDescribes(emits);
    EntriesKeyedByShownId(emits);
    forall i | 0 <= i < |t| ensures !IsIndexName(t[i].0) {
      KeyArrayIndex(t[i].1.id);
    }
    EnumerationWithoutIndices(t);
  }

  // ---------------------------------------------------------------------------
  // One key

  lemma {:induction false} SelectSingleKey(emits: seq<Emission>, key: string)
    requires forall k :: 0 <= k < |emits| ==> KeyOf(emits[k]) == key
    ensures Select(emits, key) == seq(|emits|, k requires 0 <= k < |emits| => emits[k].value)
    decreases |emits|
  {
    if |emits| > 0 {
      SelectSingleKey(emits[..|emits| - 1], key);
    }
  }

  /**
   When every emitted id is equal to the first up to property order, the run
   answers one group, shown under the first id, holding every value in order.
   */
  lemma {:induction false} SingleGroup(emits: seq<Emission>)
    requires |emits| > 0 && AllWellFormed(emits)
    requires forall k :: 0 <= k < |emits| ==> Equiv(emits[k].id, emits[0].id)
    ensures MappedData(GroupAll(emits)) ==
      [Group(emits[0].id, seq(|emits|, k requires 0 <= k < |emits| => emits[k].value))]
  {
    var key := KeyOf(emits[0]);
    forall k | 0 <= k < |emits| ensures KeyOf(emits[k]) == key {
      SameKeyIffEquiv(emits[k].id, emits[0].id);
    }
    var g := Group(emits[0].id, seq(|emits|, k requires 0 <= k < |emits| => emits[k].value));
    SingleKeyTable(emits, key, g);
    OneEntryMapped([(key, g)]);
  }

  /** Emissions that all have one key fill a table of one entry. */
  lemma {:induction false} SingleKeyTable(emits: seq<Emission>, key: string, g: Group)
    requires |emits| > 0
    requires forall k :: 0 <= k < |emits| ==> KeyOf(emits[k]) == key
    requires g == Group(emits[0].id, seq(|emits|, k requires 0 <= k < |emits| => emits[k].value))
    ensures GroupAll(emits) == [(key, g)]
  {
    var t0: Table := [(key, g)];
    assert Occurs(emits, key) by {
      assert KeyOf(emits[0]) == key;
    }
    assert First(emits, key) == 0;
    SelectSingleKey(emits, key);
    assert EmittedKeys(emits) == {key} by {
      forall x | x in EmittedKeys(emits) ensures x == key {
        var k :| 0 <= k < |emits| && KeyOf(emits[k]) == x;
      }
      assert KeyOf(emits[0]) in EmittedKeys(emits);
    }
    assert NameSet(t0) == {key} by {
      assert t0[0].0 == key;
      assert t0[0].0 in NameSet(t0);
    }
    assert Describes(t0, emits);
    GroupAllDescribes(emits);
    DescribesUnique(GroupAll(emits), t0, emits);
  }

  /** A table of one entry answers its one group. */
  lemma {:induction false} OneEntryMapped(t: Table)
    requires |t| == 1
    ensures MappedData(t) == [t[0].1]
  {
    var gs := MappedData(t);
    assert GroupsOf(t) == [t[0].1];
    assert gs[0] in multiset(gs);
  }
}
