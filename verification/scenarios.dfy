/**
 The map phase on the concrete data of the repository's own map tests
 (spec/src/map-spec.js), derived from the general lemmas.
 */
module Scenarios {
  import opened Wrappers
  import opened Values
  import opened GroupKey
  import opened Grouping
  import opened PropertyOrder
  import opened Mapper

  /**
   A map function that calls `emit(42, value)` once per record: one group under
   42 holding every record's value in record order.
   */
  lemma {:induction false} OneKeyGroupsAll(values: seq<Val>)
    requires |values| > 0
    ensures MappedData(GroupAll(seq(|values|, k requires 0 <= k < |values| => Emission(Num(42), values[k]))))
            == [Group(Num(42), values)]
  {
    var emits := seq(|values|, k requires 0 <= k < |values| => Emission(Num(42), values[k]));
    SameIdGroup(emits, Num(42));
    assert seq(|emits|, k requires 0 <= k < |emits| => emits[k].value) == values;
  }

  /** Emissions that all use one primitive id form a single group under it. */
  lemma SameIdGroup(emits: seq<Emission>, id: Val)
    requires |emits| > 0 && !id.Obj?
    requires forall k :: 0 <= k < |emits| ==> emits[k].id == id
    ensures MappedData(GroupAll(emits)) ==
      [Group(id, seq(|emits|, k requires 0 <= k < |emits| => emits[k].value))]
  {
    assert AllWellFormed(emits);
    assert Equiv(id, id);
    SingleGroup(emits);
  }

  /**
   Ids that are array indices come out in ascending numeric order, not in the
   order they were first emitted: `emit(2, a)` then `emit(1, b)` lists the
   group of 1 first.
   */
  lemma IndexKeysAscend(a: Val, b: Val)
    ensures MappedData(GroupAll([Emission(Num(2), a), Emission(Num(1), b)]))
            == [Group(Num(1), [b]), Group(Num(2), [a])]
  {
    SmallerIndexFirst(Emission(Num(2), a), Emission(Num(1), b));
  }

  /** Two array-index ids emitted in descending order are listed ascending. */
  lemma SmallerIndexFirst(e1: Emission, e2: Emission)
    requires IsSmallIndex(e1.id) && IsSmallIndex(e2.id) && e2.id.n < e1.id.n
    ensures MappedData(GroupAll([e1, e2])) == [Group(e2.id, [e2.value]), Group(e1.id, [e1.value])]
  {
    PrimitiveKeys(e1.id, e2.id);
    TwoKeys(e1, e2);
    KeyArrayIndex(e1.id);
    KeyArrayIndex(e2.id);
    var t := GroupAll([e1, e2]);
    DescendingPair(t);
  }

  /** Two array-index properties created in descending order enumerate ascending. */
  lemma DescendingPair(t: Table)
    requires |t| == 2 && IsIndexName(t[0].0) && IsIndexName(t[1].0)
    requires IndexOf(t[1].0) < IndexOf(t[0].0)
    ensures MappedData(t) == [t[1].1, t[0].1]
  {
    DescendingEnumeration(t);
  }

  lemma DescendingEnumeration<T>(t: seq<(string, T)>)
    requires |t| == 2 && IsIndexName(t[0].0) && IsIndexName(t[1].0)
    requires IndexOf(t[1].0) < IndexOf(t[0].0)
    ensures EnumerationOrder(t) == [t[1], t[0]]
  {
    BothIndexed(t);
    BothSorted(t);
    assert t[1..] == [t[1]] && t[1..][1..] == [];
    assert Named(t[1..]) == [] + Named(t[1..][1..]);
  }

  lemma BothSorted<T>(t: seq<(string, T)>)
    requires |t| == 2 && IndexOf(t[1].0) < IndexOf(t[0].0)
    ensures SortByIndex(t) == [t[1], t[0]]
  {
    assert t[1..] == [t[1]] && t[1..][1..] == [];
    assert SortByIndex(t[1..]) == [t[1]];
    assert [t[1]][1..] == [];
    assert InsertByIndex(t[0], [t[1]]) == [t[1]] + InsertByIndex(t[0], []);
    assert SortByIndex(t) == InsertByIndex(t[0], SortByIndex(t[1..]));
  }

  /** Two emissions with different keys make two groups, in emission order. */
  lemma TwoKeys(e1: Emission, e2: Emission)
    requires KeyOf(e1) != KeyOf(e2)
    ensures GroupAll([e1, e2]) == [(KeyOf(e1), Group(e1.id, [e1.value])), (KeyOf(e2), Group(e2.id, [e2.value]))]
  {
    var emits := [e1, e2];
    assert emits[..1] == [e1] && [e1][..0] == [];
    assert GroupAll([e1]) == [(KeyOf(e1), Group(e1.id, [e1.value]))];
  }

  /** An emission with the first entry's key joins that entry. */
  lemma JoinFirst(t: Table, e: Emission)
    requires |t| == 2 && t[0].0 == KeyOf(e)
    ensures AddToGroup(t, e) == [(t[0].0, Group(t[0].1.id, t[0].1.values + [e.value])), t[1]]
  {
    assert Find(t, KeyOf(e)) == Some(0);
  }

  lemma BothIndexed<T>(t: seq<(string, T)>)
    requires |t| == 2 && IsIndexName(t[0].0) && IsIndexName(t[1].0)
    ensures Indexed(t) == t
  {
    assert Indexed(t[1..]) == [t[1]] + Indexed(t[2..]);
  }

  /** The number 42 and the string "42" are different group keys. */
  lemma NumberAndStringKeysDiffer()
    ensures GetKey(Num(42)) != GetKey(Str("42"))
  {
    PrimitiveKeys(Num(42), Str("42"));
  }

  /**
   Nested object ids that differ only in property order, at any depth, share a
   key; an id with a different `x` and no `y` does not.
   */
  lemma {:induction false} NestedIdsShareKey(x: Val, a: Val, b: Val, other: Val)
    requires WellFormed(x) && WellFormed(a) && WellFormed(b) && WellFormed(other)
    ensures var first := Obj([("x", x), ("y", Obj([("a", a), ("b", b)]))]);
            var second := Obj([("x", other)]);
            var third := Obj([("y", Obj([("b", b), ("a", a)])), ("x", x)]);
            GetKey(first) == GetKey(third) && GetKey(first) != GetKey(second)
  {
    var first := Obj([("x", x), ("y", Obj([("a", a), ("b", b)]))]);
    var second := Obj([("x", other)]);
    var third := Obj([("y", Obj([("b", b), ("a", a)])), ("x", x)]);
    NestedIdsEquiv(x, a, b, other, first, second, third);
    SameKeyIffEquiv(first, third);
    SameKeyIffEquiv(first, second);
  }

  /**
   The whole nested-ids run: the first and third records share a group shown
   under the first record's id, holding both values in record order; the
   second record gets a group of its own, after it.
   */
  lemma {:induction false} NestedIdsGrouped(x: Val, a: Val, b: Val, other: Val, v1: Val, v2: Val, v3: Val)
    requires WellFormed(x) && WellFormed(a) && WellFormed(b) && WellFormed(other)
    ensures var first := Obj([("x", x), ("y", Obj([("a", a), ("b", b)]))]);
            var second := Obj([("x", other)]);
            var third := Obj([("y", Obj([("b", b), ("a", a)])), ("x", x)]);
            MappedData(GroupAll([Emission(first, v1), Emission(second, v2), Emission(third, v3)]))
            == [Group(first, [v1, v3]), Group(second, [v2])]
  {
    var first := Obj([("x", x), ("y", Obj([("a", a), ("b", b)]))]);
    var second := Obj([("x", other)]);
    var third := Obj([("y", Obj([("b", b), ("a", a)])), ("x", x)]);
    NestedIdsShareKey(x, a, b, other);
    NestedIdsEquiv(x, a, b, other, first, second, third);
    ThreeEmissions(Emission(first, v1), Emission(second, v2), Emission(third, v3));
  }

  /**
   Three emissions whose first and last ids share a key that the middle one
   does not have: two groups, in first-seen order, when no id is an array index.
   */
  lemma ThreeEmissions(e1: Emission, e2: Emission, e3: Emission)
    requires WellFormed(e1.id) && WellFormed(e2.id) && WellFormed(e3.id)
    requires !IsSmallIndex(e1.id) && !IsSmallIndex(e2.id) && !IsSmallIndex(e3.id)
    requires KeyOf(e1) == KeyOf(e3) && KeyOf(e1) != KeyOf(e2)
    ensures MappedData(GroupAll([e1, e2, e3])) == [Group(e1.id, [e1.value, e3.value]), Group(e2.id, [e2.value])]
  {
    var emits := [e1, e2, e3];
    assert emits[..2] == [e1, e2];
    TwoKeys(e1, e2);
    var t2 := GroupAll([e1, e2]);
    JoinFirst(t2, e3);
    var t3 := [(KeyOf(e1), Group(e1.id, [e1.value, e3.value])), (KeyOf(e2), Group(e2.id, [e2.value]))];
    assert [e1.value] + [e3.value] == [e1.value, e3.value];
    assert GroupAll(emits) == AddToGroup(t2, e3);
    assert GroupsOf(t3) == [t3[0].1, t3[1].1];
    MappedDataFirstSeen(emits);
  }

  lemma NestedIdsEquiv(x: Val, a: Val, b: Val, other: Val, first: Val, second: Val, third: Val)
    requires WellFormed(x) && WellFormed(a) && WellFormed(b) && WellFormed(other)
    requires first == Obj([("x", x), ("y", Obj([("a", a), ("b", b)]))])
    requires second == Obj([("x", other)])
    requires third == Obj([("y", Obj([("b", b), ("a", a)])), ("x", x)])
    ensures WellFormed(first) && WellFormed(second) && WellFormed(third)
    ensures Equiv(first, third) && !Equiv(first, second)
  {
    var ya := Obj([("a", a), ("b", b)]);
    var yc := Obj([("b", b), ("a", a)]);
    EquivReflexive(x);
    EquivReflexive(a);
    EquivReflexive(b);
    SwappedPair("a", a, "b", b, a, b);
    PairWellFormed("a", a, "b", b);
    PairWellFormed("b", b, "a", a);
    SwappedPair("x", x, "y", ya, x, yc);
    PairWellFormed("x", x, "y", ya);
    PairWellFormed("y", yc, "x", x);
    MissingName("x", x, "y", ya, other);
    assert WellFormed(second) by {
      assert DistinctNames(second.fields);
    }
  }

  /** Two-field objects listing equivalent values in the other order are equivalent. */
  lemma SwappedPair(n1: string, v1: Val, n2: string, v2: Val, w1: Val, w2: Val)
    requires n1 != n2 && Equiv(v1, w1) && Equiv(v2, w2)
    ensures Equiv(Obj([(n1, v1), (n2, v2)]), Obj([(n2, w2), (n1, w1)]))
  {
    PairNames((n1, v1), (n2, v2));
    PairNames((n2, w2), (n1, w1));
  }

  lemma PairWellFormed(n1: string, v1: Val, n2: string, v2: Val)
    requires n1 != n2 && WellFormed(v1) && WellFormed(v2)
    ensures WellFormed(Obj([(n1, v1), (n2, v2)]))
  {
  }

  /** An object with a name the other lacks is not equivalent to it. */
  lemma MissingName(n1: string, v1: Val, n2: string, v2: Val, w: Val)
    requires n1 != n2
    ensures !Equiv(Obj([(n1, v1), (n2, v2)]), Obj([(n1, w)]))
  {
    var fa, fb := [(n1, v1), (n2, v2)], [(n1, w)];
    assert fa[1].0 in NameSet(fa);
    assert n2 !in NameSet(fb);
  }

  lemma PairNames(f: (string, Val), g: (string, Val))
    ensures NameSet([f, g]) == {f.0, g.0}
  {
    var fs := [f, g];
    assert fs[0].0 in NameSet(fs) && fs[1].0 in NameSet(fs);
  }
}
