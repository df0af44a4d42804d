/**
 Key canonicalisation (`_sortKey` in src/map.js): primitives are returned as
 they are; an object is rebuilt with its property names in sorted order, with
 every property value canonicalised in turn, at every nesting level.
 */
module Canonical {
  import opened Values
  import opened StringOrder

  /** Property names strictly increase along the field list. */
  predicate SortedByName(fs: seq<(string, Val)>)
  {
    forall i, j :: 0 <= i < j < |fs| ==> Below(fs[i].0, fs[j].0)
  }

  /** Inserts one field into a field list that is sorted by name. */
  function InsertField(f: (string, Val), fs: seq<(string, Val)>): (r: seq<(string, Val)>)
    ensures multiset(r) == multiset(fs) + multiset{f}
  {
    if |fs| == 0 then [f]
    else if Below(fs[0].0, f.0) then
      assert fs == [fs[0]] + fs[1..];
      [fs[0]] + InsertField(f, fs[1..])
    else [f] + fs
  }

  /** `Object.keys(id).sort()`, carrying each name's value along. */
  function SortFields(fs: seq<(string, Val)>): (r: seq<(string, Val)>)
    ensures multiset(r) == multiset(fs)
  {
    if |fs| == 0 then []
    else
      assert fs == [fs[0]] + fs[1..];
      InsertField(fs[0], SortFields(fs[1..]))
  }

  /**
   The canonical form of a key. The field values are canonicalised before the
   list is sorted; sorting looks at names only, so this is the same object the
   source builds by sorting the names first.
   */
  function Canon(v: Val): (r: Val)
    ensures r.Obj? <==> v.Obj?
    ensures !v.Obj? ==> r == v
    ensures v.Obj? ==> |r.fields| == |v.fields|
    decreases v
  {
    match v
    case Obj(fs) =>
      Obj(SortFields(seq(|fs|, i requires 0 <= i < |fs| => (fs[i].0, Canon(fs[i].1)))))
    case _ => v
  }

  /** A value that canonicalisation produces: sorted names at every depth. */
  predicate IsCanonical(v: Val)
    decreases v
  {
    match v
    case Obj(fs) =>
      SortedByName(fs) && forall i :: 0 <= i < |fs| ==> IsCanonical(fs[i].1)
    case _ => true
  }

  // ---------------------------------------------------------------------------
  // Sorting by name

  lemma SameElementsSameNames(a: seq<(string, Val)>, b: seq<(string, Val)>)
    requires multiset(a) == multiset(b)
    ensures NameSet(a) == NameSet(b)
  {
    forall x | x in NameSet(a) ensures x in NameSet(b) {
      var i :| 0 <= i < |a| && a[i].0 == x;
      assert a[i] in multiset(b);
      var j :| 0 <= j < |b| && b[j] == a[i];
    }
    forall x | x in NameSet(b) ensures x in NameSet(a) {
      var j :| 0 <= j < |b| && b[j].0 == x;
      assert b[j] in multiset(a);
      var i :| 0 <= i < |a| && a[i] == b[j];
    }
  }

  lemma SortedHasDistinctNames(fs: seq<(string, Val)>)
    requires SortedByName(fs)
    ensures DistinctNames(fs)
  {
    forall i, j | 0 <= i < |fs| && 0 <= j < |fs| && fs[i].0 == fs[j].0 ensures i == j {
      if i < j {
        BelowIrreflexive(fs[i].0);
      } else if j < i {
        BelowIrreflexive(fs[j].0);
      }
    }
  }

  lemma {:induction false} InsertFieldSorted(f: (string, Val), fs: seq<(string, Val)>)
    requires SortedByName(fs) && f.0 !in NameSet(fs)
    ensures SortedByName(InsertField(f, fs))
    decreases |fs|
  {
    if |fs| == 0 {
    } else if Below(fs[0].0, f.0) {
      var tail := fs[1..];
      assert NameSet(tail) <= NameSet(fs);
      InsertFieldSorted(f, tail);
      var t := InsertField(f, tail);
      var r := [fs[0]] + t;
      forall j | 0 < j < |r| ensures Below(r[0].0, r[j].0) {
        assert r[j] == t[j - 1];
        assert t[j - 1] in multiset(tail) + multiset{f};
        if t[j - 1] != f {
          var k :| 0 <= k < |tail| && tail[k] == t[j - 1];
          assert tail[k] == fs[k + 1];
        }
      }
    } else {
      assert fs[0].0 in NameSet(fs);
      BelowTotal(f.0, fs[0].0);
      var r := [f] + fs;
      forall j | 0 < j < |r| ensures Below(r[0].0, r[j].0) {
        if j > 1 {
          BelowTransitive(f.0, fs[0].0, fs[j - 1].0);
        }
      }
    }
  }

  lemma {:induction false} SortFieldsSorted(fs: seq<(string, Val)>)
    requires DistinctNames(fs)
    ensures SortedByName(SortFields(fs))
    decreases |fs|
  {
    if |fs| > 0 {
      var tail := fs[1..];
      SortFieldsSorted(tail);
      SameElementsSameNames(SortFields(tail), tail);
      assert fs[0].0 !in NameSet(tail) by {
        forall k | 0 <= k < |tail| ensures tail[k].0 != fs[0].0 {
          assert tail[k] == fs[k + 1];
        }
      }
      InsertFieldSorted(fs[0], SortFields(tail));
    }
  }

  lemma SortedTail(fs: seq<(string, Val)>)
    requires SortedByName(fs) && |fs| > 0
    ensures SortedByName(fs[1..])
    ensures NameSet(fs[1..]) == NameSet(fs) - {fs[0].0}
  {
    var tail := fs[1..];
    forall x | x in NameSet(fs) - {fs[0].0} ensures x in NameSet(tail) {
      var i :| 0 <= i < |fs| && fs[i].0 == x;
      assert tail[i - 1].0 == x;
    }
    forall x | x in NameSet(tail) ensures x in NameSet(fs) - {fs[0].0} {
      var i :| 0 <= i < |tail| && tail[i].0 == x;
      assert fs[i + 1].0 == x;
      assert Below(fs[0].0, x);
      BelowIrreflexive(x);
    }
  }

  /** Of two sorted field lists with the same names, the first names agree. */
  lemma SortedHead(fa: seq<(string, Val)>, fb: seq<(string, Val)>)
    requires SortedByName(fa) && SortedByName(fb) && NameSet(fa) == NameSet(fb) && |fa| > 0
    ensures |fb| > 0 && fa[0].0 == fb[0].0
  {
    assert fa[0].0 in NameSet(fa);
    var j :| 0 <= j < |fb| && fb[j].0 == fa[0].0;
    assert fb[0].0 in NameSet(fb);
    var m :| 0 <= m < |fa| && fa[m].0 == fb[0].0;
    if j > 0 && m > 0 {
      BelowAsymmetric(fb[0].0, fa[0].0);
    } else if j > 0 {
      BelowIrreflexive(fa[0].0);
    } else if m > 0 {
      BelowIrreflexive(fb[0].0);
    }
  }

  /** Two name-sorted lists with the same names list them in the same order. */
  lemma {:induction false} SortedNamesUnique(fa: seq<(string, Val)>, fb: seq<(string, Val)>)
    requires SortedByName(fa) && SortedByName(fb)
    requires NameSet(fa) == NameSet(fb)
    ensures |fa| == |fb|
    ensures forall i :: 0 <= i < |fa| ==> fa[i].0 == fb[i].0
    decreases |fa|
  {
    if |fa| > 0 {
      SortedHead(fa, fb);
      SortedTail(fa);
      SortedTail(fb);
      SortedNamesUnique(fa[1..], fb[1..]);
      assert forall i :: 1 <= i < |fa| ==> fa[i] == fa[1..][i - 1] && fb[i] == fb[1..][i - 1];
    } else if |fb| > 0 {
      SortedHead(fb, fa);
    }
  }

  // ---------------------------------------------------------------------------
  // Properties of Canon

  /** Canonicalisation yields a canonical, well-formed value. */
  lemma {:induction false} CanonIsCanonical(v: Val)
    requires WellFormed(v)
    ensures IsCanonical(Canon(v)) && WellFormed(Canon(v))
    decreases v
  {
    match v
    case Obj(fs) =>
      var m := seq(|fs|, i requires 0 <= i < |fs| => (fs[i].0, Canon(fs[i].1)));
      var r := SortFields(m);
      assert Canon(v) == Obj(r);
      assert DistinctNames(m) by {
        forall i, j | 0 <= i < |m| && 0 <= j < |m| && m[i].0 == m[j].0 ensures i == j {
          assert fs[i].0 == fs[j].0;
        }
      }
      SortFieldsSorted(m);
      SortedHasDistinctNames(r);
      forall k | 0 <= k < |r| ensures IsCanonical(r[k].1) && WellFormed(r[k].1) {
        assert r[k] in multiset(m);
        var i :| 0 <= i < |m| && m[i] == r[k];
        CanonIsCanonical(fs[i].1);
      }
    case _ =>
  }

  /** Canonicalisation keeps every property name and every value up to Equiv. */
  lemma {:induction false} CanonEquiv(v: Val)
    requires WellFormed(v)
    ensures Equiv(v, Canon(v))
    decreases v
  {
    match v
    case Obj(fs) =>
      var m := seq(|fs|, i requires 0 <= i < |fs| => (fs[i].0, Canon(fs[i].1)));
      var r := SortFields(m);
      assert Canon(v) == Obj(r);
      SameNamesAsFields(fs, m);
      SameElementsSameNames(r, m);
      forall i | 0 <= i < |fs| ensures Equiv(fs[i].1, m[i].1) {
        CanonEquiv(fs[i].1);
      }
      SortedValuesEquiv(fs, m, r);
    case _ =>
  }

  /** Replacing every field's value keeps the names. */
  lemma SameNamesAsFields(fs: seq<(string, Val)>, m: seq<(string, Val)>)
    requires |m| == |fs| && forall i :: 0 <= i < |fs| ==> m[i].0 == fs[i].0
    ensures NameSet(m) == NameSet(fs)
  {
    forall x | x in NameSet(fs) ensures x in NameSet(m) {
      var i :| 0 <= i < |fs| && fs[i].0 == x;
      assert m[i].0 == x;
    }
  }

  /**
   Fields paired one to one with equivalent values keep that pairing, by
   name, in any permutation.
   */
  lemma SortedValuesEquiv(fs: seq<(string, Val)>, m: seq<(string, Val)>, r: seq<(string, Val)>)
    requires DistinctNames(fs) && |m| == |fs| && multiset(r) == multiset(m)
    requires forall i :: 0 <= i < |fs| ==> m[i].0 == fs[i].0 && Equiv(fs[i].1, m[i].1)
    ensures forall i, k :: 0 <= i < |fs| && 0 <= k < |r| && fs[i].0 == r[k].0 ==> Equiv(fs[i].1, r[k].1)
  {
    forall i, k | 0 <= i < |fs| && 0 <= k < |r| && fs[i].0 == r[k].0
      ensures Equiv(fs[i].1, r[k].1)
    {
      assert r[k] in multiset(m);
      var j :| 0 <= j < |m| && m[j] == r[k];
      assert fs[j].0 == fs[i].0;
    }
  }

  lemma {:induction false} CanonicalIsWellFormed(v: Val)
    requires IsCanonical(v)
    ensures WellFormed(v)
    decreases v
  {
    match v
    case Obj(fs) =>
      SortedHasDistinctNames(fs);
      forall i | 0 <= i < |fs| ensures WellFormed(fs[i].1) {
        CanonicalIsWellFormed(fs[i].1);
      }
    case _ =>
  }

  /** A canonical form is determined by its Equiv class. */
  lemma {:induction false} CanonicalUnique(a: Val, b: Val)
    requires IsCanonical(a) && IsCanonical(b) && Equiv(a, b)
    ensures a == b
    decreases a
  {
    match (a, b)
    case (Obj(fa), Obj(fb)) =>
      SortedNamesUnique(fa, fb);
      forall i | 0 <= i < |fa| ensures fa[i] == fb[i] {
        CanonicalUnique(fa[i].1, fb[i].1);
      }
    case _ =>
  }

  /** `_sortKey` leaves an already sorted key as it is. */
  lemma CanonFixesCanonical(v: Val)
    requires IsCanonical(v)
    ensures Canon(v) == v
  {
    CanonicalIsWellFormed(v);
    CanonEquiv(v);
    CanonIsCanonical(v);
    EquivSymmetric(v, Canon(v));
    CanonicalUnique(Canon(v), v);
  }

  /** `_sortKey` is idempotent. */
  lemma CanonIdempotent(v: Val)
    requires WellFormed(v)
    ensures Canon(Canon(v)) == Canon(v)
  {
    CanonIsCanonical(v);
    CanonFixesCanonical(Canon(v));
  }

  /**
   Two well-formed keys canonicalise identically exactly when they are equal up
   to property order at every depth.
   */
  lemma CanonEqualIffEquiv(a: Val, b: Val)
    requires WellFormed(a) && WellFormed(b)
    ensures Canon(a) == Canon(b) <==> Equiv(a, b)
  {
    CanonEquiv(a);
    CanonEquiv(b);
    EquivSymmetric(b, Canon(b));
    if Canon(a) == Canon(b) {
      EquivTransitive(a, Canon(a), b);
    }
    if Equiv(a, b) {
      EquivSymmetric(a, Canon(a));
      EquivTransitive(Canon(a), a, b);
      EquivTransitive(Canon(a), b, Canon(b));
      CanonIsCanonical(a);
      CanonIsCanonical(b);
      CanonicalUnique(Canon(a), Canon(b));
    }
  }
}
