/**
 The key and value universe of the map/reduce emulation: the JSON-like data a
 map function passes to `emit`. Objects are sequences of named fields in their
 property (insertion) order; JavaScript objects cannot repeat a property name,
 which `WellFormed` states at every nesting level.
 */
module Values {

  datatype Val =
    | Null
    | Bool(b: bool)
    | Num(n: int)
    | Str(s: string)
    | Obj(fields: seq<(string, Val)>)

  /** The set of names of a list of named entries (object fields, table properties). */
  function NameSet<T>(fs: seq<(string, T)>): set<string>
  {
    set i | 0 <= i < |fs| :: fs[i].0
  }

  predicate DistinctNames(fs: seq<(string, Val)>)
  {
    forall i, j :: 0 <= i < |fs| && 0 <= j < |fs| && fs[i].0 == fs[j].0 ==> i == j
  }

  /** A value that a JavaScript object graph (without arrays) can denote. */
  predicate WellFormed(v: Val)
    decreases v
  {
    match v
    case Obj(fs) =>
      DistinctNames(fs) && forall i :: 0 <= i < |fs| ==> WellFormed(fs[i].1)
    case _ => true
  }

  /**
   Structural equality that ignores property order, at every depth: the
   relation under which the map phase puts two ids into the same group.
   */
  predicate Equiv(a: Val, b: Val)
    decreases a
  {
    match (a, b)
    case (Obj(fa), Obj(fb)) =>
      && NameSet(fa) == NameSet(fb)
      && forall i, j :: 0 <= i < |fa| && 0 <= j < |fb| && fa[i].0 == fb[j].0 ==> Equiv(fa[i].1, fb[j].1)
    case _ => a == b
  }

  lemma {:induction false} EquivReflexive(a: Val)
    requires WellFormed(a)
    ensures Equiv(a, a)
    decreases a
  {
    match a
    case Obj(fa) =>
      forall i, j | 0 <= i < |fa| && 0 <= j < |fa| && fa[i].0 == fa[j].0
        ensures Equiv(fa[i].1, fa[j].1)
      {
        assert i == j;
        EquivReflexive(fa[i].1);
      }
    case _ =>
  }

  lemma {:induction false} EquivSymmetric(a: Val, b: Val)
    requires Equiv(a, b)
    ensures Equiv(b, a)
    decreases a
  {
    match (a, b)
    case (Obj(fa), Obj(fb)) =>
      forall j, i | 0 <= j < |fb| && 0 <= i < |fa| && fb[j].0 == fa[i].0
        ensures Equiv(fb[j].1, fa[i].1)
      {
        EquivSymmetric(fa[i].1, fb[j].1);
      }
    case _ =>
  }

  lemma {:induction false} EquivTransitive(a: Val, b: Val, c: Val)
    requires Equiv(a, b) && Equiv(b, c)
    ensures Equiv(a, c)
    decreases a
  {
    match (a, b, c)
    case (Obj(fa), Obj(fb), Obj(fc)) =>
      forall i, k | 0 <= i < |fa| && 0 <= k < |fc| && fa[i].0 == fc[k].0
        ensures Equiv(fa[i].1, fc[k].1)
      {
        assert fa[i].0 in NameSet(fb);
        var j :| 0 <= j < |fb| && fb[j].0 == fa[i].0;
        EquivTransitive(fa[i].1, fb[j].1, fc[k].1);
      }
    case _ =>
  }
}
