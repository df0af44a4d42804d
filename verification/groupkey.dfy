/**
 The group key of an emitted id (`_getKey` in src/map.js): the JSON text of
 its canonical form. Two ids share a group exactly when their keys are equal
 strings.
 */
module GroupKey {
  import opened Wrappers
  import opened Values
  import opened Canonical
  import opened JsonText
  import opened PropertyOrder

  /** An id whose key is an array-index property name. */
  predicate IsSmallIndex(id: Val)
  {
    id.Num? && 0 <= id.n <= MaxArrayIndex
  }

  /**
   The key of an id: the JSON text of its canonical form. Its first character
   tells object ids and string ids apart from every other kind.
   */
  function GetKey(id: Val): (key: string)
    ensures |key| > 0
    ensures key[0] == '{' <==> id.Obj?
    ensures key[0] == '"' <==> id.Str?
  {
    Serialize(Canon(id))
  }

  /** The key reads back, in full, as the canonical form of the id. */
  lemma KeyReadsBack(id: Val)
    ensures ReadValue(GetKey(id)) == Some((Canon(id), ""))
  {
    ReadWrittenValue(Canon(id), "");
    assert GetKey(id) + "" == GetKey(id);
  }

  /**
   Two well-formed ids get the same key exactly when they are equal up to the
   order of properties, at every depth.
   */
  lemma SameKeyIffEquiv(a: Val, b: Val)
    requires WellFormed(a) && WellFormed(b)
    ensures GetKey(a) == GetKey(b) <==> Equiv(a, b)
  {
    CanonEqualIffEquiv(a, b);
    if GetKey(a) == GetKey(b) {
      SerializeInjective(Canon(a), Canon(b));
    }
  }

  /**
   Primitive ids share a key only when they are the same primitive, so the
   number 42 and the string "42" are kept apart.
   */
  lemma PrimitiveKeys(a: Val, b: Val)
    requires !a.Obj? && !b.Obj?
    ensures GetKey(a) == GetKey(b) <==> a == b
  {
    if GetKey(a) == GetKey(b) {
      SerializeInjective(Canon(a), Canon(b));
    }
  }

  lemma {:induction false} NatTextNoLeadingZero(n: nat)
    ensures NatText(n)[0] != '0' || n == 0
    decreases n
  {
    if n >= 10 {
      NatTextNoLeadingZero(n / 10);
    }
  }

  /**
   A key names an array-index property exactly when the id is a number in
   0 .. 2^32 - 2; that is the number the key's position in `Object.keys`
   is sorted by.
   */
  lemma KeyArrayIndex(id: Val)
    requires WellFormed(id)
    ensures ArrayIndex(GetKey(id)) ==
      if IsSmallIndex(id) then Some(id.n) else None
  {
    var c := Canon(id);
    var key := GetKey(id);
    match id
    case Num(n) =>
      assert c == id;
      if n < 0 {
        assert key[0] == '-';
      } else {
        NatTextDigits(n);
        NatTextNoLeadingZero(n);
        if n >= 10 {
          assert |NatText(n)| > 1 by { assert NatText(n) == NatText(n / 10) + [DigitChar(n % 10)]; NatTextDigits(n / 10); }
        }
      }
    case Str(s) =>
      assert key[0] == '"';
    case Obj(_) =>
      assert key[0] == '{';
    case Null =>
      assert key[0] == 'n';
    case Bool(b) =>
      assert key[0] == 't' || key[0] == 'f';
  }
}
