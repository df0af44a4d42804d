/**
 `JSON.stringify` restricted to the values of this model (the text `_getKey`
 turns a canonical key into), together with a reader that inverts it. The
 reader exists to prove that the text determines the value, so that comparing
 group keys as strings is the same as comparing canonical values.
 */
module JsonText {
  import opened Values
  import opened Wrappers

  // ---------------------------------------------------------------------------
  // Writing

  function DigitChar(d: nat): char
    requires d < 10
  {
    (('0' as int) + d) as char
  }

  predicate IsDigit(c: char)
  {
    '0' <= c <= '9'
  }

  /** Decimal digits of a natural number, without leading zeros. */
  function NatText(n: nat): string
    decreases n
  {
    if n < 10 then [DigitChar(n)] else NatText(n / 10) + [DigitChar(n % 10)]
  }

  /** Number-to-string conversion for integral numbers. */
  function IntText(n: int): string
  {
    if n < 0 then "-" + NatText(-n) else NatText(n)
  }

  /** Lower-case hexadecimal digit, as used in `\u00XX` escapes. */
  function HexChar(d: nat): char
    requires d < 16
  {
    if d < 10 then DigitChar(d) else (('a' as int) + d - 10) as char
  }

  /** The escape `JSON.stringify` writes for one character of a string. */
  function EscapeChar(c: char): string
  {
    var code := c as int;
    if c == '"' then "\\\""
    else if c == '\\' then "\\\\"
    else if code == 0x08 then "\\b"
    else if code == 0x09 then "\\t"
    else if code == 0x0A then "\\n"
    else if code == 0x0C then "\\f"
    else if code == 0x0D then "\\r"
    else if code < 0x20 then "\\u00" + [HexChar(code / 16), HexChar(code % 16)]
    else [c]
  }

  function EscapeText(s: string): string
  {
    if |s| == 0 then "" else EscapeChar(s[0]) + EscapeText(s[1..])
  }

  /** A string literal: the escaped text between double quotes. */
  function Quote(s: string): string
  {
    "\"" + EscapeText(s) + "\""
  }

  /** The parts separated by commas. */
  function Join(parts: seq<string>): string
  {
    if |parts| == 0 then ""
    else if |parts| == 1 then parts[0]
    else parts[0] + "," + Join(parts[1..])
  }

  /**
   The JSON text of a value; object members appear in field order. The first
   character tells an object and a string apart from every other kind.
   */
  function Serialize(v: Val): (s: string)
    ensures |s| > 0
    ensures s[0] == '{' <==> v.Obj?
    ensures s[0] == '"' <==> v.Str?
    decreases v
  {
    match v
    case Null => "null"
    case Bool(b) => if b then "true" else "false"
    case Num(n) =>
      NatTextDigits(if n < 0 then -n else n);
      IntText(n)
    case Str(s) => Quote(s)
    case Obj(fs) =>
      "{" + Join(seq(|fs|, i requires 0 <= i < |fs| => MemberText(fs[i]))) + "}"
  }

  /** One object member, `"name":value`. */
  function MemberText(f: (string, Val)): string
    decreases f
  {
    Quote(f.0) + ":" + Serialize(f.1)
  }

  // ---------------------------------------------------------------------------
  // Reading

  function DigitValue(c: char): nat
    requires IsDigit(c)
  {
    (c as int) - ('0' as int)
  }

  /** The number a string of decimal digits denotes. */
  function DigitsValue(ds: string): nat
    requires forall k :: 0 <= k < |ds| ==> IsDigit(ds[k])
  {
    if |ds| == 0 then 0 else DigitsValue(ds[..|ds| - 1]) * 10 + DigitValue(ds[|ds| - 1])
  }

  /** Length of the longest prefix made of digits. */
  function DigitRun(s: string): (k: nat)
    ensures k <= |s|
    ensures forall j :: 0 <= j < k ==> IsDigit(s[j])
  {
    if |s| > 0 && IsDigit(s[0]) then 1 + DigitRun(s[1..]) else 0
  }

  function ReadNat(s: string): (r: Option<(nat, string)>)
    ensures r.Some? ==> |r.value.1| < |s|
  {
    var k := DigitRun(s);
    if k == 0 then None else Some((DigitsValue(s[..k]), s[k..]))
  }

  function HexValue(c: char): Option<nat>
  {
    if '0' <= c <= '9' then Some((c as int) - ('0' as int))
    else if 'a' <= c <= 'f' then Some((c as int) - ('a' as int) + 10)
    else if 'A' <= c <= 'F' then Some((c as int) - ('A' as int) + 10)
    else None
  }

  /** The character after a backslash in a string literal. */
  function ReadEscape(s: string): (r: Option<(char, string)>)
    ensures r.Some? ==> |r.value.1| < |s|
  {
    if |s| == 0 then None
    else if s[0] == '"' then Some(('"', s[1..]))
    else if s[0] == '\\' then Some(('\\', s[1..]))
    else if s[0] == '/' then Some(('/', s[1..]))
    else if s[0] == 'b' then Some((0x08 as char, s[1..]))
    else if s[0] == 't' then Some((0x09 as char, s[1..]))
    else if s[0] == 'n' then Some((0x0A as char, s[1..]))
    else if s[0] == 'f' then Some((0x0C as char, s[1..]))
    else if s[0] == 'r' then Some((0x0D as char, s[1..]))
    else if s[0] == 'u' && |s| >= 5 then
      match (HexValue(s[1]), HexValue(s[2]), HexValue(s[3]), HexValue(s[4]))
      case (Some(h1), Some(h2), Some(h3), Some(h4)) =>
        var code := ((h1 * 16 + h2) * 16 + h3) * 16 + h4;
        if code < 0xD800 || 0xE000 <= code < 0x11_0000 then Some((code as char, s[5..])) else None
      case _ => None
    else None
  }

  /** The rest of a string literal whose opening quote has been read. */
  function ReadString(s: string): (r: Option<(string, string)>)
    ensures r.Some? ==> |r.value.1| < |s|
    decreases |s|
  {
    if |s| == 0 then None
    else if s[0] == '"' then Some(([], s[1..]))
    else if s[0] == '\\' then
      match ReadEscape(s[1..])
      case None => None
      case Some((c, rest)) =>
        match ReadString(rest)
        case None => None
        case Some((t, rest')) => Some(([c] + t, rest'))
    else
      match ReadString(s[1..])
      case None => None
      case Some((t, rest)) => Some(([s[0]] + t, rest))
  }

  predicate StartsWith(s: string, p: string)
  {
    |p| <= |s| && s[..|p|] == p
  }

  /** Reads one value from the front of `s`, returning it and what follows. */
  function ReadValue(s: string): (r: Option<(Val, string)>)
    ensures r.Some? ==> |r.value.1| < |s|
    decreases |s|
  {
    if |s| == 0 then None
    else if s[0] == '"' then
      match ReadString(s[1..])
      case None => None
      case Some((t, rest)) => Some((Str(t), rest))
    else if s[0] == '{' then
      if |s| > 1 && s[1] == '}' then Some((Obj([]), s[2..]))
      else
        match ReadMembers(s[1..])
        case None => None
        case Some((fs, rest)) => Some((Obj(fs), rest))
    else if s[0] == '-' then
      match ReadNat(s[1..])
      case None => None
      case Some((n, rest)) => var m: int := n; Some((Num(-m), rest))
    else if IsDigit(s[0]) then
      match ReadNat(s)
      case None => None
      case Some((n, rest)) => Some((Num(n), rest))
    else if StartsWith(s, "null") then Some((Null, s[4..]))
    else if StartsWith(s, "true") then Some((Bool(true), s[4..]))
    else if StartsWith(s, "false") then Some((Bool(false), s[5..]))
    else None
  }

  /** Reads `"name":value` members up to and including the closing brace. */
  function ReadMembers(s: string): (r: Option<(seq<(string, Val)>, string)>)
    ensures r.Some? ==> |r.value.1| < |s|
    decreases |s|
  {
    if |s| == 0 || s[0] != '"' then None
    else
      match ReadString(s[1..])
      case None => None
      case Some((name, r1)) =>
        if |r1| == 0 || r1[0] != ':' then None
        else
          match ReadValue(r1[1..])
          case None => None
          case Some((v, r2)) =>
            if |r2| == 0 then None
            else if r2[0] == '}' then Some(([(name, v)], r2[1..]))
            else if r2[0] == ',' then
              match ReadMembers(r2[1..])
              case None => None
              case Some((more, r3)) => Some(([(name, v)] + more, r3))
            else None
  }

  // ---------------------------------------------------------------------------
  // Reading inverts writing

  /** What may follow a value inside the text of a key. */
  predicate Delimits(rest: string)
  {
    |rest| == 0 || rest[0] == ',' || rest[0] == '}'
  }

  lemma {:induction false} NatTextDigits(n: nat)
    ensures |NatText(n)| > 0
    ensures forall k :: 0 <= k < |NatText(n)| ==> IsDigit(NatText(n)[k])
    ensures DigitsValue(NatText(n)) == n
    decreases n
  {
    if n >= 10 {
      NatTextDigits(n / 10);
      var t := NatText(n);
      assert t[..|t| - 1] == NatText(n / 10);
    }
  }

  lemma {:induction false} DigitRunStops(ds: string, rest: string)
    requires forall k :: 0 <= k < |ds| ==> IsDigit(ds[k])
    requires |rest| == 0 || !IsDigit(rest[0])
    ensures DigitRun(ds + rest) == |ds|
    decreases |ds|
  {
    if |ds| > 0 {
      assert (ds + rest)[1..] == ds[1..] + rest;
      DigitRunStops(ds[1..], rest);
    } else {
      assert ds + rest == rest;
    }
  }

  lemma ReadNatText(n: nat, rest: string)
    requires Delimits(rest)
    ensures ReadNat(NatText(n) + rest) == Some((n, rest))
  {
    var t := NatText(n);
    NatTextDigits(n);
    DigitRunStops(t, rest);
    assert (t + rest)[..|t|] == t;
    assert (t + rest)[|t|..] == rest;
  }

  lemma ReadEscapedChar(c: char, t: string)
    ensures ReadString(EscapeChar(c) + t) ==
      match ReadString(t)
      case None => None
      case Some((x, rest)) => Some(([c] + x, rest))
  {
    var e := EscapeChar(c);
    var code := c as int;
    var s := e + t;
    if c == '"' || c == '\\' || code == 0x08 || code == 0x09 || code == 0x0A || code == 0x0C || code == 0x0D {
      assert s[1..][1..] == t;
    } else if code < 0x20 {
      var h1, h2 := code / 16, code % 16;
      assert HexValue(HexChar(h1)) == Some(h1);
      assert HexValue(HexChar(h2)) == Some(h2);
      assert s[1..][5..] == t;
    } else {
      assert s[1..] == t;
    }
  }

  lemma {:induction false} ReadQuotedText(x: string, rest: string)
    ensures ReadString(EscapeText(x) + "\"" + rest) == Some((x, rest))
    decreases |x|
  {
    if |x| == 0 {
      assert EscapeText(x) + "\"" + rest == "\"" + rest;
    } else {
      var tail := EscapeText(x[1..]) + "\"" + rest;
      assert EscapeText(x) + "\"" + rest == EscapeChar(x[0]) + tail;
      ReadEscapedChar(x[0], tail);
      ReadQuotedText(x[1..], rest);
      assert [x[0]] + x[1..] == x;
    }
  }

  /** The members of an object, written. */
  function MemberTexts(fs: seq<(string, Val)>): (parts: seq<string>)
    ensures |parts| == |fs|
  {
    seq(|fs|, i requires 0 <= i < |fs| => MemberText(fs[i]))
  }

  lemma ReadNegative(s: string, m: nat, rest: string)
    requires |s| > 0 && s[0] == '-' && ReadNat(s[1..]) == Some((m, rest))
    ensures ReadValue(s) == Some((Num(-(m as int)), rest))
  {
  }

  lemma ReadNonNegative(s: string, m: nat, rest: string)
    requires |s| > 0 && IsDigit(s[0]) && ReadNat(s) == Some((m, rest))
    ensures ReadValue(s) == Some((Num(m), rest))
  {
  }

  lemma ReadWrittenNatural(m: nat, rest: string)
    requires Delimits(rest)
    ensures ReadValue(NatText(m) + rest) == Some((Num(m), rest))
  {
    var s := NatText(m) + rest;
    NatTextDigits(m);
    assert s[0] == NatText(m)[0];
    ReadNatText(m, rest);
    ReadNonNegative(s, m, rest);
  }

  lemma ReadWrittenNegative(m: nat, rest: string)
    requires Delimits(rest)
    ensures ReadValue("-" + NatText(m) + rest) == Some((Num(-(m as int)), rest))
  {
    var s := "-" + NatText(m) + rest;
    assert s[1..] == NatText(m) + rest;
    ReadNatText(m, rest);
    ReadNegative(s, m, rest);
  }

  lemma ReadWrittenNum(n: int, rest: string)
    requires Delimits(rest)
    ensures ReadValue(IntText(n) + rest) == Some((Num(n), rest))
  {
    if n < 0 {
      assert IntText(n) == "-" + NatText(-n);
      ReadWrittenNegative(-n, rest);
    } else {
      assert IntText(n) == NatText(n);
      ReadWrittenNatural(n, rest);
    }
  }

  lemma ReadWrittenStr(x: string, rest: string)
    ensures ReadValue(Quote(x) + rest) == Some((Str(x), rest))
  {
    var s := Quote(x) + rest;
    assert s[0] == '"';
    assert s[1..] == EscapeText(x) + "\"" + rest;
    ReadQuotedText(x, rest);
  }

  lemma ReadWrittenLiteral(v: Val, rest: string)
    requires v.Null? || v.Bool?
    ensures ReadValue(Serialize(v) + rest) == Some((v, rest))
  {
    var s := Serialize(v) + rest;
    match v
    case Null =>
      assert s[..4] == "null";
      assert s[4..] == rest;
    case Bool(b) =>
      if b {
        assert s[..4] == "true";
        assert s[4..] == rest;
      } else {
        assert s[..4] != "null" && s[..4] != "true";
        assert s[..5] == "false";
        assert s[5..] == rest;
      }
  }

  /** One step of reading members: a name, a colon, a value, then `,` or `}`. */
  lemma ReadMembersUnfold(s: string, name: string, r1: string, v: Val, r2: string)
    requires |s| > 0 && s[0] == '"'
    requires ReadString(s[1..]) == Some((name, r1))
    requires |r1| > 0 && r1[0] == ':'
    requires ReadValue(r1[1..]) == Some((v, r2))
    requires |r2| > 0
    ensures r2[0] == '}' ==> ReadMembers(s) == Some(([(name, v)], r2[1..]))
    ensures r2[0] == ',' ==>
      ReadMembers(s) == (match ReadMembers(r2[1..])
                         case None => None
                         case Some((more, r3)) => Some(([(name, v)] + more, r3)))
  {
  }

  /** The name and colon of a written member read back. */
  lemma ReadMemberName(name: string, rest: string)
    ensures var s := Quote(name) + ":" + rest;
      s[0] == '"' && ReadString(s[1..]) == Some((name, ":" + rest))
  {
    var s := Quote(name) + ":" + rest;
    assert s == "\"" + (EscapeText(name) + "\"" + (":" + rest));
    ReadQuotedText(name, ":" + rest);
  }

  /** Reading one written member, given that the text `w` of its value reads back. */
  lemma ReadMemberStep(name: string, w: string, v: Val, after: string)
    requires |after| > 0 && (after[0] == '}' || after[0] == ',')
    requires ReadValue(w + after) == Some((v, after))
    ensures after[0] == '}' ==> ReadMembers(Quote(name) + ":" + (w + after)) == Some(([(name, v)], after[1..]))
    ensures after[0] == ',' ==>
      ReadMembers(Quote(name) + ":" + (w + after)) == (match ReadMembers(after[1..])
                                                       case None => None
                                                       case Some((more, r3)) => Some(([(name, v)] + more, r3)))
  {
    var r := w + after;
    ReadMemberName(name, r);
    assert (":" + r)[1..] == r;
    ReadMembersUnfold(Quote(name) + ":" + r, name, ":" + r, v, after);
  }

  lemma JoinFrom(parts: seq<string>, i: nat)
    requires i < |parts|
    ensures Join(parts[i..]) ==
      if i + 1 < |parts| then parts[i] + "," + Join(parts[i + 1..]) else parts[i]
  {
    if i + 1 < |parts| {
      assert parts[i..][1..] == parts[i + 1..];
    }
  }

  lemma ReadEmptyObject(rest: string)
    ensures ReadValue("{}" + rest) == Some((Obj([]), rest))
  {
    assert ("{}" + rest)[2..] == rest;
  }

  lemma ReadObject(s: string, fs: seq<(string, Val)>, rest: string)
    requires |s| > 1 && s[0] == '{' && s[1] == '"'
    requires ReadMembers(s[1..]) == Some((fs, rest))
    ensures ReadValue(s) == Some((Obj(fs), rest))
  {
  }

  lemma {:induction false} ReadWrittenValue(v: Val, rest: string)
    requires Delimits(rest)
    ensures ReadValue(Serialize(v) + rest) == Some((v, rest))
    decreases v, 1, 0
  {
    match v
    case Null => ReadWrittenLiteral(v, rest);
    case Bool(_) => ReadWrittenLiteral(v, rest);
    case Num(n) => ReadWrittenNum(n, rest);
    case Str(x) => ReadWrittenStr(x, rest);
    case Obj(fs) => ReadWrittenObject(v, rest);
  }

  lemma {:induction false} ReadWrittenObject(v: Val, rest: string)
    requires v.Obj? && Delimits(rest)
    ensures ReadValue(Serialize(v) + rest) == Some((v, rest))
    decreases v, 0, |v.fields| + 1
  {
    var fs := v.fields;
    var parts := MemberTexts(fs);
    assert Serialize(v) == "{" + Join(parts) + "}";
    if |fs| == 0 {
      assert Serialize(v) + rest == "{}" + rest;
      ReadEmptyObject(rest);
    } else {
      assert parts[0] == Quote(fs[0].0) + ":" + Serialize(fs[0].1);
      ObjectTextShape(parts, rest);
      ReadWrittenMembers(v, 0, rest);
      assert fs[0..] == fs;
      ReadObject("{" + Join(parts) + "}" + rest, fs, rest);
    }
  }

  lemma ObjectTextShape(parts: seq<string>, rest: string)
    requires |parts| > 0 && |parts[0]| > 0 && parts[0][0] == '"'
    ensures var s := "{" + Join(parts) + "}" + rest;
            |s| > 1 && s[0] == '{' && s[1] == '"' && s[1..] == Join(parts[0..]) + "}" + rest
  {
    JoinFrom(parts, 0);
    assert parts[0..] == parts;
  }

  /** What follows part `i` in the text of an object's members and closing brace. */
  function PartsAfter(parts: seq<string>, i: nat, rest: string): string
    requires i < |parts|
  {
    if i + 1 < |parts| then "," + (Join(parts[i + 1..]) + "}" + rest) else "}" + rest
  }

  lemma JoinedAt(parts: seq<string>, i: nat, rest: string)
    requires i < |parts|
    ensures Join(parts[i..]) + "}" + rest == parts[i] + PartsAfter(parts, i, rest)
  {
    JoinFrom(parts, i);
  }

  lemma Regroup(q: string, w: string, a: string)
    ensures (q + ":" + w) + a == q + ":" + (w + a)
  {
  }

  lemma MembersTextAt(fs: seq<(string, Val)>, i: nat, rest: string)
    requires i < |fs|
    ensures Join(MemberTexts(fs)[i..]) + "}" + rest ==
            Quote(fs[i].0) + ":" + (Serialize(fs[i].1) + PartsAfter(MemberTexts(fs), i, rest))
  {
    var parts := MemberTexts(fs);
    JoinedAt(parts, i, rest);
    assert parts[i] == Quote(fs[i].0) + ":" + Serialize(fs[i].1);
    Regroup(Quote(fs[i].0), Serialize(fs[i].1), PartsAfter(parts, i, rest));
  }

  /** The last member of an object read back. */
  lemma LastMember(name: string, w: string, v: Val, rest: string)
    requires ReadValue(w + ("}" + rest)) == Some((v, "}" + rest))
    ensures ReadMembers(Quote(name) + ":" + (w + ("}" + rest))) == Some(([(name, v)], rest))
  {
    ReadMemberStep(name, w, v, "}" + rest);
    assert ("}" + rest)[1..] == rest;
  }

  /** A member followed by further members read back. */
  lemma NextMember(name: string, w: string, v: Val, more: string, fs: seq<(string, Val)>, rest: string)
    requires ReadValue(w + ("," + more)) == Some((v, "," + more))
    requires ReadMembers(more) == Some((fs, rest))
    ensures ReadMembers(Quote(name) + ":" + (w + ("," + more))) == Some(([(name, v)] + fs, rest))
  {
    ReadMemberStep(name, w, v, "," + more);
    assert ("," + more)[1..] == more;
  }

  lemma {:induction false} ReadWrittenMembers(v: Val, i: nat, rest: string)
    requires v.Obj? && i < |v.fields|
    requires Delimits(rest)
    ensures ReadMembers(Join(MemberTexts(v.fields)[i..]) + "}" + rest) == Some((v.fields[i..], rest))
    decreases v, 0, |v.fields| - i
  {
    var fs := v.fields;
    var f := fs[i];
    var parts := MemberTexts(fs);
    var after := PartsAfter(parts, i, rest);
    MembersTextAt(fs, i, rest);
    assert f.1 < v by { assert f in fs; }
    ReadWrittenValue(f.1, after);
    if i + 1 < |fs| {
      var more := Join(parts[i + 1..]) + "}" + rest;
      ReadWrittenMembers(v, i + 1, rest);
      NextMember(f.0, Serialize(f.1), f.1, more, fs[i + 1..], rest);
      assert [f] + fs[i + 1..] == fs[i..];
    } else {
      LastMember(f.0, Serialize(f.1), f.1, rest);
      assert fs[i..] == [f];
    }
  }

  /** The text of a value determines the value. */
  lemma SerializeInjective(a: Val, b: Val)
    requires Serialize(a) == Serialize(b)
    ensures a == b
  {
    ReadWrittenValue(a, "");
    ReadWrittenValue(b, "");
    assert Serialize(a) + "" == Serialize(a);
    assert Serialize(b) + "" == Serialize(b);
  }
}
