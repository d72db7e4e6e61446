/** The string encoding the Java Native Interface expects: each UTF-16 code unit in one, two or
    three bytes, with zero written in two so that no byte is zero. */
module ModifiedUtf8 {

  type Scalar = c: nat | c < 0xD800 || 0xE000 <= c < 0x11_0000

  type Unit = u: nat | u < 0x1_0000

  // ----- The definition, by way of UTF-16 -----

  function Utf16(c: Scalar): (units: seq<Unit>)
    ensures units != []
  {
    if c < 0x1_0000 then [c] else [0xD800 + (c - 0x1_0000) / 0x400, 0xDC00 + (c - 0x1_0000) % 0x400]
  }

  function Utf16All(s: seq<Scalar>): (units: seq<Unit>)
    ensures units == [] <==> s == []
  {
    if s == [] then [] else Utf16(s[0]) + Utf16All(s[1..])
  }

  function EncodeUnit(u: Unit): seq<nat> {
    if u == 0 then [0xC0, 0x80]
    else if u < 0x80 then [u]
    else if u < 0x800 then [0xC0 + u / 0x40, 0x80 + u % 0x40]
    else [0xE0 + u / 0x1000, 0x80 + u / 0x40 % 0x40, 0x80 + u % 0x40]
  }

  function EncodeAll(units: seq<Unit>): seq<nat> {
    if units == [] then [] else EncodeUnit(units[0]) + EncodeAll(units[1..])
  }

  ghost function Encoded(s: seq<Scalar>): seq<nat> {
    EncodeAll(Utf16All(s))
  }

  // ----- Decoding -----

  /** The code units read off some bytes, from the front. */
  function DecodeUnits(bytes: seq<nat>): seq<int> {
    if bytes == [] then []
    else if bytes[0] < 0x80 then [bytes[0]] + DecodeUnits(bytes[1..])
    else if bytes[0] < 0xE0 then
      if |bytes| < 2 then [] else [(bytes[0] - 0xC0) * 0x40 + bytes[1] - 0x80] + DecodeUnits(bytes[2..])
    else
      if |bytes| < 3 then []
      else [(bytes[0] - 0xE0) * 0x1000 + (bytes[1] - 0x80) * 0x40 + bytes[2] - 0x80] + DecodeUnits(bytes[3..])
  }

  lemma UnitDigits(u: Unit)
    ensures u / 0x1000 * 0x1000 + u / 0x40 % 0x40 * 0x40 + u % 0x40 == u == u / 0x40 * 0x40 + u % 0x40
    ensures u < 0x800 ==> u / 0x40 < 0x20
    ensures u >= 0x80 ==> u / 0x40 >= 2
  {
  }

  lemma DecodeEncodedUnit(u: Unit, rest: seq<nat>)
    ensures DecodeUnits(EncodeUnit(u) + rest) == [u] + DecodeUnits(rest)
  {
    var code := EncodeUnit(u);
    var bytes := code + rest;
    UnitDigits(u);
    assert bytes[|code|..] == rest;
    if u == 0 {
      assert bytes[0] == 0xC0 && bytes[1] == 0x80;
    } else if u < 0x80 {
      assert bytes[0] == u;
    } else if u < 0x800 {
      assert bytes[0] == 0xC0 + u / 0x40 && bytes[1] == 0x80 + u % 0x40;
    } else {
      assert bytes[0] == 0xE0 + u / 0x1000 && bytes[1] == 0x80 + u / 0x40 % 0x40 && bytes[2] == 0x80 + u % 0x40;
    }
  }

  lemma {:induction false} DecodeEncoded(units: seq<Unit>)
    ensures DecodeUnits(EncodeAll(units)) == units
  {
    if units == [] {
    } else {
      DecodeEncodedUnit(units[0], EncodeAll(units[1..]));
      DecodeEncoded(units[1..]);
    }
  }

  predicate IsHigh(u: int) {
    0xD800 <= u < 0xDC00
  }

  predicate IsLow(u: int) {
    0xDC00 <= u < 0xE000
  }

  /** The characters that code units stand for (section 3.9 of the Unicode Standard): a high surrogate and a low one after it
      are one character of another plane. */
  function DecodeUtf16(units: seq<int>): seq<int> {
    if units == [] then []
    else if |units| > 1 && IsHigh(units[0]) && IsLow(units[1]) then
      [0x1_0000 + (units[0] - 0xD800) * 0x400 + (units[1] - 0xDC00)] + DecodeUtf16(units[2..])
    else [units[0]] + DecodeUtf16(units[1..])
  }

  lemma DecodeCharacter(c: Scalar, rest: seq<int>)
    ensures DecodeUtf16(Utf16(c) + rest) == [c] + DecodeUtf16(rest)
  {
    var units := Utf16(c) + rest;
    assert units[|Utf16(c)|..] == rest;
    if c < 0x1_0000 {
      assert units[0] == c;
    } else {
      assert units[0] == 0xD800 + (c - 0x1_0000) / 0x400 && units[1] == 0xDC00 + (c - 0x1_0000) % 0x400;
    }
  }

  lemma {:induction false} DecodeCharacters(s: seq<Scalar>)
    ensures DecodeUtf16(Utf16All(s)) == s
  {
    if s == [] {
    } else {
      DecodeCharacters(s[1..]);
      DecodeCharacter(s[0], Utf16All(s[1..]));
      assert s == [s[0]] + s[1..];
    }
  }

  /** Reading the bytes as code units, and those as characters, gives back the string. */
  lemma DecodeString(s: seq<Scalar>)
    ensures DecodeUtf16(DecodeUnits(Encoded(s))) == s
  {
    DecodeEncoded(Utf16All(s));
    DecodeCharacters(s);
  }

  /** Each code unit takes as few bytes as it can, but zero takes two; the first of them tells how many, and no other one
      looks like a first one. */
  lemma UnitSizes(u: Unit)
    ensures var code := EncodeUnit(u);
            && |code| == (if 0 < u < 0x80 then 1 else if u < 0x800 then 2 else 3)
            && (|code| == 1 ==> code == [u])
            && (|code| == 2 ==> 0xC0 <= code[0] < 0xE0)
            && (|code| == 3 ==> 0xE0 <= code[0] < 0xF0)
            && forall i :: 0 < i < |code| ==> 0x80 <= code[i] < 0xC0
  {
    UnitDigits(u);
  }

  /** A surrogate pair is not a pair of characters of the basic plane. */
  lemma Utf16Head(c: Scalar, d: Scalar, x: seq<Unit>, y: seq<Unit>)
    requires Utf16(c) + x == Utf16(d) + y
    ensures c == d && x == y
  {
    var units := Utf16(c) + x;
    assert units[0] == Utf16(c)[0] == Utf16(d)[0];
    if c >= 0x1_0000 {
      assert units[1] == Utf16(c)[1] == Utf16(d)[1];
    }
    assert units[|Utf16(c)|..] == x;
    assert units[|Utf16(d)|..] == y;
  }

  lemma {:induction false} Utf16IsInjective(s: seq<Scalar>, t: seq<Scalar>)
    requires Utf16All(s) == Utf16All(t)
    ensures s == t
  {
    if s == [] || t == [] {
    } else {
      Utf16Head(s[0], t[0], Utf16All(s[1..]), Utf16All(t[1..]));
      Utf16IsInjective(s[1..], t[1..]);
      assert s == [s[0]] + s[1..] && t == [t[0]] + t[1..];
    }
  }

  /** Different strings have different encodings. */
  lemma EncodingIsInjective(s: seq<Scalar>, t: seq<Scalar>)
    requires Encoded(s) == Encoded(t)
    ensures s == t
  {
    DecodeEncoded(Utf16All(s));
    DecodeEncoded(Utf16All(t));
    Utf16IsInjective(s, t);
  }

  lemma {:induction false} NoZeroByte(units: seq<Unit>)
    ensures forall b :: b in EncodeAll(units) ==> 0 < b < 0x100
  {
    if units == [] {
    } else {
      NoZeroByte(units[1..]);
    }
  }

  lemma {:induction false} EncodeBoth(a: seq<Unit>, b: seq<Unit>)
    ensures EncodeAll(a + b) == EncodeAll(a) + EncodeAll(b)
  {
    hide EncodeUnit;
    if a == [] {
      assert a + b == b;
    } else {
      assert (a + b)[1..] == a[1..] + b;
      EncodeBoth(a[1..], b);
      assert EncodeAll(a + b) == EncodeUnit(a[0]) + EncodeAll(a[1..] + b);
    }
  }

  lemma EncodePrefix(units: seq<Unit>, k: nat)
    requires k < |units|
    ensures EncodeAll(units[..k + 1]) == EncodeAll(units[..k]) + EncodeUnit(units[k])
  {
    hide EncodeUnit;
    assert units[..k + 1] == units[..k] + [units[k]];
    EncodeBoth(units[..k], [units[k]]);
    assert EncodeAll([units[k]]) == EncodeUnit(units[k]);
  }

  lemma {:induction false} Utf16Both(s: seq<Scalar>, t: seq<Scalar>)
    ensures Utf16All(s + t) == Utf16All(s) + Utf16All(t)
  {
    hide Utf16;
    if s == [] {
      assert s + t == t;
    } else {
      assert (s + t)[1..] == s[1..] + t;
      Utf16Both(s[1..], t);
    }
  }

  lemma EncodeOneMore(s: seq<Scalar>, c: Scalar)
    ensures Encoded(s + [c]) == Encoded(s) + EncodeAll(Utf16(c))
  {
    hide Utf16, EncodeUnit;
    Utf16Both(s, [c]);
    assert Utf16All([c]) == Utf16(c);
    EncodeBoth(Utf16All(s), Utf16(c));
  }

  // ----- The encoder -----

  /** Bitwise or of disjoint bits is written as a sum, and shifts as divisions. */
  method ToModifiedUtf8(s: seq<Scalar>) returns (out: seq<nat>)
    ensures out == Encoded(s)
    ensures forall b :: b in out ==> 0 < b < 0x100
  {
    out := [];
    for i := 0 to |s|
      invariant out == Encoded(s[..i])
    {
      assert s[..i + 1] == s[..i] + [s[i]];
      EncodeOneMore(s[..i], s[i]);
      out := PushScalar(out, s[i]);
    }
    assert s[..|s|] == s;
    NoZeroByte(Utf16All(s));
  }

  /** One turn of the encoder's loop. */
  method PushScalar(start: seq<nat>, cp: Scalar) returns (out: seq<nat>)
    ensures out == start + EncodeAll(Utf16(cp))
  {
    out := start;
    if cp == 0 {
      out := out + [0xC0, 0x80];
    } else if cp <= 0x7F {
      out := out + [cp];
    } else if cp <= 0x7FF {
      out := out + [0xC0 + cp / 0x40];
      out := out + [0x80 + cp % 0x40];
    } else if cp <= 0xFFFF {
      out := out + [0xE0 + cp / 0x1000];
      out := out + [0x80 + cp / 0x40 % 0x40];
      out := out + [0x80 + cp % 0x40];
    } else {
      out := PushSurrogates(out, cp);
      return;
    }
    assert EncodeAll([cp]) == EncodeUnit(cp);
  }

  method PushSurrogates(start: seq<nat>, cp: Scalar) returns (out: seq<nat>)
    requires cp > 0xFFFF
    ensures out == start + EncodeAll(Utf16(cp))
  {
    out := start;
    var v := cp - 0x1_0000;
    var pair := [0xD800 + v / 0x400, 0xDC00 + v % 0x400];
    for k := 0 to 2
      invariant out == start + EncodeAll(pair[..k])
    {
      var x := pair[k];
      assert x >= 0xD800;
      EncodePrefix(pair, k);
      out := out + [0xE0 + x / 0x1000];
      out := out + [0x80 + x / 0x40 % 0x40];
      out := out + [0x80 + x % 0x40];
    }
    assert pair[..2] == Utf16(cp);
  }
}
