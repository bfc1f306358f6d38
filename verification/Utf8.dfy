/** Decoding UTF-8 while ignoring errors, as UDPaudio/Measurements.py asks of its runtime: a byte that starts no
    sequence is dropped, and of a sequence that breaks off or is cut short, the part that was well formed so far.
    The encoding is that of section 3 of RFC 3629. */
module Utf8 {
  import opened Basics

  predicate IsScalar(c: int) {
    0 <= c < 0xD800 || 0xE000 <= c < 0x11_0000
  }

  function Encode(c: int): seq<byte>
    requires 0 <= c < 0x11_0000
  {
    if c < 0x80 then [c]
    else if c < 0x800 then [0xC0 + c / 0x40, 0x80 + c % 0x40]
    else if c < 0x1_0000 then [0xE0 + c / 0x1000, 0x80 + c / 0x40 % 0x40, 0x80 + c % 0x40]
    else [0xF0 + c / 0x4_0000, 0x80 + c / 0x1000 % 0x40, 0x80 + c / 0x40 % 0x40, 0x80 + c % 0x40]
  }

  predicate IsTail(b: byte) {
    0x80 <= b < 0xC0
  }

  /** The length of the sequence that a byte announces, 0 if it starts none. */
  function Announced(b: byte): nat {
    if b < 0x80 then 1 else if b < 0xC2 then 0 else if b < 0xE0 then 2 else if b < 0xF0 then 3
    else if b < 0xF5 then 4 else 0
  }

  /** The second byte is restricted so that no code point has two encodings and surrogates have none. */
  predicate IsSecond(first: byte, b: byte) {
    && IsTail(b)
    && (first == 0xE0 ==> b >= 0xA0) && (first == 0xED ==> b < 0xA0)
    && (first == 0xF0 ==> b >= 0x90) && (first == 0xF4 ==> b < 0x90)
  }

  /** How many bytes from the start are well formed, of the `n` announced. */
  function WellFormed(s: seq<byte>, n: nat): (m: nat)
    requires s != [] && 1 <= n <= 4
    ensures 1 <= m <= n && m <= |s|
  {
    if n == 1 || |s| == 1 || !IsSecond(s[0], s[1]) then 1
    else if n == 2 || |s| == 2 || !IsTail(s[2]) then 2
    else if n == 3 || |s| == 3 || !IsTail(s[3]) then 3
    else 4
  }

  function Int(b: byte): int {
    b
  }

  function Value(s: seq<byte>): int
    requires 1 <= |s| <= 4
  {
    if |s| == 1 then Int(s[0])
    else if |s| == 2 then (Int(s[0]) - 0xC0) * 0x40 + (Int(s[1]) - 0x80)
    else if |s| == 3 then (Int(s[0]) - 0xE0) * 0x1000 + (Int(s[1]) - 0x80) * 0x40 + (Int(s[2]) - 0x80)
    else (Int(s[0]) - 0xF0) * 0x4_0000 + (Int(s[1]) - 0x80) * 0x1000 + (Int(s[2]) - 0x80) * 0x40 + (Int(s[3]) - 0x80)
  }

  function DecodeIgnore(s: seq<byte>): seq<int>
    decreases |s|
  {
    if s == [] then []
    else
      var n := Announced(s[0]);
      if n == 0 then DecodeIgnore(s[1..])
      else
        var m := WellFormed(s, n);
        (if m == n then [Value(s[..m])] else []) + DecodeIgnore(s[m..])
  }

  lemma SixBits(high: nat, low: nat)
    requires low < 0x40
    ensures (high * 0x40 + low) / 0x40 == high && (high * 0x40 + low) % 0x40 == low
  {
  }

  /** A sequence is taken as well formed exactly when it is the encoding of a scalar value. */
  lemma WholeIsEncoding(s: seq<byte>)
    requires s != [] && Announced(s[0]) > 0 && WellFormed(s, Announced(s[0])) == Announced(s[0])
    ensures var n := Announced(s[0]);
      IsScalar(Value(s[..n])) && s[..n] == Encode(Value(s[..n]))
  {
    var n := Announced(s[0]);
    var c := Value(s[..n]);
    if n == 2 {
      SixBits(s[0] - 0xC0, s[1] - 0x80);
    } else if n == 3 {
      ThreeBytes(s[0], s[1], s[2]);
      assert s[..3] == [s[0], s[1], s[2]];
    } else if n == 4 {
      FourBytes(s[0], s[1], s[2], s[3]);
      assert s[..4] == [s[0], s[1], s[2], s[3]];
    }
  }

  lemma ThreeBytes(a: byte, b: byte, c: byte)
    requires 0xE0 <= a < 0xF0 && IsSecond(a, b) && IsTail(c)
    ensures var v := Value([a, b, c]); IsScalar(v) && Encode(v) == [a, b, c]
  {
    var x, y, z := Int(a) - 0xE0, Int(b) - 0x80, Int(c) - 0x80;
    var v := Value([a, b, c]);
    assert v == (x * 0x40 + y) * 0x40 + z;
    SixBits(x, y);
    SixBits(x * 0x40 + y, z);
    assert v / 0x1000 == x;
  }

  lemma FourBytes(a: byte, b: byte, c: byte, d: byte)
    requires 0xF0 <= a < 0xF5 && IsSecond(a, b) && IsTail(c) && IsTail(d)
    ensures var v := Value([a, b, c, d]); IsScalar(v) && Encode(v) == [a, b, c, d]
  {
    var x, y, z, w := Int(a) - 0xF0, Int(b) - 0x80, Int(c) - 0x80, Int(d) - 0x80;
    var v := Value([a, b, c, d]);
    assert v == ((x * 0x40 + y) * 0x40 + z) * 0x40 + w;
    SixBits(x, y);
    SixBits(x * 0x40 + y, z);
    SixBits((x * 0x40 + y) * 0x40 + z, w);
    assert v / 0x1000 == x * 0x40 + y && v / 0x4_0000 == x;
  }

  lemma EncodingIsWhole(c: int, rest: seq<byte>)
    requires IsScalar(c)
    ensures var s := Encode(c) + rest;
      && Announced(s[0]) == |Encode(c)| == WellFormed(s, |Encode(c)|)
      && Value(Encode(c)) == c
  {
    hide Encode, Value, Announced, IsSecond, IsTail;
    var code := Encode(c);
    LeadingByte(c);
    ValueOfEncoding(c);
    assert forall k :: 0 <= k < |code| ==> (code + rest)[k] == code[k];
  }

  lemma ValueOfEncoding(c: int)
    requires IsScalar(c)
    ensures 1 <= |Encode(c)| <= 4 && Value(Encode(c)) == c
  {
    var c1, c2, c3 := c / 0x40, c / 0x1000, c / 0x4_0000;
    assert c == c1 * 0x40 + c % 0x40 && c1 == c2 * 0x40 + c1 % 0x40 && c2 == c3 * 0x40 + c2 % 0x40;
  }

  lemma LeadingByte(c: int)
    requires IsScalar(c)
    ensures var code := Encode(c);
      && Announced(code[0]) == |code|
      && (|code| > 1 ==> IsSecond(code[0], code[1]))
      && (|code| > 2 ==> IsTail(code[2]))
      && (|code| > 3 ==> IsTail(code[3]))
  {
    if 0x80 <= c < 0x800 {
      assert 0xC2 <= 0xC0 + c / 0x40 < 0xE0;
    } else if 0x800 <= c < 0x1_0000 {
      SecondOfThree(c);
    } else if 0x1_0000 <= c {
      SecondOfFour(c);
    }
  }

  lemma SecondOfThree(c: int)
    requires IsScalar(c) && 0x800 <= c < 0x1_0000
    ensures 0xE0 <= 0xE0 + c / 0x1000 < 0xF0 && IsSecond(0xE0 + c / 0x1000, 0x80 + c / 0x40 % 0x40)
  {
  }

  lemma SecondOfFour(c: int)
    requires 0x1_0000 <= c < 0x11_0000
    ensures 0xF0 <= 0xF0 + c / 0x4_0000 < 0xF5 && IsSecond(0xF0 + c / 0x4_0000, 0x80 + c / 0x1000 % 0x40)
  {
  }

  ghost predicate AllScalars(text: seq<int>) {
    forall k :: 0 <= k < |text| ==> IsScalar(text[k])
  }

  function EncodeAll(text: seq<int>): seq<byte>
    requires AllScalars(text)
  {
    if text == [] then [] else Encode(text[0]) + EncodeAll(text[1..])
  }

  /** Text survives: what follows it, valid or not, does not change how it is read. */
  lemma {:induction false} DecodeText(text: seq<int>, rest: seq<byte>)
    requires AllScalars(text)
    ensures DecodeIgnore(EncodeAll(text) + rest) == text + DecodeIgnore(rest)
  {
    hide DecodeIgnore, Encode;
    if text == [] {
      assert EncodeAll(text) + rest == rest;
    } else {
      var tail := EncodeAll(text[1..]) + rest;
      assert EncodeAll(text) + rest == Encode(text[0]) + tail;
      DecodeOne(text[0], tail);
      DecodeText(text[1..], rest);
      assert [text[0]] + (text[1..] + DecodeIgnore(rest)) == text + DecodeIgnore(rest);
    }
  }

  lemma DecodeOne(c: int, tail: seq<byte>)
    requires IsScalar(c)
    ensures DecodeIgnore(Encode(c) + tail) == [c] + DecodeIgnore(tail)
  {
    var s, n := Encode(c) + tail, |Encode(c)|;
    EncodingIsWhole(c, tail);
    assert s[..n] == Encode(c) && s[n..] == tail;
  }

  /** An ASCII character is in the decoded text if and only if its byte is in the data. */
  lemma {:induction false} AsciiSurvives(s: seq<byte>, c: byte)
    requires c < 0x80
    ensures c in DecodeIgnore(s) <==> c in s
    decreases |s|
  {
    if s != [] {
      var n := Announced(s[0]);
      var m := if n == 0 then 1 else WellFormed(s, n);
      AsciiSurvives(s[m..], c);
      assert s == s[..m] + s[m..];
      if n == 1 {
        assert s[..m] == [s[0]];
      } else {
        assert forall k :: 0 <= k < m ==> s[k] >= 0x80;
        if n > 1 && m == n {
          WholeIsEncoding(s);
          assert Value(s[..m]) >= 0x80;
        }
      }
    }
  }

  /** What breaks a sequence off: the end of the data, or a byte that is no tail. */
  lemma WellFormedUpTo(a: seq<byte>, n: nat, rest: seq<byte>)
    requires a != [] && 1 <= n <= 4 && rest != [] && !IsTail(rest[0])
    ensures WellFormed(a + rest, n) == WellFormed(a, n)
  {
    assert forall k :: 0 <= k < |a| ==> (a + rest)[k] == a[k];
    assert (a + rest)[|a|] == rest[0];
  }

  /** Decoding starts afresh at every byte that is no tail. */
  lemma {:induction false} DecodeFromStart(a: seq<byte>, rest: seq<byte>)
    requires rest != [] && !IsTail(rest[0])
    ensures DecodeIgnore(a + rest) == DecodeIgnore(a) + DecodeIgnore(rest)
    decreases |a|
  {
    if a == [] {
      assert a + rest == rest;
    } else {
      var n, s := Announced(a[0]), a + rest;
      if n > 0 {
        WellFormedUpTo(a, n, rest);
      }
      var m := if n == 0 then 1 else WellFormed(a, n);
      assert s[0] == a[0] && s[..m] == a[..m] && s[m..] == a[m..] + rest;
      DecodeFromStart(a[m..], rest);
    }
  }

  /** Every character whose encoding is in the data is decoded, whatever stands before and behind it, and cuts the data:
      both sides are decoded separately. */
  lemma DecodeAtEncoding(a: seq<byte>, c: int, b: seq<byte>)
    requires IsScalar(c)
    ensures DecodeIgnore(a + Encode(c) + b) == DecodeIgnore(a) + [c] + DecodeIgnore(b)
  {
    LeadingByte(c);
    DecodeOne(c, b);
    hide DecodeIgnore, Encode;
    var rest := Encode(c) + b;
    assert rest[0] == Encode(c)[0];
    assert a + Encode(c) + b == a + rest;
    DecodeFromStart(a, rest);
  }

  lemma DecodeAtAscii(a: seq<byte>, c: byte, b: seq<byte>)
    requires c < 0x80
    ensures DecodeIgnore(a + [c] + b) == DecodeIgnore(a) + [Int(c)] + DecodeIgnore(b)
  {
    DecodeAtEncoding(a, c, b);
  }

  /** The encoding of `c` stands at position `i`. */
  ghost predicate Occurs(s: seq<byte>, i: nat, c: int) {
    IsScalar(c) && i + |Encode(c)| <= |s| && s[i..i + |Encode(c)|] == Encode(c)
  }

  /** Nothing else is decoded: data in which no encoding occurs gives the empty text. */
  lemma NothingDecodedIff(s: seq<byte>)
    ensures DecodeIgnore(s) == [] <==> forall i: nat, c: int :: !Occurs(s, i, c)
  {
    if DecodeIgnore(s) != [] {
      var i, c := SomeOccurrence(s);
    }
    forall i: nat, c: int | Occurs(s, i, c) ensures DecodeIgnore(s) != [] {
      var n := |Encode(c)|;
      assert s == s[..i] + Encode(c) + s[i + n..];
      DecodeAtEncoding(s[..i], c, s[i + n..]);
    }
  }

  lemma OccursFurther(s: seq<byte>, m: nat, i: nat, c: int)
    requires m <= |s| && Occurs(s[m..], i, c)
    ensures Occurs(s, i + m, c)
  {
    hide Encode;
    assert s[i + m..i + m + |Encode(c)|] == s[m..][i..i + |Encode(c)|];
  }

  lemma {:induction false} SomeOccurrence(s: seq<byte>) returns (i: nat, c: int)
    requires DecodeIgnore(s) != []
    ensures Occurs(s, i, c)
    decreases |s|
  {
    var n := Announced(s[0]);
    var m := if n == 0 then 1 else WellFormed(s, n);
    if n > 0 && m == n {
      WholeIsEncoding(s);
      i, c := 0, Value(s[..m]);
    } else {
      i, c := SomeOccurrence(s[m..]);
      OccursFurther(s, m, i, c);
      i := i + m;
    }
  }

  /** The examples of section 7 of RFC 3629: A<NOT IDENTICAL TO><ALPHA>., three Hangul and three Japanese characters,
      and one beyond 16 bits. */
  lemma StandardExamples()
    ensures Encode(0x41) + Encode(0x2262) + Encode(0x391) + Encode(0x2E)
      == [0x41, 0xE2, 0x89, 0xA2, 0xCE, 0x91, 0x2E]
    ensures Encode(0xD55C) + Encode(0xAD6D) + Encode(0xC5B4)
      == [0xED, 0x95, 0x9C, 0xEA, 0xB5, 0xAD, 0xEC, 0x96, 0xB4]
    ensures Encode(0x65E5) + Encode(0x672C) + Encode(0x8A9E)
      == [0xE6, 0x97, 0xA5, 0xE6, 0x9C, 0xAC, 0xE8, 0xAA, 0x9E]
    ensures Encode(0x233B4) == [0xF0, 0xA3, 0x8E, 0xB4]
  {
  }
}
