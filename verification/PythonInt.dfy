/** Python's int of a string in base ten, as UDPaudio/Measurements.py calls it: white space around it, an optional
    sign, digits with single underscores between them. Beyond ASCII, which code points are digits or white space is
    given by a table; nothing here depends on it. The language's limit of 4300 digits is out of reach of the 4096 bytes
    that are received. */
module PythonInt {
  import opened Basics

  type digit = d: nat | d < 10

  datatype Symbol = Space | Plus | Minus | Underscore | Digit(value: digit) | Other

  type Table = int -> Symbol

  function SymbolOf(c: int, table: Table): Symbol {
    if c >= 0x80 then (if table(c).Space? || table(c).Digit? then table(c) else Other)
    else if c == 32 || 9 <= c <= 13 then Space
    else if c == 43 then Plus
    else if c == 45 then Minus
    else if c == 95 then Underscore
    else if 48 <= c <= 57 then Digit(c - 48)
    else Other
  }

  function Symbols(text: seq<int>, table: Table): seq<Symbol> {
    seq(|text|, k requires 0 <= k < |text| => SymbolOf(text[k], table))
  }

  // ---------------------------------------------------------------- reading from the left

  function SkipSpaces(s: seq<Symbol>): seq<Symbol> {
    if s != [] && s[0].Space? then SkipSpaces(s[1..]) else s
  }

  predicate IsSign(x: Symbol) {
    x.Plus? || x.Minus?
  }

  predicate InRun(x: Symbol) {
    x.Digit? || x.Underscore?
  }

  /** The length of the run of digits and underscores at the front. */
  function Run(s: seq<Symbol>): (n: nat)
    ensures n <= |s|
    ensures forall k :: 0 <= k < n ==> InRun(s[k])
    ensures n < |s| ==> !InRun(s[n])
  {
    if s != [] && InRun(s[0]) then 1 + Run(s[1..]) else 0
  }

  /** Digits, with at most one underscore between two of them. */
  predicate Grouped(body: seq<Symbol>) {
    && body != [] && body[0].Digit? && body[|body| - 1].Digit?
    && (forall k :: 0 <= k < |body| ==> InRun(body[k]))
    && (forall k :: 0 < k < |body| ==> body[k - 1].Digit? || body[k].Digit?)
  }

  function ValueOf(body: seq<Symbol>): int {
    if body == [] then 0
    else if body[|body| - 1].Digit? then 10 * ValueOf(body[..|body| - 1]) + body[|body| - 1].value
    else ValueOf(body[..|body| - 1])
  }

  function Power10(n: nat): (p: nat)
    ensures p > 0
  {
    if n == 0 then 1 else 10 * Power10(n - 1)
  }

  /** After the sign: the digits, and white space up to the end. */
  function ReadDigits(u: seq<Symbol>): Option<int> {
    var body, rest := u[..Run(u)], u[Run(u)..];
    if Grouped(body) && SkipSpaces(rest) == [] then Some(ValueOf(body)) else None
  }

  function ReadInt(s: seq<Symbol>): Option<int> {
    var t := SkipSpaces(s);
    if t != [] && IsSign(t[0]) then
      match ReadDigits(t[1..])
      case Some(n) => Some(if t[0].Minus? then -n else n)
      case None => None
    else
      ReadDigits(t)
  }

  function ParseInt(text: seq<int>, table: Table): Option<int> {
    ReadInt(Symbols(text, table))
  }

  // ---------------------------------------------------------------- the grammar

  function Spaces(n: nat): seq<Symbol> {
    seq(n, _ => Space)
  }

  ghost predicate SignOnly(sign: seq<Symbol>) {
    sign == [] || sign == [Plus] || sign == [Minus]
  }

  ghost predicate IsNumeral(s: seq<Symbol>, before: nat, sign: seq<Symbol>, body: seq<Symbol>, after: nat) {
    SignOnly(sign) && Grouped(body) && s == Spaces(before) + sign + body + Spaces(after)
  }

  function Signed(sign: seq<Symbol>, n: int): int {
    if sign == [Minus] then -n else n
  }

  lemma {:induction false} SkipsSpaces(before: nat, rest: seq<Symbol>)
    requires rest == [] || !rest[0].Space?
    ensures SkipSpaces(Spaces(before) + rest) == rest
  {
    if before > 0 {
      SkipsSpaces(before - 1, rest);
      assert (Spaces(before) + rest)[1..] == Spaces(before - 1) + rest;
    } else {
      assert Spaces(before) + rest == rest;
    }
  }

  lemma {:induction false} SpacesSkipped(s: seq<Symbol>)
    ensures |SkipSpaces(s)| <= |s| && s == Spaces(|s| - |SkipSpaces(s)|) + SkipSpaces(s)
  {
    if s != [] && s[0].Space? {
      SpacesSkipped(s[1..]);
      assert s == [Space] + s[1..];
    }
  }

  lemma {:induction false} RunOf(body: seq<Symbol>, after: nat)
    requires forall k :: 0 <= k < |body| ==> InRun(body[k])
    ensures Run(body + Spaces(after)) == |body|
  {
    if body != [] {
      RunOf(body[1..], after);
      assert (body + Spaces(after))[1..] == body[1..] + Spaces(after);
    }
  }

  lemma DigitsAreRead(body: seq<Symbol>, after: nat)
    requires Grouped(body)
    ensures ReadDigits(body + Spaces(after)) == Some(ValueOf(body))
  {
    var u := body + Spaces(after);
    RunOf(body, after);
    assert u[..|body|] == body && u[|body|..] == Spaces(after) + [];
    SkipsSpaces(after, []);
  }

  /** A numeral is read as its value. */
  lemma NumeralIsRead(s: seq<Symbol>, before: nat, sign: seq<Symbol>, body: seq<Symbol>, after: nat)
    requires IsNumeral(s, before, sign, body, after)
    ensures ReadInt(s) == Some(if sign == [Minus] then -ValueOf(body) else ValueOf(body))
  {
    hide ValueOf, ReadDigits, Spaces;
    var u := body + Spaces(after);
    DigitsAreRead(body, after);
    if sign == [] {
      assert s == Spaces(before) + u;
      SkipsSpaces(before, u);
    } else {
      assert s == Spaces(before) + ([sign[0]] + u);
      SkipsSpaces(before, [sign[0]] + u);
      assert ([sign[0]] + u)[1..] == u;
    }
  }

  lemma ReadAreDigits(u: seq<Symbol>) returns (body: seq<Symbol>, after: nat)
    requires ReadDigits(u).Some?
    ensures Grouped(body) && u == body + Spaces(after)
  {
    body := u[..Run(u)];
    SpacesSkipped(u[Run(u)..]);
    after := |u[Run(u)..]|;
  }

  /** Nothing but a numeral is read. */
  lemma ReadIsNumeral(s: seq<Symbol>) returns (before: nat, sign: seq<Symbol>, body: seq<Symbol>, after: nat)
    requires ReadInt(s).Some?
    ensures IsNumeral(s, before, sign, body, after)
  {
    hide ReadDigits, Grouped, Spaces;
    var t := SkipSpaces(s);
    SpacesSkipped(s);
    before := |s| - |t|;
    if t != [] && IsSign(t[0]) {
      sign := [t[0]];
      body, after := ReadAreDigits(t[1..]);
      assert t == sign + t[1..];
    } else {
      sign := [];
      body, after := ReadAreDigits(t);
    }
  }

  /** Texts are read if and only if they are numerals. */
  lemma ReadsIff(s: seq<Symbol>)
    ensures ReadInt(s).Some? <==> exists before, sign, body, after :: IsNumeral(s, before, sign, body, after)
  {
    if ReadInt(s).Some? {
      var before, sign, body, after := ReadIsNumeral(s);
    }
    forall before, sign, body, after | IsNumeral(s, before, sign, body, after) ensures ReadInt(s).Some? {
      NumeralIsRead(s, before, sign, body, after);
    }
  }

  // ---------------------------------------------------------------- values, groups and examples

  /** How many digits there are. */
  function Places(body: seq<Symbol>): nat {
    if body == [] then 0 else Places(body[..|body| - 1]) + if body[|body| - 1].Digit? then 1 else 0
  }

  /** Place value: what stands before some digits counts ten times for each of them, and an underscore for nothing. */
  lemma {:induction false} PlaceValue(a: seq<Symbol>, b: seq<Symbol>)
    ensures ValueOf(a + b) == ValueOf(a) * Power10(Places(b)) + ValueOf(b)
  {
    if b == [] {
      assert a + b == a;
    } else {
      var front, last := b[..|b| - 1], b[|b| - 1];
      PlaceValue(a, front);
      assert (a + b)[..|a + b| - 1] == a + front && (a + b)[|a + b| - 1] == last;
      if last.Digit? {
        TenTimes(ValueOf(a), Power10(Places(front)), ValueOf(front), last.value);
      }
    }
  }

  lemma TenTimes(a: int, p: int, b: int, d: int)
    ensures 10 * (a * p + b) + d == a * (10 * p) + (10 * b + d)
  {
  }

  lemma OneSymbol(d: digit)
    ensures ValueOf([Digit(d)]) == d && Places([Digit(d)]) == 1
    ensures ValueOf([Underscore]) == 0 && Places([Underscore]) == 0
  {
    assert [Digit(d)][..0] == [] && [Underscore][..0] == [];
  }

  function DigitsOnly(body: seq<Symbol>): seq<Symbol> {
    if body == [] then [] else
      DigitsOnly(body[..|body| - 1]) + if body[|body| - 1].Digit? then [body[|body| - 1]] else []
  }

  /** Taking the underscores out does not change the value, and leaves nothing but the digits. */
  lemma {:induction false} UnderscoresDoNotCount(body: seq<Symbol>)
    ensures ValueOf(body) == ValueOf(DigitsOnly(body)) && |DigitsOnly(body)| == Places(body)
    ensures forall k :: 0 <= k < |DigitsOnly(body)| ==> DigitsOnly(body)[k].Digit?
  {
    if body != [] {
      UnderscoresDoNotCount(body[..|body| - 1]);
      var front, last := DigitsOnly(body[..|body| - 1]), body[|body| - 1];
      assert (front + [last])[..|front|] == front && front + [] == front;
    }
  }

  /** The digits of a numeral by their grammar: a digit, or such digits followed by a digit or by an underscore and a
      digit. */
  ghost predicate Groups(body: seq<Symbol>) {
    var n := |body|;
    && n > 0 && body[n - 1].Digit?
    && (n == 1 || Groups(body[..n - 1]) || (n > 2 && body[n - 2].Underscore? && Groups(body[..n - 2])))
  }

  lemma {:induction false} GroupedIff(body: seq<Symbol>)
    ensures Grouped(body) <==> Groups(body)
    decreases |body|
  {
    var n := |body|;
    if n > 1 {
      GroupedIff(body[..n - 1]);
      if n > 2 {
        GroupedIff(body[..n - 2]);
      }
      if Grouped(body) {
        assert InRun(body[n - 2]) && (body[n - 2].Underscore? ==> n > 2 && body[n - 3].Digit?);
      }
      GroupedStep(body);
    }
  }

  lemma GroupedStep(body: seq<Symbol>)
    requires |body| > 1
    ensures var n := |body|;
      var before := Grouped(body[..n - 1]) || (n > 2 && body[n - 2].Underscore? && Grouped(body[..n - 2]));
      Grouped(body) <==> body[n - 1].Digit? && before
  {
    var n := |body|;
    var front := body[..n - 1];
    assert forall k :: 0 <= k < n - 1 ==> front[k] == body[k];
    if Grouped(body) && body[n - 2].Underscore? {
      assert body[n - 3].Digit?;
      var shorter := body[..n - 2];
      assert forall k :: 0 <= k < n - 2 ==> shorter[k] == body[k];
    }
    if n > 2 && body[n - 2].Underscore? && Grouped(body[..n - 2]) && body[n - 1].Digit? {
      var shorter := body[..n - 2];
      assert forall k :: 0 <= k < n - 2 ==> shorter[k] == body[k];
      forall k | 0 < k < n ensures body[k - 1].Digit? || body[k].Digit? {
        if k < n - 2 {
          assert shorter[k - 1].Digit? || shorter[k].Digit?;
        }
      }
      forall k | 0 <= k < n ensures InRun(body[k]) {
        if k < n - 2 {
          assert InRun(shorter[k]);
        }
      }
    }
  }

  /** Beyond them the table decides, between a digit, white space and neither. */
  lemma TableSymbols(c: int, table: Table)
    requires c >= 128
    ensures SymbolOf(c, table).Space? <==> table(c).Space?
    ensures SymbolOf(c, table).Digit? <==> table(c).Digit?
    ensures table(c).Digit? ==> SymbolOf(c, table).value == table(c).value
    ensures !table(c).Space? && !table(c).Digit? ==> SymbolOf(c, table) == Other
  {
  }

  /** The characters below 128 that mean something, by their codes. */
  lemma AsciiSymbols(c: int, table: Table)
    requires 0 <= c < 128
    ensures SymbolOf(c, table).Space? <==> c in {9, 10, 11, 12, 13, 32}
    ensures SymbolOf(c, table).Plus? <==> c == 43
    ensures SymbolOf(c, table).Minus? <==> c == 45
    ensures SymbolOf(c, table).Underscore? <==> c == 95
    ensures SymbolOf(c, table).Digit? <==> 48 <= c <= 57
    ensures 48 <= c <= 57 ==> SymbolOf(c, table).value == c - 48
  {
  }
}
