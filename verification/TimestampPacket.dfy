/** The audio packet with its timestamp: printed by UDPaudio/UDPaudio.cpp (audio_sender), read back by
    UDPaudio/Measurements.py. */
module TimestampPacket {
  import opened Basics
  import opened PythonInt
  import opened Utf8

  const SEPARATOR: byte := 124 // '|'
  const MINUS: byte := 45
  const ZERO: byte := 48
  const RECEIVE_SIZE: nat := 4096
  const ROUNDS: nat := 100

  // ---------------------------------------------------------------- printing

  function Digits(n: nat): (s: seq<byte>)
    ensures s != [] && forall k :: 0 <= k < |s| ==> ZERO <= s[k] <= ZERO + 9
  {
    if n < 10 then [ZERO + n] else Digits(n / 10) + [ZERO + n % 10]
  }

  /** std::to_string */
  function Printed(t: int): seq<byte> {
    if t < 0 then [MINUS] + Digits(-t) else Digits(t)
  }

  function Packet(t: int64, audio: seq<byte>): seq<byte> {
    Printed(t) + [SEPARATOR] + audio
  }

  // ---------------------------------------------------------------- parsing

  datatype Parsed = Timestamp(value: int) | NoSeparator | NotANumber

  /** The text before the first separator. */
  function Before(text: seq<int>, separator: int): Option<seq<int>> {
    if text == [] then None
    else if text[0] == separator then Some([])
    else
      match Before(text[1..], separator)
      case None => None
      case Some(prefix) => Some([text[0]] + prefix)
  }

  function Received(datagram: seq<byte>): seq<byte> {
    datagram[..Min(|datagram|, RECEIVE_SIZE)]
  }

  /** recvfrom(4096), decode, split at the first separator, int. */
  function Parse(datagram: seq<byte>, table: Table): Parsed {
    match Before(DecodeIgnore(Received(datagram)), SEPARATOR)
    case None => NoSeparator
    case Some(prefix) =>
      match ParseInt(prefix, table)
      case Some(n) => Timestamp(n)
      case None => NotANumber
  }

  // ---------------------------------------------------------------- the round trip

  predicate AllDigits(body: seq<Symbol>) {
    forall k :: 0 <= k < |body| ==> body[k].Digit?
  }

  lemma {:induction false} ValueOfDigits(n: nat, table: Table)
    ensures AllDigits(Symbols(Digits(n), table)) && Symbols(Digits(n), table) != []
    ensures ValueOf(Symbols(Digits(n), table)) == n
  {
    if n >= 10 {
      ValueOfDigits(n / 10, table);
      assert Symbols(Digits(n), table)[..|Digits(n)| - 1] == Symbols(Digits(n / 10), table);
    }
  }

  lemma ParsePrinted(t: int, table: Table)
    ensures ParseInt(Printed(t), table) == Some(t)
    ensures forall k :: 0 <= k < |Printed(t)| ==> Printed(t)[k] < SEPARATOR
  {
    hide Digits, ValueOf, Symbols;
    var n := if t < 0 then -t else t;
    ValueOfDigits(n, table);
    var body := Symbols(Digits(n), table);
    if t < 0 {
      SymbolsOfSigned(Digits(n), table);
      PlainNumeral([Minus], body);
    } else {
      assert [] + body == body;
      PlainNumeral([], body);
    }
  }

  lemma SymbolsOfSigned(digits: seq<int>, table: Table)
    ensures Symbols([MINUS] + digits, table) == [Minus] + Symbols(digits, table)
  {
  }

  lemma PlainNumeral(sign: seq<Symbol>, body: seq<Symbol>)
    requires (sign == [] || sign == [Minus]) && body != [] && AllDigits(body)
    ensures ReadInt(sign + body) == Some(Signed(sign, ValueOf(body)))
  {
    assert sign + body == Spaces(0) + sign + body + Spaces(0);
    NumeralIsRead(sign + body, 0, sign, body, 0);
  }

  /** The text is a natural number in decimal: digits only, and no leading zero. */
  predicate IsDecimal(text: seq<byte>) {
    && text != [] && (forall k :: 0 <= k < |text| ==> 48 <= text[k] <= 57)
    && (text[0] == 48 ==> |text| == 1)
  }

  lemma {:induction false} DigitsAreDecimal(n: nat)
    ensures IsDecimal(Digits(n)) && (n > 0 ==> Digits(n)[0] != 48)
  {
    if n >= 10 {
      DigitsAreDecimal(n / 10);
    }
  }

  /** What is printed: a decimal without leading zeros, behind a minus sign for a negative number and behind nothing for
      any other. Reading it gives the number (ParsePrinted), so that this is its text. */
  lemma PrintedText(t: int)
    ensures t >= 0 ==> IsDecimal(Printed(t))
    ensures t < 0 ==> Printed(t)[0] == 45 && IsDecimal(Printed(t)[1..]) && Printed(t)[1] != 48
  {
    DigitsAreDecimal(if t < 0 then -t else t);
    if t < 0 {
      assert Printed(t)[1..] == Digits(-t);
    }
  }

  /** The packet is the printed timestamp, `|` and the audio bytes. */
  lemma PacketLayout(t: int64, audio: seq<byte>)
    ensures var n := |Printed(t)|;
      && Packet(t, audio)[..n] == Printed(t) && Packet(t, audio)[n] == 124 && Packet(t, audio)[n + 1..] == audio
  {
  }

  lemma {:induction false} DigitCount(n: nat, k: nat)
    requires k > 0 && n < Power10(k)
    ensures |Digits(n)| <= k
  {
    if n >= 10 {
      assert Power10(1) == 10;
      DigitCount(n / 10, k - 1);
    }
  }

  /** A 64-bit timestamp prints in at most 20 characters, so truncation never reaches it. */
  lemma PrintedLength(t: int64)
    ensures |Printed(t)| <= 20
  {
    assert Power10(4) == 10_000;
    assert Power10(8) == 100_000_000;
    assert Power10(12) == 1_000_000_000_000;
    assert Power10(16) == 10_000_000_000_000_000;
    assert Power10(19) == 10_000_000_000_000_000_000;
    var size: int := t;
    DigitCount(if t < 0 then -size else size, 19);
  }

  lemma {:induction false} BeforeConcat(prefix: seq<int>, rest: seq<int>, separator: int)
    requires separator !in prefix
    ensures Before(prefix + [separator] + rest, separator) == Some(prefix)
  {
    var text := prefix + [separator] + rest;
    if prefix != [] {
      BeforeConcat(prefix[1..], rest, separator);
      assert text[1..] == prefix[1..] + [separator] + rest;
      assert prefix == [prefix[0]] + prefix[1..];
    }
  }

  lemma {:induction false} AsciiText(text: seq<byte>)
    requires forall k :: 0 <= k < |text| ==> text[k] < 0x80
    ensures DecodeIgnore(text) == text
  {
    if text != [] {
      AsciiText(text[1..]);
      assert text == [] + [text[0]] + text[1..];
      DecodeAtAscii([], text[0], text[1..]);
    }
  }

  /** What is parsed is what precedes the first separator, decoded on its own. */
  lemma ParseAtSeparator(datagram: seq<byte>, i: nat, table: Table)
    requires i < |Received(datagram)| && Received(datagram)[i] == SEPARATOR
    requires SEPARATOR !in Received(datagram)[..i]
    ensures Parse(datagram, table) ==
      match ParseInt(DecodeIgnore(Received(datagram)[..i]), table)
      case Some(n) => Timestamp(n)
      case None => NotANumber
  {
    var before, after := Received(datagram)[..i], Received(datagram)[i + 1..];
    assert Received(datagram) == before + [SEPARATOR] + after;
    DecodeAtAscii(before, SEPARATOR, after);
    AsciiSurvives(before, SEPARATOR);
    BeforeConcat(DecodeIgnore(before), DecodeIgnore(after), SEPARATOR);
  }

  /** A printed number that fits the receive buffer with its separator is read back, whatever follows. */
  lemma NumberThenAnything(n: int, rest: seq<byte>, table: Table)
    requires |Printed(n)| < RECEIVE_SIZE
    ensures Parse(Printed(n) + [SEPARATOR] + rest, table) == Timestamp(n)
  {
    hide Parse, Printed, ParseInt;
    var datagram, k := Printed(n) + [SEPARATOR] + rest, |Printed(n)|;
    ParsePrinted(n, table);
    assert Received(datagram)[..k] == Printed(n) && Received(datagram)[k] == SEPARATOR;
    AsciiText(Printed(n));
    ParseAtSeparator(datagram, k, table);
  }

  /** The timestamp comes back from every packet, negative ones included, whatever the audio bytes are, separators
      and invalid UTF-8 among them, and however many. */
  lemma PacketRoundTrip(t: int64, audio: seq<byte>, table: Table)
    ensures Parse(Packet(t, audio), table) == Timestamp(t)
  {
    PrintedLength(t);
    NumberThenAnything(t, audio, table);
  }

  lemma {:induction false} BeforeExists(text: seq<int>, separator: int)
    ensures Before(text, separator).Some? <==> separator in text
  {
    if text != [] {
      BeforeExists(text[1..], separator);
      assert text == [text[0]] + text[1..];
    }
  }

  /** The split fails, and with it the reader, exactly when the bytes received hold no separator. */
  lemma NoSeparatorIff(datagram: seq<byte>, table: Table)
    ensures Parse(datagram, table).NoSeparator? <==> 124 !in datagram[..Min(|datagram|, 4096)]
  {
    BeforeExists(DecodeIgnore(Received(datagram)), SEPARATOR);
    AsciiSurvives(Received(datagram), SEPARATOR);
  }

  ghost predicate DecodesToNumeral(s: seq<byte>, n: int, table: Table) {
    exists before, sign, body, after ::
      IsNumeral(Symbols(DecodeIgnore(s), table), before, sign, body, after) && n == Signed(sign, ValueOf(body))
  }

  /** The position of the first separator, or the length if there is none. */
  function FirstSeparator(s: seq<byte>): (i: nat)
    ensures i <= |s| && SEPARATOR !in s[..i] && (i < |s| ==> s[i] == SEPARATOR)
  {
    if s == [] || s[0] == SEPARATOR then 0
    else
      assert s == [s[0]] + s[1..];
      var i := FirstSeparator(s[1..]);
      assert s[..i + 1] == [s[0]] + s[1..][..i];
      i + 1
  }

  /** There is a separator, and the bytes before the first one decode to a numeral of value `n`. */
  ghost predicate NumeralFirst(s: seq<byte>, n: int, table: Table) {
    SEPARATOR in s && DecodesToNumeral(s[..FirstSeparator(s)], n, table)
  }

  /** The reader gets a number out of exactly these datagrams. */
  lemma TimestampIff(datagram: seq<byte>, n: int, table: Table)
    ensures Parse(datagram, table) == Timestamp(n) <==> NumeralFirst(Received(datagram), n, table)
  {
    var s := Received(datagram);
    assert s == datagram[..Min(|datagram|, 4096)];
    hide DecodesToNumeral, Received, Parse, ParseInt, FirstSeparator;
    NoSeparatorIff(datagram, table);
    if SEPARATOR in s {
      var i := FirstSeparator(s);
      assert i < |s| by { assert s[..|s|] == s; }
      ParseAtSeparator(datagram, i, table);
      NumeralIff(s[..i], n, table);
    }
  }

  lemma NumeralIff(s: seq<byte>, n: int, table: Table)
    ensures ParseInt(DecodeIgnore(s), table) == Some(n) <==> DecodesToNumeral(s, n, table)
  {
    hide ReadInt, ValueOf, IsNumeral;
    var symbols := Symbols(DecodeIgnore(s), table);
    if ParseInt(DecodeIgnore(s), table).Some? {
      var before, sign, body, after := ReadIsNumeral(symbols);
      NumeralIsRead(symbols, before, sign, body, after);
    }
    forall before, sign, body, after | IsNumeral(symbols, before, sign, body, after)
      ensures ReadInt(symbols) == Some(Signed(sign, ValueOf(body)))
    {
      NumeralIsRead(symbols, before, sign, body, after);
    }
  }

  // ---------------------------------------------------------------- the measuring loop

  function Power2(n: nat): nat {
    if n == 0 then 1 else 2 * Power2(n - 1)
  }

  /** The least integer that rounds beyond the largest double. */
  function FloatLimit(): int {
    Power2(1024) - Power2(970)
  }

  /** The integers that can be divided by a float: converting any other raises an exception. */
  predicate FitsFloat(n: int) {
    -FloatLimit() < n < FloatLimit()
  }

  /** A recvfrom call: a datagram and the time in nanoseconds at which it was parsed, or a timeout. */
  datatype Reception = Datagram(bytes: seq<byte>, at: int) | Timeout

  function Latency(sent: int, at: int): real {
    (at - sent) as real / 1000000.0
  }

  /** The loop gets past the reception: a timeout, or a datagram that begins with a numeral and a separator, the
      difference of its value to the time being one that a float can hold. */
  ghost predicate Readable(r: Reception, table: Table) {
    r.Datagram? ==> exists n ::
      NumeralFirst(Received(r.bytes), n, table) && Power2(970) - Power2(1024) < r.at - n < Power2(1024) - Power2(970)
  }

  predicate IsMeasured(r: Reception, table: Table) {
    r.Datagram? ==> Parse(r.bytes, table).Timestamp? && FitsFloat(r.at - Parse(r.bytes, table).value)
  }

  lemma MeasuredIff(r: Reception, table: Table)
    ensures IsMeasured(r, table) <==> Readable(r, table)
  {
    hide Parse, NumeralFirst, Power2, Received;
    if r.Datagram? {
      forall n ensures Parse(r.bytes, table) == Timestamp(n) <==> NumeralFirst(Received(r.bytes), n, table) {
        TimestampIff(r.bytes, n, table);
      }
      if Parse(r.bytes, table).Timestamp? {
        assert NumeralFirst(Received(r.bytes), Parse(r.bytes, table).value, table);
      }
    }
  }

  /** The latencies of the datagrams among receptions that are measured. */
  function Latencies(receptions: seq<Reception>, table: Table): seq<real>
    requires forall k :: 0 <= k < |receptions| ==> IsMeasured(receptions[k], table)
  {
    if receptions == [] then [] else
      var last := receptions[|receptions| - 1];
      assert IsMeasured(last, table);
      Latencies(receptions[..|receptions| - 1], table)
      + if last.Datagram? then [Latency(Parse(last.bytes, table).value, last.at)] else []
  }

  /** Reception by reception: a timeout leaves nothing, a datagram its latency in milliseconds. */
  lemma {:induction false} LatenciesInOrder(a: seq<Reception>, b: seq<Reception>, table: Table)
    requires forall k :: 0 <= k < |a| ==> IsMeasured(a[k], table)
    requires forall k :: 0 <= k < |b| ==> IsMeasured(b[k], table)
    ensures forall k :: 0 <= k < |a + b| ==> IsMeasured((a + b)[k], table)
    ensures Latencies(a + b, table) == Latencies(a, table) + Latencies(b, table)
  {
    hide IsMeasured, Parse;
    if b == [] {
      assert a + b == a;
    } else {
      LatenciesInOrder(a, b[..|b| - 1], table);
      assert (a + b)[..|a + b| - 1] == a + b[..|b| - 1] && (a + b)[|a + b| - 1] == b[|b| - 1];
    }
  }

  lemma OneLatency(bytes: seq<byte>, at: int, n: int, table: Table)
    requires Parse(bytes, table) == Timestamp(n) && FitsFloat(at - n)
    ensures Latencies([Datagram(bytes, at)], table) == [(at - n) as real / 1000000.0]
    ensures Latencies([Timeout], table) == []
  {
    hide Parse, FitsFloat;
    assert [Datagram(bytes, at)][..0] == [] && [Timeout][..0] == [];
  }

  /** The receive loop. A timeout is skipped; an error in splitting, parsing or dividing is not caught and ends the
      loop, with the latencies so far kept. */
  method Measure(receptions: seq<Reception>, table: Table) returns (latencies: seq<real>, rounds: nat)
    requires |receptions| == 100
    ensures rounds <= 100
    ensures forall k :: 0 <= k < rounds ==> Readable(receptions[k], table) && IsMeasured(receptions[k], table)
    ensures rounds < 100 ==> !Readable(receptions[rounds], table)
    ensures latencies == Latencies(receptions[..rounds], table)
  {
    hide Parse, Readable, FitsFloat;
    latencies, rounds := [], 0;
    while rounds < ROUNDS
      invariant rounds <= ROUNDS
      invariant forall k :: 0 <= k < rounds ==> Readable(receptions[k], table) && IsMeasured(receptions[k], table)
      invariant latencies == Latencies(receptions[..rounds], table)
    {
      var r := receptions[rounds];
      assert receptions[..rounds + 1][..rounds] == receptions[..rounds];
      MeasuredIff(r, table);
      if r.Datagram? {
        var parsed := Parse(r.bytes, table);
        if !parsed.Timestamp? || !FitsFloat(r.at - parsed.value) {
          return;
        }
        latencies := latencies + [Latency(parsed.value, r.at)];
      }
      rounds := rounds + 1;
    }
  }

  // ---------------------------------------------------------------- numerals too large, and the sender's packets

  lemma {:induction false} Power2Grows(m: nat, n: nat)
    requires m <= n
    ensures Power2(m) <= Power2(n)
  {
    if m < n {
      Power2Grows(m, n - 1);
    }
  }

  lemma DoubleStep(n: nat)
    ensures Power2(n + 1) == 2 * Power2(n)
  {
  }

  /** Powers of ten outgrow those of eight. */
  lemma {:induction false} TenToTwo(k: nat)
    ensures Power2(3 * k) <= Power10(k)
  {
    if k > 0 {
      TenToTwo(k - 1);
      DoubleStep(3 * (k - 1));
      DoubleStep(3 * (k - 1) + 1);
      DoubleStep(3 * (k - 1) + 2);
    }
  }

  lemma {:induction false} Power10Grows(m: nat, n: nat)
    requires m < n
    ensures Power10(m) < Power10(n)
  {
    if m < n - 1 {
      Power10Grows(m, n - 1);
    }
  }

  /** The times whose difference to every 64-bit timestamp fits a float. */
  predicate InRange(at: int) {
    -FloatLimit() < at - (TWO_63 - 1) && at + TWO_63 < FloatLimit()
  }

  lemma LimitAtLeast(m: nat)
    requires m <= 970
    ensures FloatLimit() >= Power2(m)
  {
    hide Power2;
    DoubleStep(970);
    Power2Grows(971, 1024);
    Power2Grows(m, 970);
  }

  lemma {:induction false} Power2Sum(m: nat, n: nat)
    ensures Power2(m + n) == Power2(m) * Power2(n)
  {
    if n > 0 {
      Power2Sum(m, n - 1);
    }
  }

  lemma Power2Of64()
    ensures Power2(64) == TWO_64
  {
    assert Power2(2) == 4;
    Power2Sum(2, 2);
    Power2Sum(4, 4);
    Power2Sum(8, 8);
    Power2Sum(16, 16);
    Power2Sum(32, 32);
  }

  /** A 64-bit clock of nanoseconds is far inside. */
  lemma ClockInRange(at: int64)
    ensures InRange(at)
  {
    hide FloatLimit;
    Power2Of64();
    LimitAtLeast(65);
    DoubleStep(64);
  }

  /** A one with so many zeros behind it, and a separator: it fits the receive buffer and parses, but ends the loop. */
  lemma HugeNumeralStops(zeros: nat, at: int, table: Table)
    requires 342 <= zeros <= 4094 && InRange(at)
    ensures var bytes := Printed(Power10(zeros)) + [SEPARATOR];
      && |bytes| <= RECEIVE_SIZE && Parse(bytes, table) == Timestamp(Power10(zeros))
      && !Readable(Datagram(bytes, at), table)
  {
    hide Parse, Readable, Power2, Power10, Digits;
    var n, bytes := Power10(zeros), Printed(Power10(zeros)) + [SEPARATOR];
    Power10Grows(zeros, zeros + 1);
    DigitCount(n, zeros + 1);
    NumberThenAnything(n, [], table);
    assert bytes + [] == bytes;
    TenToTwo(zeros);
    Power2Grows(1025, 3 * zeros);
    DoubleStep(1024);
    assert !FitsFloat(at - n);
    MeasuredIff(Datagram(bytes, at), table);
  }

  lemma TimeoutIsSkipped(table: Table)
    ensures IsMeasured(Timeout, table) && Readable(Timeout, table)
  {
  }

  lemma PacketIsMeasured(t: int64, audio: seq<byte>, at: int, table: Table)
    requires InRange(at)
    ensures Parse(Packet(t, audio), table) == Timestamp(t)
    ensures var r := Datagram(Packet(t, audio), at); IsMeasured(r, table) && Readable(r, table)
  {
    hide Parse, Packet, Readable, FloatLimit;
    PacketRoundTrip(t, audio, table);
    MeasuredIff(Datagram(Packet(t, audio), at), table);
  }

  /** Every packet of the sender among the receptions is measured, none ends the loop. */
  lemma {:induction false} PacketsAreMeasured(receptions: seq<Reception>, sent: seq<int64>, audio: seq<seq<byte>>,
                                              table: Table)
    requires |sent| == |audio| == |receptions|
    requires forall k :: 0 <= k < |receptions| && receptions[k].Datagram? ==>
      receptions[k].bytes == Packet(sent[k], audio[k]) && InRange(receptions[k].at)
    ensures forall k :: 0 <= k < |receptions| ==>
      Readable(receptions[k], table) && IsMeasured(receptions[k], table)
    ensures Latencies(receptions, table) == SentLatencies(receptions, sent)
  {
    hide Parse, Packet, Readable, IsMeasured, InRange;
    forall k | 0 <= k < |receptions| ensures IsMeasured(receptions[k], table) && Readable(receptions[k], table) {
      if receptions[k].Datagram? {
        PacketIsMeasured(sent[k], audio[k], receptions[k].at, table);
      } else {
        TimeoutIsSkipped(table);
      }
    }
    if receptions != [] {
      var n := |receptions| - 1;
      if receptions[n].Datagram? {
        PacketIsMeasured(sent[n], audio[n], receptions[n].at, table);
      }
      PacketsAreMeasured(receptions[..n], sent[..n], audio[..n], table);
    }
  }

  /** For each packet received, receive time minus send time, in milliseconds. */
  function SentLatencies(receptions: seq<Reception>, sent: seq<int64>): seq<real>
    requires |sent| == |receptions|
  {
    if receptions == [] then [] else
      var n := |receptions| - 1;
      SentLatencies(receptions[..n], sent[..n])
      + if receptions[n].Datagram? then [(receptions[n].at - sent[n]) as real / 1000000.0] else []
  }
}
