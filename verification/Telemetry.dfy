/**
 Telemetry lines: reading them back (examples/wire_values.cpp), the log lines
 they mirror (examples/log_line.cpp), and the plain decimal parser of
 examples/error_handling.cpp.
 */
module Telemetry {
  import opened Numerals

  /** What follows one expected character; empty, like a malformed line, without it. */
  function Expect(text: string, c: char): string {
    if text == [] || text[0] != c then [] else text[1..]
  }

  function ExpectAll(text: string, prefix: string): string
    decreases |prefix|
  {
    if prefix == [] then text else ExpectAll(Expect(text, prefix[0]), prefix[1..])
  }

  method SkipPrefix(text: string, prefix: string) returns (rest: string)
    ensures rest == ExpectAll(text, prefix)
  {
    rest := text;
    for i := 0 to |prefix|
      invariant ExpectAll(rest, prefix[i..]) == ExpectAll(text, prefix)
    {
      rest := Expect(rest, prefix[i]);
      assert prefix[i..][1..] == prefix[i + 1..];
    }
  }

  /** The prefix is skipped if it is there in full; else nothing is left. */
  lemma {:induction false} ExpectAllIs(text: string, prefix: string)
    ensures ExpectAll(text, prefix) == if prefix <= text then text[|prefix|..] else []
    decreases |prefix|
  {
    if prefix != [] {
      var rest := Expect(text, prefix[0]);
      ExpectAllIs(rest, prefix[1..]);
      if text != [] && text[0] == prefix[0] {
        assert prefix[1..] <= rest <==> prefix <= text by {
          assert prefix == [prefix[0]] + prefix[1..] && text == [text[0]] + rest;
        }
      }
    }
  }

  // ---------------------------------------------------------------------
  // Tenths
  // ---------------------------------------------------------------------

  datatype Reading = Value(value: int) | Refused(error: ParseError)

  const INT16_MAX := 32767

  function InRange(tenths: int): Reading {
    if tenths > 32767 || tenths < -32768 then Refused(OutOfRange) else Value(tenths)
  }

  function Tenths(text: string): Reading {
    match Signed(text, INT16_MAX)
    case Failed(error) => Refused(error)
    case Parsed(whole, tail) =>
      var afterDot := Expect(tail, '.');
      if afterDot == [] then InRange(whole * 10) else
      match Unsigned(10, afterDot[..1], 255)
      case Failed(error) => Refused(error)
      case Parsed(digit, _) => InRange(whole * 10 + if whole < 0 || text[0] == '-' then -digit else digit)
  }

  method ParseTenths(text: string) returns (r: Reading)
    ensures r == Tenths(text)
  {
    var whole := TryParseInt(text, INT16_MAX);
    if whole.Failed? {
      return Refused(whole.error);
    }
    var tenths := whole.value * 10;
    var afterDot := Expect(whole.tail, '.');
    if afterDot != [] {
      var fraction := TryParseUint(afterDot[..1], 255);
      if fraction.Failed? {
        return Refused(fraction.error);
      }
      var digit := fraction.value;
      tenths := tenths + if whole.value < 0 || (|text| > 0 && text[0] == '-') then -digit else digit;
    }
    if tenths > 32767 || tenths < -32768 {
      return Refused(OutOfRange);
    }
    return Value(tenths);
  }

  function PrintTenths(v: int): string {
    var m: nat := if v < 0 then -v else v;
    (if v < 0 then "-" else "") + Decimal(m / 10) + "." + Decimal(m % 10)
  }

  /** Sign and digits: the sign applies to the whole and the fraction together. */
  lemma TenthsMean(negative: bool, digits: string, rest: string)
    requires AllDigits(10, digits) && digits != [] && Stops(10, rest)
    ensures var whole := Number(10, digits);
            var sign := if negative then -1 else 1;
            Tenths((if negative then "-" else "") + digits + rest) ==
            if whole > (if negative then 32768 else 32767) then Refused(OutOfRange)
            else if |rest| < 2 || rest[0] != '.' then InRange(sign * (10 * whole))
            else if !IsDigit(10, rest[1]) then Refused(NotANumber)
            else InRange(sign * (10 * whole + DigitValue(rest[1])))
  {
    hide Number, Unsigned, Signed, AllDigits, InRange;
    SignedMeans(negative, digits, rest);
    if |rest| >= 2 && rest[0] == '.' {
      OneDigit(rest[1]);
      assert rest[1..][..1] == [rest[1]];
    }
  }

  lemma SignedMeans(negative: bool, digits: string, rest: string)
    requires AllDigits(10, digits) && digits != [] && Stops(10, rest)
    ensures var text := (if negative then "-" else "") + digits + rest;
            var whole: int := Number(10, digits);
            && text != [] && (text[0] == '-' <==> negative)
            && Signed(text, INT16_MAX) ==
               if whole > (if negative then 32768 else 32767) then Failed(OutOfRange)
               else Parsed(if negative then -whole else whole, rest)
  {
    hide Number, RunLength;
    var text := (if negative then "-" else "") + digits + rest;
    RunLengthIs(10, digits, rest);
    assert (digits + rest)[..|digits|] == digits && (digits + rest)[|digits|..] == rest;
    assert IsDigit(10, digits[0]);
    if negative {
      assert text[1..] == digits + rest;
    } else {
      assert text == digits + rest;
    }
  }

  lemma OneDigit(c: char)
    ensures Unsigned(10, [c], 255) == if IsDigit(10, c) then Parsed(DigitValue(c), []) else Failed(NotANumber)
  {
    if IsDigit(10, c) {
      RunLengthIs(10, [c], []);
      assert [c] + [] == [c];
      NumberGrows(10, [], c);
      NumberNone(10);
      assert [] + [c] == [c];
    }
  }

  /** No number at all, no reading. */
  lemma NoTenths(text: string)
    requires var body := if text != [] && text[0] == '-' then text[1..] else text; Stops(10, body)
    ensures Tenths(text) == Refused(if text == [] then Empty else NotANumber)
  {
  }

  /** Every 16-bit reading survives printing and parsing, whatever follows it on
      the line: the most negative one and those between -1 and 0 included. */
  lemma TenthsRoundTrip(v: int, rest: string)
    requires -32768 <= v <= 32767
    ensures Tenths(PrintTenths(v) + rest) == Value(v)
  {
    hide Tenths, Decimal;
    var negative := v < 0;
    var m: nat := if negative then -v else v;
    DecimalIs(m / 10);
    DecimalDigit(m % 10);
    var tail := "." + Decimal(m % 10) + rest;
    TenthsMean(negative, Decimal(m / 10), tail);
    assert PrintTenths(v) + rest == (if negative then "-" else "") + Decimal(m / 10) + tail;
    assert tail[1] == Decimal(m % 10)[0];
    assert v == (if negative then -1 else 1) * (10 * (m / 10) + m % 10);
  }

  lemma DecimalIs(n: nat)
    ensures AllDigits(10, Decimal(n)) && Decimal(n) != [] && Number(10, Decimal(n)) == n
  {
    FixedSays(10, n, DigitCount(10, n), false);
  }

  lemma DecimalDigit(d: nat)
    requires d < 10
    ensures |Decimal(d)| == 1 && DigitValue(Decimal(d)[0]) == d
  {
    assert DigitCount(10, d) == 1;
    assert Decimal(d) == [] + [DigitChar(d, false)];
  }

  // ---------------------------------------------------------------------
  // Lines
  // ---------------------------------------------------------------------

  datatype Frame = Frame(sequence: int, temperature: int, status: int)

  datatype Line = Line(frame: Frame) | Malformed(error: ParseError)

  const UINT16_MAX := 0xFFFF
  const UINT32_MAX := 0xFFFF_FFFF

  /** The position of the first space, or the end. */
  function FirstSpace(text: string): (n: nat)
    ensures n <= |text| && (n < |text| ==> text[n] == ' ') && ' ' !in text[..n]
  {
    if text == [] || text[0] == ' ' then 0 else
    var n := 1 + FirstSpace(text[1..]);
    assert text[..n] == [text[0]] + text[1..][..n - 1];
    n
  }

  function ParseLine(line: string): Line {
    match Unsigned(10, ExpectAll(line, "seq="), UINT16_MAX)
    case Failed(error) => Malformed(error)
    case Parsed(sequence, tail) =>
      var rest := ExpectAll(Expect(tail, ' '), "temp=");
      match Tenths(rest)
      case Refused(error) => Malformed(error)
      case Value(temperature) =>
        var last := ExpectAll(Expect(rest[FirstSpace(rest)..], ' '), "status=");
        match Unsigned(16, last, UINT32_MAX)
        case Failed(error) => Malformed(error)
        case Parsed(status, _) => Line(Frame(sequence, temperature, status))
  }

  method ParseFrame(line: string) returns (r: Line)
    ensures r == ParseLine(line)
  {
    hide Unsigned, Tenths, ExpectAll, Expect;
    var rest := SkipPrefix(line, "seq=");
    var sequence := TryParseUint(rest, UINT16_MAX);
    if sequence.Failed? {
      return Malformed(sequence.error);
    }
    rest := SkipPrefix(Expect(sequence.tail, ' '), "temp=");
    var temperature := ParseTenths(rest);
    if temperature.Refused? {
      return Malformed(temperature.error);
    }
    var offset := 0;
    while offset < |rest| && rest[offset] != ' '
      invariant offset <= |rest| && FirstSpace(rest) == offset + FirstSpace(rest[offset..])
    {
      assert rest[offset..][1..] == rest[offset + 1..];
      offset := offset + 1;
    }
    rest := SkipPrefix(Expect(rest[offset..], ' '), "status=");
    var status := TryParseHex(rest, UINT32_MAX);
    if status.Failed? {
      return Malformed(status.error);
    }
    return Line(Frame(sequence.value, temperature.value, status.value));
  }

  /** A line in the three-field layout. */
  function Joined(sequence: string, temperature: string, status: string): string {
    "seq=" + sequence + " temp=" + temperature + " status=" + status
  }

  /** An optional minus, digits, and whatever stops them: nothing that starts with a
      dot, or a dot and one digit of tenths. */
  predicate TenthsForm(text: string, negative: bool, digits: string, rest: string, v: int) {
    && text == (if negative then "-" else "") + digits + rest
    && digits != [] && AllDigits(10, digits) && Stops(10, rest) && -32768 <= v <= 32767
    && var sign, whole := if negative then -1 else 1, 10 * Number(10, digits);
       if rest == [] || rest[0] != '.' then v == sign * whole
       else |rest| > 1 && IsDigit(10, rest[1]) && v == sign * (whole + DigitValue(rest[1]))
  }

  predicate HexForm(text: string, digits: string, rest: string, v: int) {
    && text == digits + rest && digits != [] && AllDigits(16, digits) && Stops(16, rest)
    && Number(16, digits) == v <= 0xFFFF_FFFF
  }

  /** The fields say a frame: a decimal, a reading in tenths and a hexadecimal, each of
      the declared width. */
  ghost predicate Says(sequence: string, temperature: string, status: string, f: Frame) {
    && sequence != [] && AllDigits(10, sequence) && Number(10, sequence) == f.sequence <= 0xFFFF
    && ' ' !in temperature
    && (exists negative, digits, rest :: TenthsForm(temperature, negative, digits, rest, f.temperature))
    && exists digits, rest :: HexForm(status, digits, rest, f.status)
  }

  /** The fields are what the parsers make of them. The temperature's parser looks
      one character past a dot, so it is given what follows. */
  predicate Reads(sequence: string, temperature: string, status: string, f: Frame) {
    && sequence != [] && AllDigits(10, sequence) && Number(10, sequence) == f.sequence <= UINT16_MAX
    && ' ' !in temperature && Tenths(temperature + " status=" + status) == Value(f.temperature)
    && var r := Unsigned(16, status, UINT32_MAX);
       r.Parsed? && r.value == f.status
  }

  lemma {:induction false} FirstSpaceIs(word: string, rest: string)
    requires ' ' !in word
    ensures FirstSpace(word + " " + rest) == |word|
  {
    var text := word + " " + rest;
    if word != [] {
      assert text[1..] == word[1..] + " " + rest;
      FirstSpaceIs(word[1..], rest);
      assert text[0] == word[0];
      assert word[0] in word;
    }
  }

  lemma After(prefix: string, rest: string)
    ensures ExpectAll(prefix + rest, prefix) == rest
  {
    ExpectAllIs(prefix + rest, prefix);
    assert (prefix + rest)[|prefix|..] == rest;
  }

  lemma DigitsFirst(base: nat, digits: string, rest: string, limit: nat)
    requires digits != [] && AllDigits(base, digits) && Stops(base, rest) && Number(base, digits) <= limit
    ensures Unsigned(base, digits + rest, limit) == Parsed(Number(base, digits), rest)
  {
    RunLengthIs(base, digits, rest);
    assert (digits + rest)[..|digits|] == digits && (digits + rest)[|digits|..] == rest;
  }

  /** A line in the layout says what its fields say. */
  lemma JoinedParses(sequence: string, temperature: string, status: string, f: Frame)
    requires Reads(sequence, temperature, status, f)
    ensures ParseLine(Joined(sequence, temperature, status)) == Line(f)
  {
    hide Unsigned, Tenths, ExpectAll, FirstSpace, AllDigits, Number;
    var three := temperature + " status=" + status;
    var two := " temp=" + three;
    assert Joined(sequence, temperature, status) == "seq=" + (sequence + two);
    After("seq=", sequence + two);
    DigitsFirst(10, sequence, two, UINT16_MAX);
    assert Expect(two, ' ') == "temp=" + three;
    After("temp=", three);
    var last := "status=" + status;
    assert three == temperature + " " + last;
    FirstSpaceIs(temperature, last);
    assert three[|temperature|..] == " " + last;
    assert Expect(" " + last, ' ') == last;
    After("status=", status);
  }

  /** A prefix something was found after is there. */
  lemma Before(text: string, prefix: string)
    requires ExpectAll(text, prefix) != []
    ensures text == prefix + ExpectAll(text, prefix)
  {
    ExpectAllIs(text, prefix);
  }

  lemma Shape(line: string) returns (sequence: string, temperature: string, status: string)
    requires ParseLine(line).Line?
    ensures line == Joined(sequence, temperature, status) && Reads(sequence, temperature, status, ParseLine(line).frame)
  {
    hide Unsigned, Tenths, ExpectAll, Expect, FirstSpace, AllDigits, Number;
    var one := ExpectAll(line, "seq=");
    var r := Unsigned(10, one, UINT16_MAX);
    sequence := Taken(10, one, UINT16_MAX);
    Before(line, "seq=");
    var three := ExpectAll(Expect(r.tail, ' '), "temp=");
    NoTenths([]);
    Before(Expect(r.tail, ' '), "temp=");
    Space(r.tail);
    var k := FirstSpace(three);
    temperature := three[..k];
    status := ExpectAll(Expect(three[k..], ' '), "status=");
    var hex := Taken(16, status, UINT32_MAX);
    Before(Expect(three[k..], ' '), "status=");
    Space(three[k..]);
    Layout(line, sequence, r.tail, three, k, status);
  }

  lemma Layout(line: string, sequence: string, two: string, three: string, k: nat, status: string)
    requires k <= |three| && line == "seq=" + (sequence + two) && two == " " + ("temp=" + three)
    requires three[k..] == " " + ("status=" + status)
    ensures line == Joined(sequence, three[..k], status) && three == three[..k] + " status=" + status
  {
    assert three == three[..k] + three[k..];
  }

  lemma Taken(base: nat, text: string, limit: nat) returns (digits: string)
    requires Unsigned(base, text, limit).Parsed?
    ensures text == digits + Unsigned(base, text, limit).tail && digits != [] && AllDigits(base, digits)
    ensures Number(base, digits) == Unsigned(base, text, limit).value <= limit
  {
    digits := text[..RunLength(base, text)];
  }

  lemma Space(text: string)
    requires Expect(text, ' ') != []
    ensures text == " " + Expect(text, ' ')
  {
  }

  /** The parsers read a field exactly as its form says. */
  lemma TenthsRead(text: string, status: string, v: int)
    requires ' ' !in text
    ensures Tenths(text + " status=" + status) == Value(v) <==>
            exists negative, digits, rest :: TenthsForm(text, negative, digits, rest, v)
  {
    hide Tenths, Number, AllDigits;
    var tail := " status=" + status;
    assert text + " status=" + status == text + tail;
    forall negative, digits, rest | TenthsForm(text, negative, digits, rest, v)
      ensures Tenths(text + tail) == Value(v)
    {
      TenthsOfForm(text, negative, digits, rest, tail, v);
    }
    if Tenths(text + tail) == Value(v) {
      var negative, digits, rest := FormOfTenths(text, tail, v);
    }
  }

  lemma TenthsOfForm(text: string, negative: bool, digits: string, rest: string, tail: string, v: int)
    requires TenthsForm(text, negative, digits, rest, v) && tail != [] && tail[0] == ' '
    ensures Tenths(text + tail) == Value(v)
  {
    hide Tenths, Number, AllDigits;
    TenthsMean(negative, digits, rest + tail);
    assert text + tail == (if negative then "-" else "") + digits + (rest + tail);
  }

  lemma FormOfTenths(text: string, tail: string, v: int) returns (negative: bool, digits: string, rest: string)
    requires Tenths(text + tail) == Value(v) && |tail| > 1 && tail[0] == ' '
    ensures TenthsForm(text, negative, digits, rest, v)
  {
    hide Tenths, Number, RunLength, AllDigits;
    negative := text != [] && text[0] == '-';
    var body := Unsign(text, negative);
    var n := RunLength(10, body);
    digits, rest := body[..n], body[n..];
    if n == 0 {
      NoTenths(text + tail);
    }
    assert text + tail == (if negative then "-" else "") + digits + (rest + tail);
    TenthsMean(negative, digits, rest + tail);
  }

  lemma Unsign(text: string, negative: bool) returns (body: string)
    requires negative <==> text != [] && text[0] == '-'
    ensures text == (if negative then "-" else "") + body && |body| <= |text|
    ensures body == if negative then text[1..] else text
  {
    body := if negative then text[1..] else text;
  }

  lemma HexRead(text: string, v: int)
    ensures (var r := Unsigned(16, text, UINT32_MAX); r.Parsed? && r.value == v) <==>
            exists digits, rest :: HexForm(text, digits, rest, v)
  {
    hide Number, RunLength, AllDigits;
    forall digits, rest | HexForm(text, digits, rest, v)
      ensures Unsigned(16, text, UINT32_MAX) == Parsed(v, rest)
    {
      DigitsFirst(16, digits, rest, UINT32_MAX);
    }
    var n := RunLength(16, text);
    if Unsigned(16, text, UINT32_MAX).Parsed? {
      assert text == text[..n] + text[n..];
      assert HexForm(text, text[..n], text[n..], Number(16, text[..n]));
    }
  }

  lemma SaysIsReads(sequence: string, temperature: string, status: string, f: Frame)
    ensures Says(sequence, temperature, status, f) <==> Reads(sequence, temperature, status, f)
  {
    hide Tenths, Number, AllDigits, TenthsForm, HexForm, Unsigned;
    if ' ' !in temperature {
      TenthsRead(temperature, status, f.temperature);
    }
    HexRead(status, f.status);
  }

  /** A line is accepted, as a given frame, exactly when it has the three-field
      layout and its fields say that frame. */
  lemma AcceptedIff(line: string, f: Frame)
    ensures ParseLine(line) == Line(f) <==>
            exists sequence, temperature, status ::
              line == Joined(sequence, temperature, status) && Says(sequence, temperature, status, f)
  {
    hide ParseLine, Says, Reads, Joined;
    if ParseLine(line) == Line(f) {
      var sequence, temperature, status := Shape(line);
      SaysIsReads(sequence, temperature, status, f);
    }
    forall sequence, temperature, status |
      line == Joined(sequence, temperature, status) && Says(sequence, temperature, status, f)
      ensures ParseLine(line) == Line(f)
    {
      SaysIsReads(sequence, temperature, status, f);
      JoinedParses(sequence, temperature, status, f);
    }
  }

  predicate Fits(f: Frame) {
    0 <= f.sequence <= 0xFFFF && -32768 <= f.temperature <= 32767 && 0 <= f.status <= 0xFFFF_FFFF
  }

  /** Every frame of the declared widths survives printing and parsing, whatever
      hexadecimal width and letter case the status is printed in. */
  lemma LineRoundTrip(f: Frame, digits: nat, upper: bool)
    requires Fits(f) && HexFits(f.status, digits)
    ensures ParseLine(Joined(Decimal(f.sequence), PrintTenths(f.temperature), Hex(f.status, digits, upper))) == Line(f)
  {
    hide ParseLine, Joined, Decimal, Hex, PrintTenths, Tenths, Unsigned, Number, AllDigits;
    var status := Hex(f.status, digits, upper);
    DecimalIs(f.sequence);
    TenthsRoundTrip(f.temperature, " status=" + status);
    Regroup(PrintTenths(f.temperature), status);
    TenthsNoSpace(f.temperature);
    HexRoundTrip(f.status, digits, upper, [], UINT32_MAX);
    assert status + [] == status;
    JoinedParses(Decimal(f.sequence), PrintTenths(f.temperature), status, f);
  }

  lemma Regroup(a: string, b: string)
    ensures a + (" status=" + b) == a + " status=" + b
  {
  }

  lemma TenthsNoSpace(v: int)
    ensures ' ' !in PrintTenths(v)
  {
    var m: nat := if v < 0 then -v else v;
    DecimalIs(m / 10);
    DecimalIs(m % 10);
    NoSpace(Decimal(m / 10));
    NoSpace(Decimal(m % 10));
  }

  lemma NoSpace(digits: string)
    requires AllDigits(10, digits)
    ensures ' ' !in digits
  {
    forall i | 0 <= i < |digits| ensures digits[i] != ' ' {
      assert IsDigit(10, digits[i]);
    }
  }

  /** The line log_line.cpp prints for a reading. */
  function Render(f: Frame): string
    requires Fits(f)
  {
    "seq=" + Decimal(f.sequence) + " temp=" + PrintTenths(f.temperature) + "C status=0x" + Hex(f.status, 4, true)
  }

  /** The log line's unit is skipped and its 0x ends the status field after one
      zero, so the parser is not its mirror: every status is read back as 0. */
  lemma RenderedLosesStatus(f: Frame)
    requires Fits(f) && HexFits(f.status, 4)
    ensures ParseLine(Render(f)) == Line(f.(status := 0))
    ensures ParseLine(Render(f)) == Line(f) <==> f.status == 0
  {
    hide ParseLine, Decimal, Hex, PrintTenths, Tenths, Unsigned, Number, AllDigits;
    var temperature, status := PrintTenths(f.temperature), "0x" + Hex(f.status, 4, true);
    DecimalIs(f.sequence);
    TenthsRoundTrip(f.temperature, "C status=" + status);
    assert temperature + ("C status=" + status) == temperature + "C" + " status=" + status;
    TenthsNoSpace(f.temperature);
    OnlyZero(Hex(f.status, 4, true));
    assert Render(f) == Joined(Decimal(f.sequence), temperature + "C", status);
    JoinedParses(Decimal(f.sequence), temperature + "C", status, f.(status := 0));
  }

  lemma OnlyZero(rest: string)
    ensures Unsigned(16, "0x" + rest, UINT32_MAX) == Parsed(0, "x" + rest)
  {
    NumberGrows(16, [], '0');
    NumberNone(16);
    assert [] + ['0'] == "0";
    assert "0x" + rest == "0" + ("x" + rest);
    DigitsFirst(16, "0", "x" + rest, UINT32_MAX);
  }
}

/** The unsigned parser of examples/error_handling.cpp. */
module ParseU32 {
  import opened Common
  import opened Numerals

  const MAX := 0xFFFF_FFFF

  datatype ParseError = Empty | NotADigit | Overflow

  datatype Result = Ok(value: nat) | Err(error: ParseError)

  /** The digits up to `i` are digits of a number that fits. */
  predicate Good(s: string, i: nat)
    requires i <= |s|
  {
    AllDigits(10, s[..i]) && Number(10, s[..i]) <= 0xFFFF_FFFF
  }

  /** The whole text, or the first position that spoils it, decides. */
  method Parse(text: Option<string>) returns (r: Result)
    ensures r == Err(ParseError.Empty) <==> text.None? || text.value == []
    ensures r.Ok? <==> text.Some? && text.value != [] && Good(text.value, |text.value|)
    ensures r.Ok? ==> r.value == Number(10, text.value)
    ensures r.Err? && text.Some? && text.value != [] ==>
              exists i :: 0 <= i < |text.value| && Good(text.value, i) && !Good(text.value, i + 1) &&
                          (r.error == NotADigit <==> !IsDigit(10, text.value[i]))
  {
    hide Number;
    if text.None? || text.value == [] {
      return Err(ParseError.Empty);
    }
    var s := text.value;
    var acc := 0;
    NumberNone(10);
    for i := 0 to |s|
      invariant Good(s, i) && acc == Number(10, s[..i])
    {
      assert s[..i + 1] == s[..i] + [s[i]];
      if s[i] < '0' || s[i] > '9' {
        assert !IsDigit(10, s[..i + 1][i]);
        Spoiled(s, i);
        return Err(NotADigit);
      }
      var digit := DigitValue(s[i]);
      NumberGrows(10, s[..i], s[i]);
      if acc > (MAX - digit) / 10 {
        Spoiled(s, i);
        return Err(Overflow);
      }
      acc := acc * 10 + digit;
    }
    assert s[..|s|] == s;
    return Ok(acc);
  }

  /** Once spoiled, longer prefixes stay spoiled. */
  lemma Spoiled(s: string, i: nat)
    requires i < |s| && !Good(s, i + 1)
    ensures !Good(s, |s|)
  {
    if AllDigits(10, s) {
      NumberMonotone(s, i + 1, |s|);
    }
    assert s[..|s|] == s;
    assert AllDigits(10, s) ==> AllDigits(10, s[..i + 1]);
  }

  lemma {:induction false} NumberMonotone(s: string, i: nat, k: nat)
    requires i <= k <= |s|
    ensures Number(10, s[..i]) <= Number(10, s[..k])
    decreases k
  {
    hide Number;
    if i < k {
      NumberMonotone(s, i, k - 1);
      assert s[..k] == s[..k - 1] + [s[k - 1]];
      NumberGrows(10, s[..k - 1], s[k - 1]);
    }
  }

  /** A printed number is digits and says itself, so it parses exactly when it fits. */
  lemma PrintedParses(n: nat)
    ensures Decimal(n) != [] && Number(10, Decimal(n)) == n && (Good(Decimal(n), |Decimal(n)|) <==> n <= 0xFFFF_FFFF)
  {
    FixedSays(10, n, DigitCount(10, n), false);
    assert Decimal(n)[..|Decimal(n)|] == Decimal(n);
  }
}
