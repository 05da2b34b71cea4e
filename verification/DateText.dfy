/**
 The text form of a date, crates/mtp-rs/src/ptp/pack/datetime.rs: `YYYYMMDDThhmmss`, optional
 tenths `.s`, optional offset `Z` or `±hhmm`. Parsing is compared with a grammar, `Spells`.
 */
module DateText {
  import opened Common
  import opened DateTimes
  import opened Pack

  const ZERO: byte := '0' as int
  const T: byte := 'T' as int
  const Z: byte := 'Z' as int
  const DOT: byte := '.' as int
  const PLUS: byte := '+' as int
  const MINUS: byte := '-' as int

  // --- Decimal digits ---

  predicate IsDigit(b: byte) { ZERO <= b <= ZERO + 9 }

  predicate AllDigits(b: seq<byte>) { forall i :: 0 <= i < |b| ==> IsDigit(b[i]) }

  function DigitsValue(b: seq<byte>): nat
    requires AllDigits(b)
  {
    if b == [] then 0 else DigitsValue(b[..|b| - 1]) * 10 + (b[|b| - 1] as int - ZERO)
  }

  /** Exactly `n` ASCII digits, as a number. */
  function ParseDigits(n: nat, b: seq<byte>): Option<nat> {
    if |b| != n || !AllDigits(b) then None else Some(DigitsValue(b))
  }

  /** `n` in `width` digits, as `{:0width}` writes a number that fits. */
  function Pad(n: nat, width: nat): seq<byte> {
    if width == 0 then [] else Pad(n / 10, width - 1) + [ZERO + n % 10]
  }

  function Pow10(n: nat): nat { if n == 0 then 1 else 10 * Pow10(n - 1) }

  /** Digits and numbers below 10^width are two spellings of the same thing. */
  lemma {:induction false} DigitsOfPad(n: nat, width: nat)
    requires n < Pow10(width)
    ensures ParseDigits(width, Pad(n, width)) == Some(n)
  {
    if width > 0 {
      DigitsOfPad(n / 10, width - 1);
      var b := Pad(n, width);
      assert b[..|b| - 1] == Pad(n / 10, width - 1);
    }
  }

  lemma {:induction false} PadOfDigits(b: seq<byte>)
    requires AllDigits(b)
    ensures 0 <= DigitsValue(b) < Pow10(|b|)
    ensures Pad(DigitsValue(b), |b|) == b
  {
    if b != [] {
      var n := |b| - 1;
      PadOfDigits(b[..n]);
      assert b == b[..n] + [b[n]];
    }
  }

  lemma {:induction false} PadIsAscii(n: nat, width: nat)
    ensures |Pad(n, width)| == width && AllDigits(Pad(n, width))
  {
    if width > 0 {
      PadIsAscii(n / 10, width - 1);
    }
  }

  /** How many digits `b` starts with. */
  function DigitRun(b: seq<byte>): (n: nat)
    ensures n <= |b| && AllDigits(b[..n])
    ensures n < |b| ==> !IsDigit(b[n])
  {
    if b == [] || !IsDigit(b[0]) then 0
    else
      var n := 1 + DigitRun(b[1..]);
      assert b[..n] == [b[0]] + b[1..][..n - 1];
      n
  }

  // --- Parsing ---

  /** `hhmm` as minutes, at most 23:59. */
  function ParseHhmm(hhmm: seq<byte>): (r: Option<nat>)
    ensures r.Some? ==> r.value < 1440
  {
    if |hhmm| < 2 then None
    else
      var hours :- ParseDigits(2, hhmm[..2]);
      var minutes :- ParseDigits(2, hhmm[2..]);
      if hours > 23 || minutes > 59 then None else Some(hours * 60 + minutes)
  }

  /** `Z`, `±hhmm` or nothing. */
  function ParseZone(tail: seq<byte>): Option<Option<UtcOffset>> {
    if tail == [] then Some(None)
    else if tail == [Z] then Some(Some(0))
    else if tail[0] == PLUS || tail[0] == MINUS then
      var total :- ParseHhmm(tail[1..]);
      Some(Some(if tail[0] == MINUS then -(total as int) else total))
    else None
  }

  /** The optional `[.s][Z|±hhmm]` suffix; tenths are dropped. */
  function ParseSuffix(tail: seq<byte>): Option<Option<UtcOffset>> {
    if tail != [] && tail[0] == DOT then
      var rest := tail[1..];
      var digits := DigitRun(rest);
      if digits == 0 then None else ParseZone(rest[digits..])
    else ParseZone(tail)
  }

  /** The fixed fifteen bytes. */
  function ParseStamp(b: seq<byte>): Option<DateTime>
    requires |b| == 15
  {
    var year :- ParseDigits(4, b[0..4]);
    var month :- ParseDigits(2, b[4..6]);
    var day :- ParseDigits(2, b[6..8]);
    var hour :- ParseDigits(2, b[9..11]);
    var minute :- ParseDigits(2, b[11..13]);
    var second :- ParseDigits(2, b[13..15]);
    DigitsFit(b);
    var t := DateTime(year, month, day, hour, minute, second, None);
    if IsValid(t) then Some(t) else None
  }

  /** Two digits fit a byte and four fit sixteen bits, so no narrowing below can fail. */
  lemma {:induction false} DigitsFit(b: seq<byte>)
    requires |b| == 15
    requires AllDigits(b[0..4]) && AllDigits(b[4..6]) && AllDigits(b[6..8])
    requires AllDigits(b[9..11]) && AllDigits(b[11..13]) && AllDigits(b[13..15])
    ensures 0 <= DigitsValue(b[0..4]) < 10_000
    ensures 0 <= DigitsValue(b[4..6]) < 100 && 0 <= DigitsValue(b[6..8]) < 100
    ensures 0 <= DigitsValue(b[9..11]) < 100 && 0 <= DigitsValue(b[11..13]) < 100
    ensures 0 <= DigitsValue(b[13..15]) < 100
  {
    Powers();
    PadOfDigits(b[0..4]);
    PadOfDigits(b[4..6]);
    PadOfDigits(b[6..8]);
    PadOfDigits(b[9..11]);
    PadOfDigits(b[11..13]);
    PadOfDigits(b[13..15]);
  }

  lemma {:induction false} Powers()
    ensures Pow10(2) == 100 && Pow10(4) == 10_000
  {
  }

  function Parse(b: seq<byte>): Option<DateTime> {
    if |b| < 15 || b[8] != T then None
    else
      var t :- ParseStamp(b[..15]);
      var offset :- ParseSuffix(b[15..]);
      Some(t.(offset := offset))
  }

  // --- Formatting ---

  function Stamp(t: DateTime): seq<byte> {
    Pad(t.year, 4) + Pad(t.month, 2) + Pad(t.day, 2) + [T] + Pad(t.hour, 2) + Pad(t.minute, 2) + Pad(t.second, 2)
  }

  function Hhmm(minutes: nat): seq<byte> { Pad(minutes / 60, 2) + Pad(minutes % 60, 2) }

  function FormatZone(offset: Option<UtcOffset>): seq<byte> {
    if offset == None then []
    else if offset == Some(0) then [Z]
    else
      var sign := if offset.value < 0 then MINUS else PLUS;
      var abs: int := if offset.value < 0 then -offset.value else offset.value;
      [sign] + Hhmm(abs)
  }

  function Format(t: DateTime): Option<seq<byte>> {
    if !IsValid(t) then None else Some(Stamp(t) + FormatZone(t.offset))
  }

  // --- The grammar ---

  /** Nothing, or a dot and at least one digit. */
  predicate IsFraction(f: seq<byte>) {
    f == [] || (|f| >= 2 && f[0] == DOT && AllDigits(f[1..]))
  }

  /** The texts for an offset: UTC is `Z`, `+0000` or `-0000`. */
  predicate IsZone(z: seq<byte>, offset: Option<UtcOffset>) {
    match offset
    case None => z == []
    case Some(m) =>
      || (m == 0 && z == [Z])
      || (m >= 0 && z == [PLUS] + Hhmm(m))
      || (m <= 0 && z == [MINUS] + Hhmm(-m))
  }

  /** `b` is a text for the valid date `t`. */
  ghost predicate Spells(b: seq<byte>, t: DateTime) {
    IsValid(t) &&
    exists f: seq<byte>, z: seq<byte> :: IsFraction(f) && IsZone(z, t.offset) && b == Stamp(t) + f + z
  }

  lemma {:induction false} HhmmParses(b: seq<byte>, n: nat)
    requires n < 1440
    ensures ParseHhmm(b) == Some(n) <==> b == Hhmm(n)
  {
    hide Pad, DigitsValue, Pow10;
    Powers();
    DigitsOfPad(n / 60, 2);
    DigitsOfPad(n % 60, 2);
    if b == Hhmm(n) {
      assert b[..2] == Pad(n / 60, 2) && b[2..] == Pad(n % 60, 2);
    }
    if ParseHhmm(b) == Some(n) {
      PadOfDigits(b[..2]);
      PadOfDigits(b[2..]);
      assert b == b[..2] + b[2..];
    }
  }

  lemma {:induction false} ZoneParses(z: seq<byte>, offset: Option<UtcOffset>)
    ensures ParseZone(z) == Some(offset) <==> IsZone(z, offset)
  {
    if offset.Some? {
      var m: int := offset.value;
      var n := if m < 0 then -m else m;
      if z != [] {
        HhmmParses(z[1..], n);
        assert z == [z[0]] + z[1..];
      }
    }
  }

  lemma {:induction false} DigitRunEnds(d: seq<byte>, z: seq<byte>)
    requires AllDigits(d) && (z == [] || !IsDigit(z[0]))
    ensures DigitRun(d + z) == |d|
  {
    if d == [] {
      assert d + z == z;
    } else {
      assert (d + z)[1..] == d[1..] + z;
      DigitRunEnds(d[1..], z);
    }
  }

  /** A fraction and an offset text, joined, parse to that offset. */
  lemma {:induction false} SuffixJoins(f: seq<byte>, z: seq<byte>, offset: Option<UtcOffset>)
    requires IsFraction(f) && IsZone(z, offset)
    ensures ParseSuffix(f + z) == Some(offset)
  {
    hide ParseZone, Hhmm;
    ZoneParses(z, offset);
    if f == [] {
      assert f + z == z;
    } else {
      assert (f + z)[1..] == f[1..] + z;
      DigitRunEnds(f[1..], z);
      assert (f[1..] + z)[|f| - 1..] == z;
    }
  }

  /** Any suffix that parses is a fraction and an offset text. */
  lemma {:induction false} SuffixSplits(tail: seq<byte>) returns (f: seq<byte>, z: seq<byte>)
    requires ParseSuffix(tail).Some?
    ensures IsFraction(f) && IsZone(z, ParseSuffix(tail).value) && tail == f + z
  {
    hide ParseZone, IsZone, AllDigits;
    var n := if tail != [] && tail[0] == DOT then 1 + DigitRun(tail[1..]) else 0;
    f, z := tail[..n], tail[n..];
    assert n > 0 ==> f[1..] == tail[1..][..n - 1] && z == tail[1..][n - 1..];
    ZoneParses(z, ParseSuffix(tail).value);
  }

  lemma {:induction false} StampSlices(t: DateTime)
    ensures var b := Stamp(t);
            && |b| == 15 && b[8] == T
            && b[0..4] == Pad(t.year, 4) && b[4..6] == Pad(t.month, 2) && b[6..8] == Pad(t.day, 2)
            && b[9..11] == Pad(t.hour, 2) && b[11..13] == Pad(t.minute, 2) && b[13..15] == Pad(t.second, 2)
  {
    hide Pad;
    PadIsAscii(t.year, 4);
    PadIsAscii(t.month, 2);
    PadIsAscii(t.day, 2);
    PadIsAscii(t.hour, 2);
    PadIsAscii(t.minute, 2);
    PadIsAscii(t.second, 2);
  }

  lemma {:induction false} StampParses(t: DateTime)
    requires IsValid(t)
    ensures |Stamp(t)| == 15 && Stamp(t)[8] == T && ParseStamp(Stamp(t)) == Some(t.(offset := None))
  {
    StampSlices(t);
    MonthsAreShort(Calendar.Date(t.year, t.month, t.day));
    hide Pad, ParseDigits, IsValid, Stamp;
    Powers();
    DigitsOfPad(t.year, 4);
    DigitsOfPad(t.month, 2);
    DigitsOfPad(t.day, 2);
    DigitsOfPad(t.hour, 2);
    DigitsOfPad(t.minute, 2);
    DigitsOfPad(t.second, 2);
  }

  /** Fifteen bytes that parse are the stamp of what they parse to. */
  lemma {:induction false} ParsedStamp(b: seq<byte>)
    requires |b| == 15 && b[8] == T && ParseStamp(b).Some?
    ensures Stamp(ParseStamp(b).value) == b
    ensures IsValid(ParseStamp(b).value) && ParseStamp(b).value.offset == None
  {
    PadOfDigits(b[0..4]);
    PadOfDigits(b[4..6]);
    PadOfDigits(b[6..8]);
    PadOfDigits(b[9..11]);
    PadOfDigits(b[11..13]);
    PadOfDigits(b[13..15]);
    hide Pad, DigitsValue, IsValid;
    FifteenBytes(b);
  }

  lemma {:induction false} FifteenBytes(b: seq<byte>)
    requires |b| == 15
    ensures b == b[0..4] + b[4..6] + b[6..8] + [b[8]] + b[9..11] + b[11..13] + b[13..15]
  {
  }

  lemma {:induction false} ParsedIsSpelled(b: seq<byte>)
    requires Parse(b).Some?
    ensures Spells(b, Parse(b).value)
  {
    hide ParseStamp, ParseSuffix, Stamp, IsZone, IsFraction;
    var t := Parse(b).value;
    var t0 := ParseStamp(b[..15]).value;
    ParsedStamp(b[..15]);
    StampIgnoresOffset(t0, t.offset);
    var f, z := SuffixSplits(b[15..]);
    assert b == Stamp(t) + f + z;
  }

  lemma {:induction false} StampIgnoresOffset(t: DateTime, offset: Option<UtcOffset>)
    ensures Stamp(t.(offset := offset)) == Stamp(t) && IsValid(t.(offset := offset)) == IsValid(t)
  {
  }

  lemma {:induction false} SpelledIsParsed(t: DateTime, f: seq<byte>, z: seq<byte>)
    requires IsValid(t) && IsFraction(f) && IsZone(z, t.offset)
    ensures Parse(Stamp(t) + f + z) == Some(t)
  {
    hide ParseStamp, ParseSuffix, Stamp, IsZone, IsFraction;
    var b := Stamp(t) + f + z;
    StampParses(t);
    assert b[..15] == Stamp(t) && b[15..] == f + z;
    SuffixJoins(f, z, t.offset);
  }

  /** The parser accepts exactly the grammar, and reads the date the grammar spells. */
  lemma {:induction false} ParseIsTheGrammar(b: seq<byte>, t: DateTime)
    ensures Parse(b) == Some(t) <==> Spells(b, t)
  {
    hide Parse, Stamp, IsValid, IsZone, IsFraction;
    if Parse(b) == Some(t) {
      ParsedIsSpelled(b);
    }
    if Spells(b, t) {
      var f: seq<byte>, z: seq<byte> :| IsFraction(f) && IsZone(z, t.offset) && b == Stamp(t) + f + z;
      SpelledIsParsed(t, f, z);
    }
  }

  /** A valid date, with or without an offset, is formatted as text that parses to it. */
  lemma {:induction false} FormatThenParse(t: DateTime)
    requires IsValid(t)
    ensures Format(t).Some? && Parse(Format(t).value) == Some(t)
  {
    var z := FormatZone(t.offset);
    assert Format(t).value == Stamp(t) + [] + z;
    assert IsFraction([]) && IsZone(z, t.offset);
    ParseIsTheGrammar(Format(t).value, t);
  }

  lemma {:induction false} TwoDigits(n: nat)
    requires n < 100
    ensures Pad(n, 2) == [48 + n / 10, 48 + n % 10]
  {
    assert Pad(n / 10, 1) == Pad(n / 100, 0) + [48 + n / 10 % 10];
    assert Pad(n / 10, 1) == [48 + n / 10];
  }

  lemma {:induction false} FourDigits(n: nat)
    requires n < 10_000
    ensures Pad(n, 4) == [48 + n / 1000, 48 + n / 100 % 10, 48 + n / 10 % 10, 48 + n % 10]
  {
    TwoDigits(n / 100);
    assert Pad(n / 10, 3) == Pad(n / 10 / 10, 2) + [48 + n / 10 % 10];
  }

  /** Year first, then month, day, hour, minute and second. */
  lemma {:induction false} StampExample()
    ensures Stamp(DateTime(2024, 3, 9, 14, 5, 6, None)) == [50, 48, 50, 52, 48, 51, 48, 57, 84, 49, 52, 48, 53, 48, 54]
  {
    hide Pad;
    FourDigits(2024);
    TwoDigits(3);
    TwoDigits(9);
    TwoDigits(14);
    TwoDigits(5);
    TwoDigits(6);
  }

  /** An offset is hours and minutes behind its sign, or `Z`; a fraction has a digit. */
  lemma {:induction false} ZoneExamples()
    ensures FormatZone(Some(330)) == [43, 48, 53, 51, 48] && FormatZone(Some(-90)) == [45, 48, 49, 51, 48]
    ensures FormatZone(Some(0)) == [90] && FormatZone(None) == []
    ensures IsFraction([46, 53]) && !IsFraction([46])
  {
    hide Pad;
    TwoDigits(5);
    TwoDigits(30);
    TwoDigits(1);
  }

  /** Whatever parses is a valid date whose own text parses to the same date. */
  lemma {:induction false} ParseThenFormat(b: seq<byte>)
    requires Parse(b).Some?
    ensures IsValid(Parse(b).value)
    ensures Format(Parse(b).value).Some? && Parse(Format(Parse(b).value).value) == Parse(b)
  {
    ParseIsTheGrammar(b, Parse(b).value);
    FormatThenParse(Parse(b).value);
  }

  // --- Packed dates ---

  /** A text as UTF-8 bytes, which is what the parser indexes. */
  function Utf8Scalar(c: Scalar): seq<byte> {
    if c < 0x80 then [c]
    else if c < 0x800 then [0xC0 + c / 0x40, 0x80 + c % 0x40]
    else if c < 0x1_0000 then [0xE0 + c / 0x1000, 0x80 + c / 0x40 % 0x40, 0x80 + c % 0x40]
    else [0xF0 + c / 0x4_0000, 0x80 + c / 0x1000 % 0x40, 0x80 + c / 0x40 % 0x40, 0x80 + c % 0x40]
  }

  function Utf8(s: Text): seq<byte> {
    if s == [] then [] else Utf8Scalar(s[0]) + Utf8(s[1..])
  }

  /** ASCII text is its own UTF-8 and its own UTF-16. */
  lemma {:induction false} AsciiIsItself(s: Text)
    requires forall i :: 0 <= i < |s| ==> s[i] < 0x80
    ensures Utf8(s) == s && Utf16(s) == s
  {
    if s != [] {
      AsciiIsItself(s[1..]);
      assert s == [s[0]] + s[1..];
    }
  }

  function PackDateTime(t: DateTime): Result<seq<byte>, PtpError> {
    match Format(t)
    case None => Err(InvalidData)
    case Some(text) => Packed(text)
  }

  /** An unparseable date is absent, not an error. */
  function UnpackDateTime(buf: seq<byte>): Result<(Option<DateTime>, nat), PtpError> {
    var (s, consumed) :- Unpacked(buf);
    Ok((Parse(Utf8(s)), consumed))
  }

  /** A packed date unpacks to itself and consumes exactly what was packed; only valid ones pack. */
  lemma {:induction false} PackedDateRoundTrip(t: DateTime, rest: seq<byte>)
    ensures PackDateTime(t).Ok? <==> IsValid(t)
    ensures IsValid(t) ==>
              UnpackDateTime(PackDateTime(t).value + rest) == Ok((Some(t), |PackDateTime(t).value|))
  {
    if IsValid(t) {
      FormattedIsAscii(t);
      var text := Format(t).value;
      AsciiIsItself(text);
      StringRoundTrip(text, rest);
      FormatThenParse(t);
    }
  }

  lemma {:induction false} FormattedIsAscii(t: DateTime)
    requires IsValid(t)
    ensures var text := Format(t).value; |text| <= 20 && forall i :: 0 <= i < |text| ==> 0 < text[i] < 0x80
  {
    hide Pad;
    PadIsAscii(t.year, 4);
    PadIsAscii(t.month, 2);
    PadIsAscii(t.day, 2);
    PadIsAscii(t.hour, 2);
    PadIsAscii(t.minute, 2);
    PadIsAscii(t.second, 2);
    if t.offset.Some? {
      var abs: int := if t.offset.value < 0 then -t.offset.value else t.offset.value;
      PadIsAscii(abs / 60, 2);
      PadIsAscii(abs % 60, 2);
    }
  }

  /** Reading a date fails only where reading its string does, and a date read repacks to itself. */
  lemma {:induction false} UnpackedDateIsStable(buf: seq<byte>, rest: seq<byte>)
    ensures UnpackDateTime(buf).Ok? <==> Unpacked(buf).Ok?
    ensures UnpackDateTime(buf).Ok? && UnpackDateTime(buf).value.0.Some? ==>
              var t := UnpackDateTime(buf).value.0.value;
              IsValid(t) && PackDateTime(t).Ok?
              && UnpackDateTime(PackDateTime(t).value + rest) == Ok((Some(t), |PackDateTime(t).value|))
  {
    if UnpackDateTime(buf).Ok? && UnpackDateTime(buf).value.0.Some? {
      ParseThenFormat(Utf8(Unpacked(buf).value.0));
      PackedDateRoundTrip(UnpackDateTime(buf).value.0.value, rest);
    }
  }
}
