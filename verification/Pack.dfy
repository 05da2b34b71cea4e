/**
 Binary primitives of crates/mtp-rs/src/ptp/pack/mod.rs: little-endian integers and PTP strings
 (a length byte, UTF-16LE units, a NUL terminator).
 */
module Pack {
  import opened Common

  // --- Little-endian integers ---

  function Le16(b0: byte, b1: byte): u16 { b0 + b1 * 0x100 }

  function Le32(b0: byte, b1: byte, b2: byte, b3: byte): u32 {
    b0 + b1 * 0x100 + b2 * 0x1_0000 + b3 * 0x100_0000
  }

  function PackU16(v: u16): seq<byte> { [v % 0x100, v / 0x100] }

  function PackU32(v: u32): seq<byte> {
    [v % 0x100, v / 0x100 % 0x100, v / 0x1_0000 % 0x100, v / 0x100_0000]
  }

  function UnpackU16(buf: seq<byte>): Result<u16, PtpError> {
    if |buf| < 2 then Err(InvalidData) else Ok(Le16(buf[0], buf[1]))
  }

  function UnpackU32(buf: seq<byte>): Result<u32, PtpError> {
    if |buf| < 4 then Err(InvalidData)
    else Ok(Le32(buf[0], buf[1], buf[2], buf[3]))
  }

  /** Least significant byte first, and read back from the front of any buffer. */
  lemma {:induction false} U16RoundTrip(v: u16, rest: seq<byte>)
    ensures var b := PackU16(v); |b| == 2 && (b[0] as int) + (b[1] as int) * 0x100 == v
    ensures UnpackU16(PackU16(v) + rest) == Ok(v)
  {
  }

  lemma {:induction false} U32RoundTrip(v: u32, rest: seq<byte>)
    ensures var b := PackU32(v);
            && |b| == 4
            && (b[0] as int) + (b[1] as int) * 0x100 + (b[2] as int) * 0x1_0000 + (b[3] as int) * 0x100_0000 == v
    ensures UnpackU32(PackU32(v) + rest) == Ok(v)
  {
    assert v / 0x100 == v / 0x1_0000 * 0x100 + v / 0x100 % 0x100;
    assert v / 0x1_0000 == v / 0x100_0000 * 0x100 + v / 0x1_0000 % 0x100;
  }

  // --- UTF-16 (section 2 of RFC 2781) ---

  /** A Unicode scalar value: what a Rust `char` holds. */
  type Scalar = c: int | 0 <= c < 0xD800 || 0xE000 <= c <= 0x10FFFF

  type Text = seq<Scalar>

  const REPLACEMENT: Scalar := 0xFFFD

  /** The longest string PTP can carry, in UTF-16 units, not counting the terminator. */
  const MAX_STRING_UNITS := 254

  predicate IsHigh(u: u16) { 0xD800 <= u < 0xDC00 }

  predicate IsLow(u: u16) { 0xDC00 <= u < 0xE000 }

  function EncodeScalar(c: Scalar): (us: seq<u16>)
    ensures 1 <= |us| <= 2
  {
    if c < 0x1_0000 then [c]
    else [0xD800 + (c - 0x1_0000) / 0x400, 0xDC00 + (c - 0x1_0000) % 0x400]
  }

  function Utf16(s: Text): seq<u16> {
    if s == [] then [] else EncodeScalar(s[0]) + Utf16(s[1..])
  }

  /** Decodes UTF-16, each lone surrogate becoming one U+FFFD. */
  function DecodeLossy(us: seq<u16>): Text {
    if us == [] then []
    else if IsHigh(us[0]) && 1 < |us| && IsLow(us[1]) then
      [0x1_0000 + (us[0] - 0xD800) * 0x400 + (us[1] - 0xDC00)] + DecodeLossy(us[2..])
    else if IsHigh(us[0]) || IsLow(us[0]) then [REPLACEMENT] + DecodeLossy(us[1..])
    else [us[0]] + DecodeLossy(us[1..])
  }

  /** The part of `s` before its first NUL. */
  function BeforeNul(s: seq<int>): (r: seq<int>)
    ensures r <= s && 0 !in r
    ensures 0 !in s ==> r == s
    ensures |r| < |s| ==> s[|r|] == 0
  {
    if s == [] || s[0] == 0 then [] else [s[0]] + BeforeNul(s[1..])
  }

  lemma {:induction false} DecodeInvertsEncode(s: Text)
    ensures DecodeLossy(Utf16(s)) == s
  {
    if s != [] {
      DecodeInvertsEncode(s[1..]);
      var us, rest := EncodeScalar(s[0]), Utf16(s[1..]);
      assert (us + rest)[|us|..] == rest;
      assert s == [s[0]] + s[1..];
    }
  }

  /** Decoding, lossy or not, keeps the number of UTF-16 units, and makes no NUL. */
  lemma {:induction false} DecodeKeepsUnits(us: seq<u16>)
    ensures |Utf16(DecodeLossy(us))| == |us|
    ensures 0 !in us ==> 0 !in DecodeLossy(us)
  {
    if us != [] {
      var n := if IsHigh(us[0]) && 1 < |us| && IsLow(us[1]) then 2 else 1;
      var s := DecodeLossy(us);
      DecodeKeepsUnits(us[n..]);
      assert s[1..] == DecodeLossy(us[n..]);
      assert |EncodeScalar(s[0])| == n;
    }
  }

  /** A surrogate without its other half is U+FFFD; a pair is one scalar, and the pair decides which. */
  lemma {:induction false} SurrogatesDecode(u: u16, v: u16)
    ensures 0xD800 <= u < 0xE000 ==> DecodeLossy([u]) == [0xFFFD]
    ensures 0xD800 <= u < 0xDC00 <= v < 0xE000 ==>
              DecodeLossy([u, v]) == [0x1_0000 + (u - 0xD800) * 0x400 + (v - 0xDC00)]
  {
    assert [u][1..] == [] && [u, v][2..] == [];
  }

  lemma {:induction false} BeforeNulOfConcat(a: seq<int>, b: seq<int>)
    requires 0 !in a
    ensures BeforeNul(a + b) == a + BeforeNul(b)
  {
    if a == [] {
      assert a + b == b;
    } else {
      assert (a + b)[1..] == a[1..] + b && a[0] in a;
      BeforeNulOfConcat(a[1..], b);
    }
  }

  lemma {:induction false} NulSurvivesEncoding(s: Text)
    ensures BeforeNul(Utf16(s)) == Utf16(BeforeNul(s))
  {
    if s != [] && s[0] != 0 {
      NulSurvivesEncoding(s[1..]);
      BeforeNulOfConcat(EncodeScalar(s[0]), Utf16(s[1..]));
      assert BeforeNul(s)[1..] == BeforeNul(s[1..]);
    }
  }

  // --- PTP strings ---

  /** Units as UTF-16LE bytes, and such bytes as units. */
  function UnitBytes(us: seq<u16>): (r: seq<byte>)
    ensures |r| == 2 * |us|
  {
    if us == [] then [] else PackU16(us[0]) + UnitBytes(us[1..])
  }

  function Units(b: seq<byte>): (us: seq<u16>)
    ensures |us| == |b| / 2
  {
    if |b| < 2 then [] else [Le16(b[0], b[1])] + Units(b[2..])
  }

  lemma {:induction false} UnitsInvertBytes(us: seq<u16>)
    ensures Units(UnitBytes(us)) == us
  {
    if us != [] {
      UnitsInvertBytes(us[1..]);
      assert UnitBytes(us)[2..] == UnitBytes(us[1..]);
    }
  }

  lemma {:induction false} UnitAt(b: seq<byte>, i: nat)
    requires 2 * i + 1 < |b|
    ensures Units(b)[i] == Le16(b[2 * i], b[2 * i + 1])
  {
    if i > 0 {
      UnitAt(b[2..], i - 1);
    }
  }

  lemma {:induction false} UnitBytesAppend(us: seq<u16>, u: u16)
    ensures UnitBytes(us + [u]) == UnitBytes(us) + PackU16(u)
  {
    if us == [] {
      assert us + [u] == [u] && UnitBytes([u]) == PackU16(u) + UnitBytes([]);
    } else {
      assert (us + [u])[1..] == us[1..] + [u];
      UnitBytesAppend(us[1..], u);
    }
  }

  /** Bytes of a string whose length byte is `len`. */
  function StringSize(len: nat): nat { 1 + 2 * len }

  /** The wire form of `s`, or the error for a string the length byte can't express. */
  function Packed(s: Text): Result<seq<byte>, PtpError> {
    var units := Utf16(s);
    if s == [] then Ok([0])
    else if |units| > MAX_STRING_UNITS then Err(StringTooLong(|units|))
    else
      var len: byte := |units| + 1; Ok([len] + UnitBytes(units + [0]))
  }

  /** What a buffer starts with, read as a PTP string: the text and the bytes it took. */
  function Unpacked(buf: seq<byte>): Result<(Text, nat), PtpError> {
    if buf == [] then Err(InvalidData)
    else if buf[0] == 0 then Ok(([], 1))
    else
      var len: int := buf[0];
      if |buf| < StringSize(len) then Err(InvalidData)
      else
        var us: seq<u16> := BeforeNul(Units(buf[1..StringSize(len)]));
        Ok((DecodeLossy(us), StringSize(len)))
  }

  method PackString(s: Text) returns (r: Result<seq<byte>, PtpError>)
    ensures r == Packed(s)
  {
    if |s| == 0 {
      return Ok([0x00]);
    }
    var utf16 := Utf16(s);
    if |utf16| > MAX_STRING_UNITS {
      return Err(StringTooLong(|utf16|));
    }
    var len: byte := |utf16| + 1;
    var result: seq<byte> := [len];
    for i := 0 to |utf16|
      invariant result == [len] + UnitBytes(utf16[..i])
    {
      UnitBytesAppend(utf16[..i], utf16[i]);
      assert utf16[..i + 1] == utf16[..i] + [utf16[i]];
      result := result + PackU16(utf16[i]);
    }
    assert utf16[..|utf16|] == utf16;
    UnitBytesAppend(utf16, 0);
    result := result + [0x00, 0x00];
    assert result == [len] + (UnitBytes(utf16) + PackU16(0));
    return Ok(result);
  }

  method UnpackString(buf: seq<byte>) returns (r: Result<(Text, nat), PtpError>)
    ensures r == Unpacked(buf)
  {
    hide Units, DecodeLossy, BeforeNul;
    if |buf| == 0 {
      return Err(InvalidData);
    }
    var len: int := buf[0];
    if len == 0 {
      return Ok(([], 1));
    }
    var required := 1 + len * 2;
    if |buf| < required {
      return Err(InvalidData);
    }
    var codeUnits: seq<u16> := [];
    ghost var units := Units(buf[1..required]);
    var i := 0;
    while i < len
      invariant 0 <= i <= len
      invariant codeUnits == units[..i] && 0 !in codeUnits
    {
      UnitAt(buf[1..required], i);
      var offset := 1 + i * 2;
      var codeUnit := Le16(buf[offset], buf[offset + 1]);
      if codeUnit == 0 {
        break;
      }
      codeUnits := codeUnits + [codeUnit];
      i := i + 1;
    }
    assert codeUnits == BeforeNul(units) by { FirstNul(units, i); }
    return Ok((DecodeLossy(codeUnits), required));
  }

  /** A NUL-free prefix that stops at the end or at a NUL is what comes before the first NUL. */
  lemma {:induction false} FirstNul(s: seq<int>, i: nat)
    requires i <= |s| && 0 !in s[..i] && (i < |s| ==> s[i] == 0)
    ensures BeforeNul(s) == s[..i]
  {
  }

  /** On the wire: nothing but a 0 for no text; else a count, the text's units, and a NUL. Longer ones are refused. */
  lemma {:induction false} PackedIsWire(s: Text)
    ensures |Utf16(s)| > 254 ==> Packed(s) == Err(StringTooLong(|Utf16(s)|))
    ensures s == [] ==> Packed(s) == Ok([0])
    ensures s != [] && |Utf16(s)| <= 254 ==>
              && Packed(s).Ok? && |Packed(s).value| == 3 + 2 * |Utf16(s)|
              && Packed(s).value[0] == |Utf16(s)| + 1 && Units(Packed(s).value[1..]) == Utf16(s) + [0]
  {
    if s != [] && |Utf16(s)| <= 254 {
      UnitsInvertBytes(Utf16(s) + [0]);
      assert Packed(s).value[1..] == UnitBytes(Utf16(s) + [0]);
    }
  }

  /**
   Packing then unpacking returns the text before its first NUL and consumes exactly what was
   packed, whatever follows in the buffer; so it returns the text itself exactly when NUL-free.
   */
  lemma {:induction false} StringRoundTrip(s: Text, rest: seq<byte>)
    requires |Utf16(s)| <= MAX_STRING_UNITS
    ensures Packed(s).Ok?
    ensures Unpacked(Packed(s).value + rest) == Ok((BeforeNul(s), |Packed(s).value|))
    ensures (Unpacked(Packed(s).value + rest).value.0 == s) <==> 0 !in s
  {
    hide UnitBytes, Units, DecodeLossy;
    if s != [] {
      var us := Utf16(s);
      var buf := Packed(s).value + rest;
      assert buf[1..StringSize(buf[0])] == UnitBytes(us + [0]);
      UnitsInvertBytes(us + [0]);
      assert BeforeNul(us + [0]) == BeforeNul(us) by { FirstNul(us + [0], |BeforeNul(us)|); }
      NulSurvivesEncoding(s);
      DecodeInvertsEncode(BeforeNul(s));
    }
  }

  /**
   A string decoded from any buffer holds no NUL, has as many UTF-16 units as came before the
   first NUL on the wire (a lone surrogate counts one), and packs and unpacks to itself, unless it
   is the one shape the wire allows and packing refuses: 255 units with no terminator.
   */
  lemma {:induction false} DecodedStringsAreStable(buf: seq<byte>, rest: seq<byte>)
    requires Unpacked(buf).Ok?
    ensures buf != [] && StringSize(buf[0]) <= |buf|
    ensures var (s, consumed) := Unpacked(buf).value;
            var units := Units(buf[1..consumed]);
            && consumed == StringSize(buf[0])
            && 0 !in s
            && |Utf16(s)| == |BeforeNul(units)|
            && (Packed(s).Err? <==> |units| == 255 && 0 !in units)
            && (Packed(s).Ok? ==> Unpacked(Packed(s).value + rest) == Ok((s, |Packed(s).value|)))
  {
    var (s, consumed) := Unpacked(buf).value;
    DecodeKeepsUnits(BeforeNul(Units(buf[1..consumed])));
    if Packed(s).Ok? {
      StringRoundTrip(s, rest);
    }
  }

  /** The one shape can happen: 255 units and no NUL unpack, and don't pack again. */
  lemma {:induction false} UnterminatedExample(unit: byte)
    requires unit != 0
    ensures var buf := [255] + seq(510, _ => unit);
            Unpacked(buf).Ok? && Packed(Unpacked(buf).value.0) == Err(StringTooLong(255))
  {
    hide Units, DecodeLossy, Utf16, UnitBytes;
    var buf: seq<byte> := [255] + seq(510, _ => unit);
    var body := buf[1..StringSize(255)];
    forall i | 0 <= i < 255 ensures Units(body)[i] != 0 {
      UnitAt(body, i);
    }
    DecodedStringsAreStable(buf, []);
  }
}
