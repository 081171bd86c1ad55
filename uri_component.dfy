/** encodeURIComponent and decodeURIComponent (section 19.2.6 of ECMA-262):
    UTF-8 (RFC 3629) and %XX escapes (section 2.1 of RFC 3986). */
module UriComponent {
  import opened Wrappers
  import opened JsText

  const PERCENT: CodeUnit := 0x25

  /** The characters encodeURIComponent leaves as they are: ASCII letters and
      digits and - _ . ! ~ * ' ( ). */
  predicate IsUnreserved(c: int)
  {
    IsAsciiAlphanumeric(c)
    || c in {'-' as int, '_' as int, '.' as int, '!' as int, '~' as int, '*' as int, '\'' as int,
             '(' as int, ')' as int}
  }

  /** Every code unit is unreserved or a percent sign: pure ASCII, so btoa
      accepts it. */
  predicate IsUriSafe(s: Str)
  {
    forall i | 0 <= i < |s| :: IsUnreserved(s[i]) || s[i] == PERCENT
  }

  lemma {:induction false} UriSafeAscii(s: Str)
    requires IsUriSafe(s)
    ensures IsAscii(s)
  {
  }

  // ---------------------------------------------------------------------------
  // UTF-8

  /** The UTF-8 octets of a scalar value (RFC 3629, section 3). */
  function Utf8Encode(cp: int): (r: seq<Byte>)
    requires IsScalar(cp)
    ensures 1 <= |r| <= 4
  {
    if cp < 0x80 then [cp]
    else if cp < 0x800 then [0xC0 + cp / 0x40, 0x80 + cp % 0x40]
    else if cp < 0x1_0000 then [0xE0 + cp / 0x1000, 0x80 + cp / 0x40 % 0x40, 0x80 + cp % 0x40]
    else [0xF0 + cp / 0x4_0000, 0x80 + cp / 0x1000 % 0x40, 0x80 + cp / 0x40 % 0x40, 0x80 + cp % 0x40]
  }

  /** The number of leading 1 bits of an octet. */
  function LeadingOnes(b: Byte): nat
  {
    if b < 0x80 then 0
    else if b < 0xC0 then 1
    else if b < 0xE0 then 2
    else if b < 0xF0 then 3
    else if b < 0xF8 then 4
    else if b < 0xFC then 5
    else if b < 0xFE then 6
    else if b < 0xFF then 7
    else 8
  }

  predicate IsContinuation(b: int) { 0x80 <= b <= 0xBF }

  /** Octets that are the UTF-8 encoding of one code point of two to four
      octets: no overlong form, no surrogate, nothing above U+10FFFF (the
      table of RFC 3629, section 4). */
  predicate IsValidMultiByte(o: seq<Byte>)
  {
    if |o| == 2 then 0xC2 <= o[0] <= 0xDF && IsContinuation(o[1])
    else if |o| == 3 then
      && (|| (o[0] == 0xE0 && 0xA0 <= o[1] <= 0xBF)
          || (0xE1 <= o[0] <= 0xEC && IsContinuation(o[1]))
          || (o[0] == 0xED && 0x80 <= o[1] <= 0x9F)
          || (0xEE <= o[0] <= 0xEF && IsContinuation(o[1])))
      && IsContinuation(o[2])
    else if |o| == 4 then
      && (|| (o[0] == 0xF0 && 0x90 <= o[1] <= 0xBF)
          || (0xF1 <= o[0] <= 0xF3 && IsContinuation(o[1]))
          || (o[0] == 0xF4 && 0x80 <= o[1] <= 0x8F))
      && IsContinuation(o[2]) && IsContinuation(o[3])
    else false
  }

  /** The code point a multi-byte UTF-8 sequence stands for. */
  function Utf8Value(o: seq<Byte>): int
    requires 2 <= |o| <= 4
  {
    if |o| == 2 then (o[0] as int - 0xC0) * 0x40 + (o[1] as int - 0x80)
    else if |o| == 3 then (o[0] as int - 0xE0) * 0x1000 + (o[1] as int - 0x80) * 0x40 + (o[2] as int - 0x80)
    else (o[0] as int - 0xF0) * 0x4_0000 + (o[1] as int - 0x80) * 0x1000 + (o[2] as int - 0x80) * 0x40 + (o[3] as int - 0x80)
  }

  lemma {:induction false} TwoByteIsEncoding(x0: int, x1: int)
    requires 0 <= x0 < 0x20 && 0 <= x1 < 0x40
    ensures var cp := x0 * 0x40 + x1; cp / 0x40 == x0 && cp % 0x40 == x1
  {
  }

  lemma {:induction false} ThreeByteIsEncoding(x0: int, x1: int, x2: int)
    requires 0 <= x0 < 0x10 && 0 <= x1 < 0x40 && 0 <= x2 < 0x40
    ensures var cp := x0 * 0x1000 + x1 * 0x40 + x2;
            cp / 0x1000 == x0 && cp / 0x40 % 0x40 == x1 && cp % 0x40 == x2
  {
    var cp := x0 * 0x1000 + x1 * 0x40 + x2;
    assert cp == (x0 * 0x40 + x1) * 0x40 + x2;
    assert cp / 0x40 == x0 * 0x40 + x1;
  }

  lemma {:induction false} FourByteIsEncoding(x0: int, x1: int, x2: int, x3: int)
    requires 0 <= x0 < 0x8 && 0 <= x1 < 0x40 && 0 <= x2 < 0x40 && 0 <= x3 < 0x40
    ensures var cp := x0 * 0x4_0000 + x1 * 0x1000 + x2 * 0x40 + x3;
            cp / 0x4_0000 == x0 && cp / 0x1000 % 0x40 == x1 && cp / 0x40 % 0x40 == x2 && cp % 0x40 == x3
  {
    var cp := x0 * 0x4_0000 + x1 * 0x1000 + x2 * 0x40 + x3;
    var q := x0 * 0x1000 + x1 * 0x40 + x2;
    assert cp == q * 0x40 + x3;
    assert cp / 0x40 == q;
    ThreeByteIsEncoding(x0, x1, x2);
    assert cp / 0x1000 == x0 * 0x40 + x1;
  }

  /** The valid multi-byte sequences are exactly the encodings of the scalar
      values from U+0080 up: each decodes to a scalar value that encodes back
      to it ... */
  lemma {:induction false} ValidMultiByteIsEncoding(o: seq<Byte>)
    requires IsValidMultiByte(o)
    ensures IsScalar(Utf8Value(o)) && Utf8Value(o) >= 0x80 && Utf8Encode(Utf8Value(o)) == o
  {
    if |o| == 2 {
      ValidTwoBytes(o);
    } else if |o| == 3 {
      ValidThreeBytes(o);
    } else {
      ValidFourBytes(o);
    }
  }

  lemma {:induction false} ValidTwoBytes(o: seq<Byte>)
    requires |o| == 2 && IsValidMultiByte(o)
    ensures IsScalar(Utf8Value(o)) && Utf8Value(o) >= 0x80 && Utf8Encode(Utf8Value(o)) == o
  {
    var x0: int, x1: int := o[0] - 0xC0, o[1] - 0x80;
    TwoByteIsEncoding(x0, x1);
    var cp := Utf8Value(o);
    assert cp == x0 * 0x40 + x1;
    assert 0x80 <= cp < 0x800;
    assert |Utf8Encode(cp)| == 2 && Utf8Encode(cp)[0] == o[0] && Utf8Encode(cp)[1] == o[1];
    assert Utf8Encode(cp) == o;
  }

  lemma {:induction false} ValidThreeBytes(o: seq<Byte>)
    requires |o| == 3 && IsValidMultiByte(o)
    ensures IsScalar(Utf8Value(o)) && Utf8Value(o) >= 0x80 && Utf8Encode(Utf8Value(o)) == o
  {
    var x0: int, x1: int, x2: int := o[0] - 0xE0, o[1] - 0x80, o[2] - 0x80;
    ThreeByteIsEncoding(x0, x1, x2);
    var cp := Utf8Value(o);
    assert cp == x0 * 0x1000 + x1 * 0x40 + x2;
    assert 0x800 <= cp < 0x1_0000;
    assert !IsSurrogate(cp);
    var e := Utf8Encode(cp);
    assert |e| == 3 && e[0] == o[0] && e[1] == o[1] && e[2] == o[2];
    assert e == o;
  }

  lemma {:induction false} ValidFourBytes(o: seq<Byte>)
    requires |o| == 4 && IsValidMultiByte(o)
    ensures IsScalar(Utf8Value(o)) && Utf8Value(o) >= 0x80 && Utf8Encode(Utf8Value(o)) == o
  {
    var x0: int, x1: int, x2: int, x3: int := o[0] - 0xF0, o[1] - 0x80, o[2] - 0x80, o[3] - 0x80;
    FourByteIsEncoding(x0, x1, x2, x3);
    var cp := Utf8Value(o);
    assert cp == x0 * 0x4_0000 + x1 * 0x1000 + x2 * 0x40 + x3;
    assert 0x1_0000 <= cp <= 0x10_FFFF;
    var e := Utf8Encode(cp);
    assert |e| == 4 && e[0] == o[0] && e[1] == o[1] && e[2] == o[2] && e[3] == o[3];
    assert e == o;
  }

  /** ... and every such encoding is valid, announces its length in its
      first octet and decodes back. */
  lemma {:induction false} EncodingIsValidMultiByte(cp: int)
    requires IsScalar(cp) && cp >= 0x80
    ensures var o := Utf8Encode(cp);
            |o| >= 2 && LeadingOnes(o[0]) == |o| && IsValidMultiByte(o) && Utf8Value(o) == cp
  {
    if cp < 0x800 {
      assert cp == cp / 0x40 * 0x40 + cp % 0x40;
    } else if cp < 0x1_0000 {
      var q := cp / 0x40;
      assert cp == q * 0x40 + cp % 0x40;
      assert q == q / 0x40 * 0x40 + q % 0x40;
      assert q / 0x40 == cp / 0x1000;
    } else {
      var q := cp / 0x40;
      var q2 := q / 0x40;
      assert cp == q * 0x40 + cp % 0x40;
      assert q == q2 * 0x40 + q % 0x40;
      assert q2 == q2 / 0x40 * 0x40 + q2 % 0x40;
      assert q2 == cp / 0x1000 && q2 / 0x40 == cp / 0x4_0000;
    }
  }

  // ---------------------------------------------------------------------------
  // Encoding

  function PercentByte(b: Byte): Str
  {
    [PERCENT, UpperHexDigit(b / 16), UpperHexDigit(b % 16)]
  }

  function PercentEncode(bs: seq<Byte>): (r: Str)
    ensures |r| == 3 * |bs| && IsUriSafe(r)
    decreases |bs|
  {
    if bs == [] then [] else PercentByte(bs[0]) + PercentEncode(bs[1..])
  }

  function Prepend(prefix: Str, r: Result<Str>): (r': Result<Str>)
    ensures r'.Ok? <==> r.Ok?
  {
    match r
    case Err(e) => Err(e)
    case Ok(v) => Ok(prefix + v)
  }

  /** encodeURIComponent: unreserved code units are kept, every other code
      point is written as the %XX escapes of its UTF-8 octets, and an unpaired
      surrogate throws URIError. It succeeds exactly on well-formed strings,
      and then its result is pure ASCII. */
  function Encode(s: Str): (r: Result<Str>)
    ensures r.Ok? <==> WellFormed(s)
    ensures r.Ok? ==> IsUriSafe(r.value) && |r.value| >= |s|
    decreases |s|
  {
    if s == [] then Ok([])
    else if IsUnreserved(s[0]) then Prepend([s[0]], Encode(s[1..]))
    else if IsLowSurrogate(s[0]) then Err(UriError)
    else if IsHighSurrogate(s[0]) then
      if |s| >= 2 && IsLowSurrogate(s[1]) then
        Prepend(PercentEncode(Utf8Encode(PairCodePoint(s[0], s[1]))), Encode(s[2..]))
      else Err(UriError)
    else Prepend(PercentEncode(Utf8Encode(s[0])), Encode(s[1..]))
  }

  // ---------------------------------------------------------------------------
  // Decoding

  /** ParseHexOctet: the octet that two hex digits spell. */
  function HexOctet(hi: CodeUnit, lo: CodeUnit): Byte
    requires IsHexDigit(hi) && IsHexDigit(lo)
  {
    HexValue(hi) * 16 + HexValue(lo)
  }

  /** The `count` octets of the escapes %XX that must follow a lead octet. */
  function ContinuationOctets(s: Str, count: nat): (r: Result<seq<Byte>>)
    ensures r.Ok? ==> |r.value| == count && 3 * count <= |s|
    decreases count
  {
    if count == 0 then Ok([])
    else if |s| < 3 || s[0] != PERCENT || !IsHexDigit(s[1]) || !IsHexDigit(s[2]) then Err(UriError)
    else
      match ContinuationOctets(s[3..], count - 1)
      case Err(e) => Err(e)
      case Ok(os) => Ok([HexOctet(s[1], s[2])] + os)
  }

  /** decodeURIComponent: Decode with an empty set of escapes to keep. A
      malformed escape, a lone continuation octet, a lead octet of five or
      more bits, too few continuation escapes or octets that are not the
      UTF-8 encoding of a scalar value throw URIError. */
  function Decode(s: Str): (r: Result<Str>)
    decreases |s|
  {
    if s == [] then Ok([])
    else if s[0] != PERCENT then Prepend([s[0]], Decode(s[1..]))
    else if |s| < 3 || !IsHexDigit(s[1]) || !IsHexDigit(s[2]) then Err(UriError)
    else
      var b := HexOctet(s[1], s[2]);
      var n := LeadingOnes(b);
      if n == 0 then Prepend([b], Decode(s[3..]))
      else if n == 1 || n > 4 then Err(UriError)
      else
        match ContinuationOctets(s[3..], n - 1)
        case Err(e) => Err(e)
        case Ok(more) =>
          var octets := [b] + more;
          if !IsValidMultiByte(octets) then Err(UriError)
          else
            ValidMultiByteIsEncoding(octets);
            Prepend(EncodeCodePoint(Utf8Value(octets)), Decode(s[3 * n..]))
  }

  // ---------------------------------------------------------------------------
  // Round trip

  lemma {:induction false} HexOctetOfDigits(b: Byte)
    ensures HexOctet(UpperHexDigit(b / 16), UpperHexDigit(b % 16)) == b
  {
  }

  /** The escape of one octet, read back from the front of a text. */
  lemma {:induction false} PercentHead(b: Byte, rest: Str)
    ensures var s := PercentByte(b) + rest;
            && |s| >= 3 && s[0] == PERCENT && IsHexDigit(s[1]) && IsHexDigit(s[2])
            && HexOctet(s[1], s[2]) == b && s[3..] == rest
  {
    var s := PercentByte(b) + rest;
    assert s[..3] == PercentByte(b);
    HexOctetOfDigits(b);
  }

  lemma {:induction false} ContinuationOfPercent(bs: seq<Byte>, tail: Str)
    ensures ContinuationOctets(PercentEncode(bs) + tail, |bs|) == Ok(bs)
    decreases |bs|
  {
    if bs != [] {
      var b, more := bs[0], bs[1..];
      var rest := PercentEncode(more) + tail;
      PercentEncodeCons(bs, tail);
      PercentHead(b, rest);
      ContinuationOfPercent(more, tail);
      ContinuationCons(PercentByte(b) + rest, |bs|, b, more);
      assert [b] + more == bs;
    }
  }

  lemma {:induction false} PercentEncodeCons(bs: seq<Byte>, tail: Str)
    requires bs != []
    ensures PercentEncode(bs) + tail == PercentByte(bs[0]) + (PercentEncode(bs[1..]) + tail)
  {
    Assoc(PercentByte(bs[0]), PercentEncode(bs[1..]), tail);
  }

  /** One more escape in front of the continuation octets. */
  lemma {:induction false} ContinuationCons(s: Str, count: nat, b: Byte, more: seq<Byte>)
    requires count > 0 && |s| >= 3 && s[0] == PERCENT && IsHexDigit(s[1]) && IsHexDigit(s[2])
    requires HexOctet(s[1], s[2]) == b && ContinuationOctets(s[3..], count - 1) == Ok(more)
    ensures ContinuationOctets(s, count) == Ok([b] + more)
  {
  }

  /** Decoding the escapes of one encoded code point yields its UTF-16 form. */
  lemma {:induction false} DecodeCodePoint(cp: int, tail: Str)
    requires IsScalar(cp)
    ensures Decode(PercentEncode(Utf8Encode(cp)) + tail) == Prepend(EncodeCodePoint(cp), Decode(tail))
  {
    if cp < 0x80 {
      DecodeSingleOctet(cp, tail);
    } else {
      DecodeMultiOctet(cp, tail);
    }
  }

  lemma {:induction false} DecodeSingleOctet(cp: int, tail: Str)
    requires IsScalar(cp) && cp < 0x80
    ensures Decode(PercentEncode(Utf8Encode(cp)) + tail) == Prepend(EncodeCodePoint(cp), Decode(tail))
  {
    var s := PercentEncode(Utf8Encode(cp)) + tail;
    assert Utf8Encode(cp) == [cp];
    assert s == PercentByte(cp) + tail;
    PercentHead(cp, tail);
    assert LeadingOnes(cp) == 0;
  }

  lemma {:induction false} DecodeMultiOctet(cp: int, tail: Str)
    requires IsScalar(cp) && cp >= 0x80
    ensures Decode(PercentEncode(Utf8Encode(cp)) + tail) == Prepend(EncodeCodePoint(cp), Decode(tail))
  {
    var o := Utf8Encode(cp);
    EncodingIsValidMultiByte(cp);
    MultiOctetShape(o, tail);
    OctetsSplit(o);
    DecodeMultiStep(PercentEncode(o) + tail, o[0], o[1..]);
  }

  lemma {:induction false} OctetsSplit(o: seq<Byte>)
    requires o != []
    ensures [o[0]] + o[1..] == o
  {
  }

  /** The escapes of a sequence of octets, followed by more text: the escape
      of the first octet, then the escapes of the others, then that text. */
  lemma {:induction false} MultiOctetShape(o: seq<Byte>, tail: Str)
    requires o != []
    ensures var s := PercentEncode(o) + tail;
            && |s| >= 3 && s[0] == PERCENT && IsHexDigit(s[1]) && IsHexDigit(s[2])
            && HexOctet(s[1], s[2]) == o[0]
            && ContinuationOctets(s[3..], |o| - 1) == Ok(o[1..])
            && s[3 * |o|..] == tail
  {
    var rest := PercentEncode(o[1..]) + tail;
    PercentEncodeCons(o, tail);
    PercentHead(o[0], rest);
    ContinuationOfPercent(o[1..], tail);
    PercentEncodeLength(o, tail);
  }

  lemma {:induction false} PercentEncodeLength(o: seq<Byte>, tail: Str)
    ensures (PercentEncode(o) + tail)[3 * |o|..] == tail
  {
  }

  /** A lead escape, its continuation escapes and the octets they spell. */
  lemma {:induction false} DecodeMultiStep(s: Str, b: Byte, more: seq<Byte>)
    requires |s| >= 3 && s[0] == PERCENT && IsHexDigit(s[1]) && IsHexDigit(s[2])
    requires HexOctet(s[1], s[2]) == b && 2 <= LeadingOnes(b) <= 4
    requires ContinuationOctets(s[3..], LeadingOnes(b) - 1) == Ok(more)
    requires IsValidMultiByte([b] + more)
    ensures 3 * LeadingOnes(b) <= |s| && IsScalar(Utf8Value([b] + more))
    ensures Decode(s) == Prepend(EncodeCodePoint(Utf8Value([b] + more)), Decode(s[3 * LeadingOnes(b)..]))
  {
    ValidMultiByteIsEncoding([b] + more);
  }

  lemma {:induction false} DecodeUnreserved(c: CodeUnit, tail: Str)
    requires IsUnreserved(c)
    ensures Decode([c] + tail) == Prepend([c], Decode(tail))
  {
    assert ([c] + tail)[1..] == tail;
  }

  /** decodeURIComponent inverts encodeURIComponent on every string that
      encodeURIComponent accepts. */
  lemma {:induction false} DecodeEncode(s: Str)
    requires WellFormed(s)
    ensures Decode(Encode(s).value) == Ok(s)
    decreases |s|
  {
    if s != [] {
      var n := if IsHighSurrogate(s[0]) then 2 else 1;
      WellFormedHead(s);
      EncodeStep(s);
      DecodeEncode(s[n..]);
      DecodeHeadThen(s, Encode(s[n..]).value);
      assert s[..n] + s[n..] == s;
    }
  }

  /** Decoding the escapes of the first code point of a text gives back that
      code point. */
  lemma {:induction false} DecodeHeadThen(s: Str, t: Str)
    requires HeadValid(s)
    ensures var n := if IsHighSurrogate(s[0]) then 2 else 1;
            n <= |s| && Decode(EncodeHead(s) + t) == Prepend(s[..n], Decode(t))
  {
    if IsUnreserved(s[0]) {
      DecodeUnreserved(s[0], t);
      assert s[..1] == [s[0]];
    } else if IsHighSurrogate(s[0]) {
      DecodePairHead(s, t);
    } else {
      DecodeCodePoint(s[0], t);
      assert s[..1] == [s[0]];
    }
  }

  lemma {:induction false} DecodePairHead(s: Str, t: Str)
    requires HeadValid(s) && IsHighSurrogate(s[0])
    ensures Decode(EncodeHead(s) + t) == Prepend(s[..2], Decode(t))
  {
    DecodeCodePoint(PairCodePoint(s[0], s[1]), t);
    PairRoundTrip(s[0], s[1]);
    assert s[..2] == [s[0], s[1]];
  }

  // ---------------------------------------------------------------------------
  // Encoding piece by piece

  /** encodeURIComponent works code point by code point, so it distributes
      over a concatenation whose first part is well formed. */
  lemma {:induction false} EncodeConcat(a: Str, b: Str)
    requires WellFormed(a)
    ensures Encode(a + b) == Prepend(Encode(a).value, Encode(b))
    decreases |a|
  {
    if a == [] {
      assert a + b == b;
      if Encode(b).Ok? {
        assert [] + Encode(b).value == Encode(b).value;
      }
    } else {
      var n := if IsHighSurrogate(a[0]) then 2 else 1;
      WellFormedHead(a);
      HeadOfConcat(a, b);
      EncodeStep(a);
      EncodeStep(a + b);
      EncodeConcat(a[n..], b);
      PrependAssoc(EncodeHead(a), Encode(a[n..]).value, Encode(b));
    }
  }

  /** A non-empty well-formed text starts with a whole code point and goes on
      well formed. */
  lemma {:induction false} WellFormedHead(a: Str)
    requires WellFormed(a) && a != []
    ensures HeadValid(a)
    ensures WellFormed(a[if IsHighSurrogate(a[0]) then 2 else 1..])
  {
  }

  /** The first code point of a text is that of any text it starts. */
  lemma {:induction false} HeadOfConcat(a: Str, b: Str)
    requires HeadValid(a)
    ensures HeadValid(a + b) && EncodeHead(a + b) == EncodeHead(a)
    ensures var n := if IsHighSurrogate(a[0]) then 2 else 1;
            n <= |a| && (a + b)[n..] == a[n..] + b
  {
    assert (a + b)[0] == a[0];
    if IsHighSurrogate(a[0]) {
      assert (a + b)[1] == a[1];
    }
  }

  /** The escapes of the first code point of a well-formed text. */
  function EncodeHead(s: Str): Str
    requires HeadValid(s)
  {
    if IsUnreserved(s[0]) then [s[0]]
    else if IsHighSurrogate(s[0]) then PercentEncode(Utf8Encode(PairCodePoint(s[0], s[1])))
    else PercentEncode(Utf8Encode(s[0]))
  }

  /** The text starts with a whole code point. */
  predicate HeadValid(s: Str)
  {
    && s != [] && !IsLowSurrogate(s[0])
    && (IsHighSurrogate(s[0]) ==> |s| >= 2 && IsLowSurrogate(s[1]))
  }

  lemma {:induction false} EncodeStep(s: Str)
    requires HeadValid(s)
    ensures var n := if IsHighSurrogate(s[0]) then 2 else 1;
            n <= |s| && Encode(s) == Prepend(EncodeHead(s), Encode(s[n..]))
  {
    if IsUnreserved(s[0]) {
      assert Encode(s) == Prepend([s[0]], Encode(s[1..]));
    } else if IsHighSurrogate(s[0]) {
      assert Encode(s) == Prepend(EncodeHead(s), Encode(s[2..]));
    } else {
      assert Encode(s) == Prepend(EncodeHead(s), Encode(s[1..]));
    }
  }

  lemma {:induction false} PrependAssoc(h: Str, m: Str, r: Result<Str>)
    ensures Prepend(h, Prepend(m, r)) == Prepend(h + m, r)
  {
    if r.Ok? {
      assert h + (m + r.value) == (h + m) + r.value;
    }
  }

  /** Text made only of unreserved characters is left as it is. */
  lemma {:induction false} EncodeUnreserved(s: Str)
    requires forall i | 0 <= i < |s| :: IsUnreserved(s[i])
    ensures Encode(s) == Ok(s)
    decreases |s|
  {
    if s != [] {
      EncodeUnreserved(s[1..]);
      assert [s[0]] + s[1..] == s;
    }
  }

  /** ASCII text with no unreserved character triples in length. */
  lemma {:induction false} EncodeEscaped(s: Str)
    requires forall i | 0 <= i < |s| :: s[i] < 0x80 && !IsUnreserved(s[i])
    ensures Encode(s).Ok? && |Encode(s).value| == 3 * |s|
    decreases |s|
  {
    if s != [] {
      EncodeEscaped(s[1..]);
    }
  }

  /** A code unit that no %XX escape writes stays absent. */
  lemma {:induction false} EncodeAbsent(s: Str, c: int)
    requires WellFormed(s) && Absent(s, c)
    requires c != PERCENT && !IsHexDigit(c)
    ensures Absent(Encode(s).value, c)
    decreases |s|
  {
    if s == [] {
    } else if IsUnreserved(s[0]) {
      EncodeAbsent(s[1..], c);
    } else if IsHighSurrogate(s[0]) {
      EncodeAbsent(s[2..], c);
      PercentEncodeAbsent(Utf8Encode(PairCodePoint(s[0], s[1])), c);
    } else {
      EncodeAbsent(s[1..], c);
      PercentEncodeAbsent(Utf8Encode(s[0]), c);
    }
  }

  lemma {:induction false} PercentEncodeAbsent(bs: seq<Byte>, c: int)
    requires c != PERCENT && !IsHexDigit(c)
    ensures Absent(PercentEncode(bs), c)
    decreases |bs|
  {
    if bs != [] {
      PercentEncodeAbsent(bs[1..], c);
    }
  }
}
