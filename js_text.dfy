/** JavaScript strings as sequences of UTF-16 code units, with the few
    character classes the codec needs. */
module JsText {

  /** One UTF-16 code unit; a JavaScript string is a sequence of them and may
      hold unpaired surrogates. */
  type CodeUnit = x: int | 0 <= x < 0x1_0000

  type Str = seq<CodeUnit>

  type Byte = x: int | 0 <= x < 0x100

  predicate IsHighSurrogate(c: int) { 0xD800 <= c <= 0xDBFF }

  predicate IsLowSurrogate(c: int) { 0xDC00 <= c <= 0xDFFF }

  predicate IsSurrogate(c: int) { 0xD800 <= c <= 0xDFFF }

  /** A Unicode scalar value: a code point that is not a surrogate. */
  predicate IsScalar(cp: int) { 0 <= cp <= 0x10_FFFF && !IsSurrogate(cp) }

  /** No unpaired surrogate: every high surrogate is followed by a low one and
      every low surrogate follows a high one. */
  predicate WellFormed(s: Str)
    decreases |s|
  {
    if s == [] then true
    else if IsHighSurrogate(s[0]) then |s| >= 2 && IsLowSurrogate(s[1]) && WellFormed(s[2..])
    else if IsLowSurrogate(s[0]) then false
    else WellFormed(s[1..])
  }

  lemma {:induction false} WellFormedConcat(a: Str, b: Str)
    requires WellFormed(a) && WellFormed(b)
    ensures WellFormed(a + b)
    decreases |a|
  {
    if a == [] {
      assert a + b == b;
    } else if IsHighSurrogate(a[0]) {
      assert (a + b)[2..] == a[2..] + b;
      WellFormedConcat(a[2..], b);
    } else {
      assert (a + b)[1..] == a[1..] + b;
      WellFormedConcat(a[1..], b);
    }
  }

  /** The code point a surrogate pair stands for. */
  function PairCodePoint(hi: int, lo: int): (cp: int)
    requires IsHighSurrogate(hi) && IsLowSurrogate(lo)
    ensures 0x1_0000 <= cp <= 0x10_FFFF
  {
    0x1_0000 + (hi - 0xD800) * 0x400 + (lo - 0xDC00)
  }

  /** UTF16EncodeCodePoint: one code unit below U+10000, a surrogate pair
      above. */
  function EncodeCodePoint(cp: int): (r: Str)
    requires IsScalar(cp)
    ensures WellFormed(r)
    ensures cp < 0x1_0000 ==> r == [cp]
    ensures cp >= 0x1_0000 ==> |r| == 2 && IsHighSurrogate(r[0]) && IsLowSurrogate(r[1])
                               && PairCodePoint(r[0], r[1]) == cp
  {
    if cp < 0x1_0000 then [cp]
    else
      var hi := 0xD800 + (cp - 0x1_0000) / 0x400;
      var lo := 0xDC00 + (cp - 0x1_0000) % 0x400;
      assert [hi, lo][2..] == [];
      [hi, lo]
  }

  lemma {:induction false} PairRoundTrip(hi: int, lo: int)
    requires IsHighSurrogate(hi) && IsLowSurrogate(lo)
    ensures EncodeCodePoint(PairCodePoint(hi, lo)) == [hi, lo]
  {
    var v := (hi - 0xD800) * 0x400 + (lo - 0xDC00);
    assert v / 0x400 == hi - 0xD800 && v % 0x400 == lo - 0xDC00;
  }

  /** The UTF-16 form of a Dafny string (a sequence of scalar values), used for
      the source's string literals. */
  function Utf16(s: string): (r: Str)
    ensures WellFormed(r) && |r| >= |s|
    ensures (forall i | 0 <= i < |s| :: s[i] < '\U{10000}') ==> |r| == |s|
  {
    if s == [] then []
    else
      var head := EncodeCodePoint(s[0] as int);
      WellFormedConcat(head, Utf16(s[1..]));
      head + Utf16(s[1..])
  }

  /** An ASCII literal, one code unit per character. */
  function Ascii(s: string): (r: Str)
    requires forall i | 0 <= i < |s| :: s[i] < '\U{80}'
    ensures |r| == |s| && IsAscii(r)
    ensures forall i | 0 <= i < |s| :: r[i] == s[i] as int
  {
    seq(|s|, i requires 0 <= i < |s| => s[i] as int)
  }

  predicate IsAscii(s: Str) { forall i | 0 <= i < |s| :: s[i] < 0x80 }

  /** The code unit c does not occur in s. */
  predicate Absent(s: Str, c: int) { forall i | 0 <= i < |s| :: s[i] != c }

  predicate IsAsciiDigit(c: int) { '0' as int <= c <= '9' as int }

  predicate IsAsciiUpper(c: int) { 'A' as int <= c <= 'Z' as int }

  predicate IsAsciiLower(c: int) { 'a' as int <= c <= 'z' as int }

  predicate IsAsciiAlphanumeric(c: int) { IsAsciiDigit(c) || IsAsciiUpper(c) || IsAsciiLower(c) }

  predicate IsHexDigit(c: int)
  {
    IsAsciiDigit(c) || 'A' as int <= c <= 'F' as int || 'a' as int <= c <= 'f' as int
  }

  function HexValue(c: int): (v: nat)
    requires IsHexDigit(c)
    ensures v < 16
  {
    if IsAsciiDigit(c) then c - '0' as int
    else if c <= 'F' as int then c - 'A' as int + 10
    else c - 'a' as int + 10
  }

  /** The upper-case hex digit for 0..15, as encodeURIComponent writes it. */
  function UpperHexDigit(v: int): (c: CodeUnit)
    requires 0 <= v < 16
    ensures IsHexDigit(c) && HexValue(c) == v && !IsAsciiLower(c)
  {
    if v < 10 then '0' as int + v else 'A' as int + v - 10
  }

  /** The lower-case hex digit for 0..15, as JSON.stringify writes it. */
  function LowerHexDigit(v: int): (c: CodeUnit)
    requires 0 <= v < 16
    ensures IsHexDigit(c) && HexValue(c) == v && !IsAsciiUpper(c)
  {
    if v < 10 then '0' as int + v else 'a' as int + v - 10
  }

  lemma {:induction false} AsciiWellFormed(s: Str)
    requires IsAscii(s)
    ensures WellFormed(s)
    decreases |s|
  {
    if s != [] {
      AsciiWellFormed(s[1..]);
    }
  }

  /** Concatenation is associative; a step the solver does not always take
      on its own inside long chains of concatenations. */
  lemma {:induction false} Assoc(a: Str, b: Str, c: Str)
    ensures (a + b) + c == a + (b + c)
  {
  }
}
