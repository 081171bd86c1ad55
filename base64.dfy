/** btoa and atob: the base64 alphabet of section 4 of RFC 4648, with the
    forgiving-base64 decode of the HTML Standard (section 8.3, "forgiving-base64
    decode"), which ignores ASCII whitespace and accepts missing padding. */
module Base64 {
  import opened Wrappers
  import opened JsText

  const PAD: CodeUnit := '=' as int
  const PLUS: CodeUnit := '+' as int
  const SLASH: CodeUnit := '/' as int

  predicate IsAlphabet(c: int)
  {
    IsAsciiAlphanumeric(c) || c == PLUS || c == SLASH
  }

  /** ASCII whitespace of the Infra Standard: tab, line feed, form feed,
      carriage return and space. */
  predicate IsAsciiWhitespace(c: int)
  {
    c == 0x09 || c == 0x0A || c == 0x0C || c == 0x0D || c == 0x20
  }

  /** The character that encodes a 6-bit value. */
  function Sextet(v: int): (c: CodeUnit)
    requires 0 <= v < 64
    ensures IsAlphabet(c) && SextetValue(c) == v
  {
    if v < 26 then 'A' as int + v
    else if v < 52 then 'a' as int + (v - 26)
    else if v < 62 then '0' as int + (v - 52)
    else if v == 62 then PLUS
    else SLASH
  }

  /** The 6-bit value an alphabet character stands for (63 for `/` and for
      any other character, which atob rejects before decoding). */
  function SextetValue(c: CodeUnit): (v: nat)
    ensures v < 64
  {
    if IsAsciiUpper(c) then c - 'A' as int
    else if IsAsciiLower(c) then c - 'a' as int + 26
    else if IsAsciiDigit(c) then c - '0' as int + 52
    else if c == PLUS then 62
    else 63
  }

  lemma {:induction false} SextetOfValue(c: CodeUnit)
    requires IsAlphabet(c)
    ensures Sextet(SextetValue(c)) == c
  {
  }

  predicate AllAlphabet(s: Str)
  {
    forall i | 0 <= i < |s| :: IsAlphabet(s[i])
  }

  // ---------------------------------------------------------------------------
  // Encoding

  /** The characters of a group of up to three octets, without padding. */
  function EncodeGroups(bs: seq<Byte>): (r: Str)
    ensures |r| == (4 * |bs| + 2) / 3
    decreases |bs|
  {
    if |bs| == 0 then []
    else if |bs| == 1 then [Sextet(bs[0] / 4), Sextet(bs[0] % 4 * 16)]
    else if |bs| == 2 then
      [Sextet(bs[0] / 4), Sextet(bs[0] % 4 * 16 + bs[1] / 16), Sextet(bs[1] % 16 * 4)]
    else Group(bs[0], bs[1], bs[2]) + EncodeGroups(bs[3..])
  }

  /** Base64 characters are all from the alphabet. */
  lemma {:induction false} GroupsAlphabet(bs: seq<Byte>)
    ensures AllAlphabet(EncodeGroups(bs))
    decreases |bs|
  {
    if |bs| >= 3 {
      var t := bs[3..];
      assert |t| < |bs|;
      GroupsAlphabet(t);
      GroupsStep(bs);
    }
  }

  /** The four characters of a whole group of three octets. */
  function Group(b0: Byte, b1: Byte, b2: Byte): (r: Str)
    ensures |r| == 4 && AllAlphabet(r)
  {
    [Sextet(b0 / 4), Sextet(b0 % 4 * 16 + b1 / 16), Sextet(b1 % 16 * 4 + b2 / 64), Sextet(b2 % 64)]
  }

  /** The `=` characters that complete the last group. */
  function Padding(n: nat): (r: Str)
    ensures |r| == (3 - n % 3) % 3
  {
    if n % 3 == 1 then [PAD, PAD] else if n % 3 == 2 then [PAD] else []
  }

  /** Base64 of a sequence of octets, padded to a multiple of four characters. */
  function EncodeBytes(bs: seq<Byte>): (r: Str)
    ensures |r| % 4 == 0
  {
    PaddedLength(|bs|);
    EncodeGroups(bs) + Padding(|bs|)
  }

  lemma {:induction false} PaddedLength(n: nat)
    ensures ((4 * n + 2) / 3 + (3 - n % 3) % 3) % 4 == 0
  {
    var q := n / 3;
    assert n == 3 * q + n % 3;
    if n % 3 == 0 {
      assert (4 * n + 2) / 3 == 4 * q;
    } else if n % 3 == 1 {
      assert (4 * n + 2) / 3 == 4 * q + 2;
    } else {
      assert (4 * n + 2) / 3 == 4 * q + 3;
    }
  }

  /** btoa: a string whose code units are all at most 0xFF is read as octets
      and encoded; any other code unit throws InvalidCharacterError. */
  function Btoa(s: Str): (r: Result<Str>)
    ensures r.Ok? <==> forall i | 0 <= i < |s| :: s[i] <= 0xFF
  {
    if exists i | 0 <= i < |s| :: s[i] > 0xFF then Err(InvalidCharacterError)
    else Ok(EncodeBytes(s))
  }

  // ---------------------------------------------------------------------------
  // Decoding

  function RemoveAsciiWhitespace(s: Str): (r: Str)
    ensures |r| <= |s|
    decreases |s|
  {
    if s == [] then []
    else if IsAsciiWhitespace(s[0]) then RemoveAsciiWhitespace(s[1..])
    else [s[0]] + RemoveAsciiWhitespace(s[1..])
  }

  /** When the length is a multiple of four, one or two trailing `=` are
      dropped. */
  function StripPadding(s: Str): (r: Str)
  {
    if |s| % 4 == 0 && |s| >= 2 && s[|s| - 2] == PAD && s[|s| - 1] == PAD then s[..|s| - 2]
    else if |s| % 4 == 0 && |s| >= 1 && s[|s| - 1] == PAD then s[..|s| - 1]
    else s
  }

  /** The octets of alphabet characters, four characters to three octets; the
      bits left over by a final group of two or three characters are
      discarded. (A final lone character, which atob rejects before decoding,
      gives nothing.) */
  function DecodeSextets(s: Str): (r: seq<Byte>)
    decreases |s|
  {
    if |s| <= 1 then []
    else
      var v0 := SextetValue(s[0]);
      var v1 := SextetValue(s[1]);
      if |s| == 2 then [v0 * 4 + v1 / 16]
      else
        var v2 := SextetValue(s[2]);
        if |s| == 3 then [v0 * 4 + v1 / 16, v1 % 16 * 16 + v2 / 4]
        else
          var v3 := SextetValue(s[3]);
          [v0 * 4 + v1 / 16, v1 % 16 * 16 + v2 / 4, v2 % 4 * 64 + v3] + DecodeSextets(s[4..])
  }

  /** atob: whitespace is removed, padding is stripped, and a length of one
      more than a multiple of four or any character outside the alphabet
      throws InvalidCharacterError. */
  function Atob(s: Str): (r: Result<seq<Byte>>)
  {
    var d := StripPadding(RemoveAsciiWhitespace(s));
    if |d| % 4 == 1 then Err(InvalidCharacterError)
    else if !AllAlphabet(d) then Err(InvalidCharacterError)
    else Ok(DecodeSextets(d))
  }

  // ---------------------------------------------------------------------------
  // Round trip

  lemma {:induction false} GroupRoundTrip(b0: Byte, b1: Byte, b2: Byte)
    ensures (b0 / 4) * 4 + (b0 % 4 * 16 + b1 / 16) / 16 == b0
    ensures (b0 % 4 * 16 + b1 / 16) % 16 * 16 + (b1 % 16 * 4 + b2 / 64) / 4 == b1
    ensures (b1 % 16 * 4 + b2 / 64) % 4 * 64 + b2 % 64 == b2
  {
  }

  lemma {:induction false} DecodeEncodeGroups(bs: seq<Byte>)
    ensures DecodeSextets(EncodeGroups(bs)) == bs
    decreases |bs|
  {
    if |bs| == 0 {
    } else if |bs| <= 2 {
      DecodePartialGroup(bs);
    } else {
      var t := bs[3..];
      assert |t| < |bs|;
      DecodeEncodeGroups(t);
      DecodeStep(bs);
    }
  }

  /** The characters of a last group of one or two octets decode to them. */
  lemma {:induction false} DecodePartialGroup(bs: seq<Byte>)
    requires 1 <= |bs| <= 2
    ensures DecodeSextets(EncodeGroups(bs)) == bs
  {
    if |bs| == 1 {
      DecodeLastOne(bs);
    } else {
      DecodeLastTwo(bs);
    }
  }

  lemma {:induction false} DecodeLastOne(bs: seq<Byte>)
    requires |bs| == 1
    ensures DecodeSextets(EncodeGroups(bs)) == bs
  {
    var b0 := bs[0];
    assert bs == [b0];
    DecodeOne(b0);
  }

  lemma {:induction false} DecodeLastTwo(bs: seq<Byte>)
    requires |bs| == 2
    ensures DecodeSextets(EncodeGroups(bs)) == bs
  {
    var b0, b1 := bs[0], bs[1];
    assert bs == [b0, b1];
    DecodeTwo(b0, b1);
  }

  lemma {:induction false} DecodeOne(b0: Byte)
    ensures DecodeSextets(EncodeGroups([b0])) == [b0]
  {
    var s := EncodeGroups([b0]);
    assert s == [Sextet(b0 / 4), Sextet(b0 % 4 * 16)];
    assert SextetValue(s[0]) == b0 / 4 && SextetValue(s[1]) == b0 % 4 * 16;
  }

  lemma {:induction false} DecodeTwo(b0: Byte, b1: Byte)
    ensures DecodeSextets(EncodeGroups([b0, b1])) == [b0, b1]
  {
    var s := EncodeGroups([b0, b1]);
    var v0, v1, v2 := b0 / 4, b0 % 4 * 16 + b1 / 16, b1 % 16 * 4;
    assert s == [Sextet(v0), Sextet(v1), Sextet(v2)];
    assert SextetValue(s[0]) == v0 && SextetValue(s[1]) == v1 && SextetValue(s[2]) == v2;
    GroupRoundTrip(b0, b1, 0);
    assert DecodeSextets(s) == [v0 * 4 + v1 / 16, v1 % 16 * 16 + v2 / 4];
  }

  lemma {:induction false} DecodeStep(bs: seq<Byte>)
    requires |bs| >= 3 && DecodeSextets(EncodeGroups(bs[3..])) == bs[3..]
    ensures DecodeSextets(EncodeGroups(bs)) == bs
  {
    var t := bs[3..];
    GroupsStep(bs);
    DecodeGroupThen(bs[0], bs[1], bs[2], EncodeGroups(t));
    ThreeThen(bs);
  }

  lemma {:induction false} ThreeThen(bs: seq<Byte>)
    requires |bs| >= 3
    ensures [bs[0], bs[1], bs[2]] + bs[3..] == bs
  {
  }

  /** A whole group decodes to its three octets, whatever follows. */
  lemma {:induction false} DecodeGroupThen(b0: Byte, b1: Byte, b2: Byte, rest: Str)
    ensures DecodeSextets(Group(b0, b1, b2) + rest) == [b0, b1, b2] + DecodeSextets(rest)
  {
    var g := Group(b0, b1, b2);
    var s := g + rest;
    assert s[..4] == g && s[4..] == rest;
    GroupRoundTrip(b0, b1, b2);
  }

  lemma {:induction false} NoWhitespaceKept(s: Str)
    requires forall i | 0 <= i < |s| :: !IsAsciiWhitespace(s[i])
    ensures RemoveAsciiWhitespace(s) == s
    decreases |s|
  {
    if s != [] {
      NoWhitespaceKept(s[1..]);
      assert [s[0]] + s[1..] == s;
    }
  }

  lemma {:induction false} StripEncodedPadding(bs: seq<Byte>)
    ensures StripPadding(EncodeBytes(bs)) == EncodeGroups(bs)
  {
    var g := EncodeGroups(bs);
    var e := EncodeBytes(bs);
    GroupsAlphabet(bs);
    if |bs| % 3 == 1 {
      assert e[..|e| - 2] == g;
    } else if |bs| % 3 == 2 {
      assert e[..|e| - 1] == g;
      assert e[|e| - 2] == g[|g| - 1];
    } else {
      assert e == g;
      assert |g| > 0 ==> IsAlphabet(g[|g| - 1]);
    }
  }

  /** Base64 text is made of alphabet characters and `=`. */
  lemma {:induction false} EncodeBytesChars(bs: seq<Byte>)
    ensures forall i | 0 <= i < |EncodeBytes(bs)| :: IsAlphabet(EncodeBytes(bs)[i]) || EncodeBytes(bs)[i] == PAD
  {
    var g := EncodeGroups(bs);
    var e := EncodeBytes(bs);
    GroupsAlphabet(bs);
    forall i | 0 <= i < |e|
      ensures IsAlphabet(e[i]) || e[i] == PAD
    {
      if i < |g| {
        assert e[i] == g[i];
      } else {
        assert e[i] == PAD;
      }
    }
  }

  /** atob inverts the base64 that btoa produces. */
  lemma {:induction false} AtobEncodeBytes(bs: seq<Byte>)
    ensures Atob(EncodeBytes(bs)) == Ok(bs)
  {
    var e := EncodeBytes(bs);
    var g := EncodeGroups(bs);
    EncodedHasNoWhitespace(bs);
    NoWhitespaceKept(e);
    StripEncodedPadding(bs);
    GroupsNotOneOver(bs);
    GroupsAlphabet(bs);
    DecodeEncodeGroups(bs);
    AtobOfGroups(e, g, bs);
  }

  lemma {:induction false} EncodedHasNoWhitespace(bs: seq<Byte>)
    ensures forall i | 0 <= i < |EncodeBytes(bs)| :: !IsAsciiWhitespace(EncodeBytes(bs)[i])
  {
    EncodeBytesChars(bs);
  }

  lemma {:induction false} AtobOfGroups(e: Str, g: Str, bs: seq<Byte>)
    requires RemoveAsciiWhitespace(e) == e && StripPadding(e) == g
    requires AllAlphabet(g) && |g| % 4 != 1 && DecodeSextets(g) == bs
    ensures Atob(e) == Ok(bs)
  {
  }

  lemma {:induction false} GroupsNotOneOver(bs: seq<Byte>)
    ensures |EncodeGroups(bs)| % 4 != 1
  {
    GroupsLength(|bs|);
  }

  lemma {:induction false} GroupsLength(n: nat)
    ensures (4 * n + 2) / 3 % 4 != 1
  {
    var q := n / 3;
    assert n == 3 * q + n % 3;
    assert 4 * n + 2 == 3 * (4 * q) + 4 * (n % 3) + 2;
  }

  /** btoa accepts ASCII text. */
  lemma {:induction false} BtoaAscii(s: Str)
    requires IsAscii(s)
    ensures Btoa(s) == Ok(EncodeBytes(s))
  {
  }

  /** atob(btoa(s)) gives back s whenever btoa accepts s. */
  lemma {:induction false} AtobBtoa(s: Str)
    requires Btoa(s).Ok?
    ensures Atob(Btoa(s).value) == Ok(s)
  {
    AtobEncodeBytes(s);
  }

  // ---------------------------------------------------------------------------
  // Where `+` comes from

  /** The number of occurrences of a code unit. */
  function Count(s: Str, c: int): nat
    decreases |s|
  {
    if s == [] then 0 else (if s[0] == c then 1 else 0) + Count(s[1..], c)
  }

  lemma {:induction false} CountConcat(a: Str, b: Str, c: int)
    ensures Count(a + b, c) == Count(a, c) + Count(b, c)
    decreases |a|
  {
    if a != [] {
      assert (a + b)[0] == a[0];
      assert (a + b)[1..] == a[1..] + b;
      CountConcat(a[1..], b, c);
    } else {
      assert a + b == b;
    }
  }

  lemma {:induction false} CountAbsent(s: Str, c: int)
    requires forall i | 0 <= i < |s| :: s[i] != c
    ensures Count(s, c) == 0
    decreases |s|
  {
    if s != [] {
      CountAbsent(s[1..], c);
    }
  }

  predicate IsAsciiBytes(bs: seq<Byte>)
  {
    forall i | 0 <= i < |bs| :: bs[i] < 0x80
  }

  /** The octets whose low six bits are 62, among the ASCII ones: `>` and `~`. */
  predicate EncodesToPlus(b: Byte)
  {
    b % 64 == 62
  }

  lemma {:induction false} EncodeGroupsConcat(a: seq<Byte>, b: seq<Byte>)
    requires |a| % 3 == 0
    ensures EncodeGroups(a + b) == EncodeGroups(a) + EncodeGroups(b)
    decreases |a|
  {
    if a != [] {
      var t := a[3..];
      assert |t| % 3 == 0 && |t| < |a|;
      EncodeGroupsConcat(t, b);
      ConcatStep(a, b);
    } else {
      EmptyConcat(b);
    }
  }

  lemma {:induction false} EmptyConcat(b: seq<Byte>)
    ensures EncodeGroups([] + b) == EncodeGroups([]) + EncodeGroups(b)
  {
    assert [] + b == b;
  }

  lemma {:induction false} ConcatStep(a: seq<Byte>, b: seq<Byte>)
    requires |a| >= 3
    requires EncodeGroups(a[3..] + b) == EncodeGroups(a[3..]) + EncodeGroups(b)
    ensures EncodeGroups(a + b) == EncodeGroups(a) + EncodeGroups(b)
  {
    PrefixGroup(a, b);
    GroupsStep(a);
    GroupsStep(a + b);
    Assoc(Group(a[0], a[1], a[2]), EncodeGroups(a[3..]), EncodeGroups(b));
  }

  lemma {:induction false} PrefixGroup(a: seq<Byte>, b: seq<Byte>)
    requires |a| >= 3
    ensures (a + b)[0] == a[0] && (a + b)[1] == a[1] && (a + b)[2] == a[2]
    ensures (a + b)[3..] == a[3..] + b
  {
  }

  /** The first whole group, then the rest. */
  lemma {:induction false} GroupsStep(bs: seq<Byte>)
    requires |bs| >= 3
    ensures EncodeGroups(bs) == Group(bs[0], bs[1], bs[2]) + EncodeGroups(bs[3..])
  {
  }

  /** For ASCII octets, base64 writes `+` only for a third octet of a group
      equal to `>` or `~`; without such an octet there is none. */
  lemma {:induction false} NoPlusWithoutThirdPlusOctet(bs: seq<Byte>)
    requires IsAsciiBytes(bs)
    requires forall i | 0 <= i < |bs| && i % 3 == 2 :: !EncodesToPlus(bs[i])
    ensures Count(EncodeGroups(bs), PLUS) == 0
    decreases |bs|
  {
    if |bs| > 3 {
      forall i | 0 <= i < |bs[3..]| && i % 3 == 2
        ensures !EncodesToPlus(bs[3..][i])
      {
        assert bs[3..][i] == bs[i + 3];
      }
      NoPlusWithoutThirdPlusOctet(bs[3..]);
      var g := EncodeGroups(bs);
      assert g == g[..4] + EncodeGroups(bs[3..]);
      CountConcat(g[..4], EncodeGroups(bs[3..]), PLUS);
      CountAbsent(g[..4], PLUS);
    } else if |bs| == 3 {
      CountAbsent(EncodeGroups(bs), PLUS);
    } else {
      CountAbsent(EncodeGroups(bs), PLUS);
    }
  }

  /** A group of ASCII octets whose third octet is `~` or `>` encodes to
      exactly one `+`, its last character. */
  lemma {:induction false} PlusGroup(b0: Byte, b1: Byte, b2: Byte)
    requires b0 < 0x80 && b1 < 0x80 && b2 < 0x80 && EncodesToPlus(b2)
    ensures Count(EncodeGroups([b0, b1, b2]), PLUS) == 1
  {
    var g := EncodeGroups([b0, b1, b2]);
    assert g[3] == PLUS;
    assert g == g[..3] + [g[3]];
    CountAbsent(g[..3], PLUS);
    CountConcat(g[..3], [g[3]], PLUS);
  }

  /** Exactly one `+` in the base64 of ASCII octets in which a single octet
      `~` or `>` sits in third position of its group. */
  lemma {:induction false} SinglePlus(pre: seq<Byte>, b0: Byte, b1: Byte, b2: Byte, post: seq<Byte>)
    requires |pre| % 3 == 0 && IsAsciiBytes(pre) && IsAsciiBytes(post)
    requires b0 < 0x80 && b1 < 0x80 && b2 < 0x80 && EncodesToPlus(b2)
    requires forall i | 0 <= i < |pre| :: !EncodesToPlus(pre[i])
    requires forall i | 0 <= i < |post| :: !EncodesToPlus(post[i])
    ensures Count(EncodeBytes(pre + [b0, b1, b2] + post), PLUS) == 1
  {
    var bs := pre + [b0, b1, b2] + post;
    GroupsAround(pre, [b0, b1, b2], post);
    NoPlusWithoutThirdPlusOctet(pre);
    NoPlusWithoutThirdPlusOctet(post);
    PlusGroup(b0, b1, b2);
    var gpre, gmid, gpost := EncodeGroups(pre), EncodeGroups([b0, b1, b2]), EncodeGroups(post);
    CountAbsent(Padding(|bs|), PLUS);
    CountConcat(gpost, Padding(|bs|), PLUS);
    CountConcat(gmid, gpost + Padding(|bs|), PLUS);
    CountConcat(gpre, gmid + (gpost + Padding(|bs|)), PLUS);
  }

  /** The base64 text of octets split after whole groups: the characters of
      each part, then the padding. */
  lemma {:induction false} GroupsAround(pre: seq<Byte>, mid: seq<Byte>, post: seq<Byte>)
    requires |pre| % 3 == 0 && |mid| % 3 == 0
    ensures EncodeBytes(pre + mid + post)
            == EncodeGroups(pre) + (EncodeGroups(mid) + (EncodeGroups(post) + Padding(|pre + mid + post|)))
  {
    var bs := pre + mid + post;
    assert bs == pre + (mid + post);
    EncodeGroupsConcat(pre, mid + post);
    EncodeGroupsConcat(mid, post);
    Assoc(EncodeGroups(pre), EncodeGroups(mid + post), Padding(|bs|));
    Assoc(EncodeGroups(mid), EncodeGroups(post), Padding(|bs|));
  }

  /** A padded base64 text that has lost a number of characters that is not
      a multiple of four is rejected by atob: the `=` is no longer stripped
      and is outside the alphabet. */
  lemma {:induction false} TruncatedPaddedFails(s: Str)
    requires var d := RemoveAsciiWhitespace(s); |d| % 4 != 0 && |d| > 0 && d[|d| - 1] == PAD
    ensures Atob(s) == Err(InvalidCharacterError)
  {
    var d := RemoveAsciiWhitespace(s);
    assert StripPadding(d) == d;
    assert !IsAlphabet(d[|d| - 1]);
  }

  lemma {:induction false} CountZeroAbsent(s: Str, c: int)
    requires Count(s, c) == 0
    ensures Absent(s, c)
    decreases |s|
  {
    if s != [] {
      CountZeroAbsent(s[1..], c);
    }
  }

  lemma {:induction false} RemoveWhitespaceConcat(a: Str, b: Str)
    ensures RemoveAsciiWhitespace(a + b) == RemoveAsciiWhitespace(a) + RemoveAsciiWhitespace(b)
    decreases |a|
  {
    if a == [] {
      assert a + b == b;
    } else {
      assert (a + b)[0] == a[0];
      assert (a + b)[1..] == a[1..] + b;
      RemoveWhitespaceConcat(a[1..], b);
    }
  }
}
