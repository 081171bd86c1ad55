/** URLSearchParams: the application/x-www-form-urlencoded parser of the
    WHATWG URL Standard (section 5.1) and its `get`, together with
    String.prototype.split for a one-unit separator. */
module FormUrlEncoded {
  import opened Wrappers
  import opened JsText
  import UriComponent

  const AMPERSAND: CodeUnit := '&' as int
  const EQUALS: CodeUnit := '=' as int
  const PLUS: CodeUnit := '+' as int
  const SPACE: CodeUnit := ' ' as int
  const PERCENT: CodeUnit := '%' as int
  const REPLACEMENT: CodeUnit := 0xFFFD

  // ---------------------------------------------------------------------------
  // split

  /** `s.split(sep)`: the pieces between the separators, in order. */
  function Split(s: Str, sep: CodeUnit): (r: seq<Str>)
    ensures |r| >= 1
    ensures forall k | 0 <= k < |r| :: Absent(r[k], sep)
    decreases |s|
  {
    if s == [] then [[]]
    else
      var rest := Split(s[1..], sep);
      if s[0] == sep then [[]] + rest
      else [[s[0]] + rest[0]] + rest[1..]
  }

  /** The pieces joined with the separator between them. */
  function Join(pieces: seq<Str>, sep: CodeUnit): Str
    requires |pieces| >= 1
    decreases |pieces|
  {
    if |pieces| == 1 then pieces[0] else pieces[0] + [sep] + Join(pieces[1..], sep)
  }

  /** Splitting loses nothing: joining the pieces gives the string back. */
  lemma {:induction false} JoinSplit(s: Str, sep: CodeUnit)
    ensures Join(Split(s, sep), sep) == s
    decreases |s|
  {
    if s != [] {
      var rest := Split(s[1..], sep);
      JoinSplit(s[1..], sep);
      if s[0] == sep {
        assert Split(s, sep)[1..] == rest;
        assert [s[0]] + s[1..] == s;
      } else {
        var r := Split(s, sep);
        if |rest| == 1 {
          assert [s[0]] + s[1..] == s;
        } else {
          assert r[1..] == rest[1..];
          assert Join(rest, sep) == rest[0] + [sep] + Join(rest[1..], sep);
          assert Join(r, sep) == ([s[0]] + rest[0]) + [sep] + Join(rest[1..], sep);
          assert [s[0]] + s[1..] == s;
        }
      }
    }
  }

  lemma {:induction false} SplitWithout(s: Str, sep: CodeUnit)
    requires Absent(s, sep)
    ensures Split(s, sep) == [s]
    decreases |s|
  {
    if s != [] {
      SplitWithout(s[1..], sep);
      assert [s[0]] + s[1..] == s;
    }
  }

  lemma {:induction false} SplitAt(a: Str, sep: CodeUnit, b: Str)
    requires Absent(a, sep)
    ensures Split(a + [sep] + b, sep) == [a] + Split(b, sep)
    decreases |a|
  {
    var s := a + [sep] + b;
    if a == [] {
      assert s[1..] == b;
    } else {
      assert s[1..] == a[1..] + [sep] + b;
      SplitAt(a[1..], sep, b);
      assert [a[0]] + a[1..] == a;
    }
  }

  // ---------------------------------------------------------------------------
  // Percent-decoding

  /** The prefix of s before the first occurrence of c. */
  function TakeUntil(s: Str, c: CodeUnit): (r: Str)
    ensures |r| <= |s| && r == s[..|r|]
    ensures Absent(r, c)
    ensures |r| < |s| ==> s[|r|] == c
    decreases |s|
  {
    if s == [] || s[0] == c then [] else [s[0]] + TakeUntil(s[1..], c)
  }

  /** Every `+` read as a space. */
  function PlusAsSpace(s: Str): (r: Str)
    ensures |r| == |s|
    ensures forall i | 0 <= i < |s| :: r[i] == (if s[i] == PLUS then SPACE else s[i])
  {
    seq(|s|, i requires 0 <= i < |s| => if s[i] == PLUS then SPACE else s[i])
  }

  /** The code unit of a decoded octet. Octets of 0x80 and above are shown as
      U+FFFD instead of being read as UTF-8 (see the README). */
  function OctetUnit(b: Byte): (c: CodeUnit)
    ensures (c < 0x80) == (b < 0x80)
  {
    if b < 0x80 then b else REPLACEMENT
  }

  /** Percent-decode (section 1.3 of the URL Standard): `%` and two hex
      digits become the octet they spell; any other `%` stays as it is. */
  function PercentDecode(s: Str): (r: Str)
    ensures |r| <= |s|
    decreases |s|
  {
    if s == [] then []
    else if s[0] == PERCENT && |s| >= 3 && IsHexDigit(s[1]) && IsHexDigit(s[2]) then
      [OctetUnit(UriComponent.HexOctet(s[1], s[2]))] + PercentDecode(s[3..])
    else [s[0]] + PercentDecode(s[1..])
  }

  /** The name or value of one pair, as the parser returns it. */
  function DecodeComponent(s: Str): Str
  {
    PercentDecode(PlusAsSpace(s))
  }

  // ---------------------------------------------------------------------------
  // Parsing and get

  /** One non-empty piece: the name is what precedes the first `=`, the value
      what follows it (empty when there is none). */
  function ParsePair(piece: Str): (Str, Str)
  {
    var name := TakeUntil(piece, EQUALS);
    var value := if |name| < |piece| then piece[|name| + 1..] else [];
    (DecodeComponent(name), DecodeComponent(value))
  }

  function Pairs(pieces: seq<Str>): (r: seq<(Str, Str)>)
    ensures |r| <= |pieces|
    decreases |pieces|
  {
    if pieces == [] then []
    else (if pieces[0] == [] then [] else [ParsePair(pieces[0])]) + Pairs(pieces[1..])
  }

  /** new URLSearchParams(s): the pieces between `&`, empty ones skipped. */
  function Parse(s: Str): seq<(Str, Str)>
  {
    Pairs(Split(s, AMPERSAND))
  }

  /** params.get(name): the value of the first pair with that name, or null. */
  function Get(pairs: seq<(Str, Str)>, name: Str): (r: Option<Str>)
    ensures r.None? <==> forall i | 0 <= i < |pairs| :: pairs[i].0 != name
    ensures r.Some? ==> exists i | 0 <= i < |pairs| ::
              pairs[i] == (name, r.value) && forall j | 0 <= j < i :: pairs[j].0 != name
    decreases |pairs|
  {
    if pairs == [] then None
    else if pairs[0].0 == name then Some(pairs[0].1)
    else
      var r := Get(pairs[1..], name);
      if r.Some? then
        ghost var i :| 0 <= i < |pairs[1..]| && pairs[1..][i] == (name, r.value)
                       && forall j | 0 <= j < i :: pairs[1..][j].0 != name;
        assert pairs[i + 1] == (name, r.value);
        r
      else r
  }

  // ---------------------------------------------------------------------------
  // Facts the link decoder relies on

  lemma {:induction false} PercentDecodeWithout(s: Str)
    requires Absent(s, PERCENT)
    ensures PercentDecode(s) == s
    decreases |s|
  {
    if s != [] {
      PercentDecodeWithout(s[1..]);
      assert [s[0]] + s[1..] == s;
    }
  }

  lemma {:induction false} PlusAsSpaceConcat(a: Str, b: Str)
    ensures PlusAsSpace(a + b) == PlusAsSpace(a) + PlusAsSpace(b)
  {
  }

  lemma {:induction false} PlusAsSpaceWithout(s: Str)
    requires Absent(s, PLUS)
    ensures PlusAsSpace(s) == s
  {
  }

  /** A component with neither `+` nor `%` is read as it is. */
  lemma {:induction false} DecodeComponentPlain(s: Str)
    requires Absent(s, PLUS) && Absent(s, PERCENT)
    ensures DecodeComponent(s) == s
  {
    PlusAsSpaceWithout(s);
    PercentDecodeWithout(s);
  }

  lemma {:induction false} PercentOfAscii(c: CodeUnit, tail: Str)
    requires c < 0x80
    ensures PercentDecode(UriComponent.PercentEncode(UriComponent.Utf8Encode(c)) + tail)
            == [c] + PercentDecode(tail)
  {
    var s := UriComponent.PercentEncode(UriComponent.Utf8Encode(c)) + tail;
    assert UriComponent.Utf8Encode(c) == [c];
    assert s == UriComponent.PercentByte(c) + tail;
    UriComponent.HexOctetOfDigits(c);
    assert s[3..] == tail;
  }

  /** Percent-decoding undoes encodeURIComponent on ASCII text. */
  lemma {:induction false} PercentDecodeEncode(s: Str)
    requires IsAscii(s)
    ensures WellFormed(s) && PercentDecode(UriComponent.Encode(s).value) == s
    decreases |s|
  {
    AsciiWellFormed(s);
    if s != [] {
      PercentDecodeEncode(s[1..]);
      var tail := UriComponent.Encode(s[1..]).value;
      if UriComponent.IsUnreserved(s[0]) {
        assert ([s[0]] + tail)[1..] == tail;
      } else {
        PercentOfAscii(s[0], tail);
      }
      assert [s[0]] + s[1..] == s;
    }
  }

  lemma {:induction false} TakeUntilFirst(a: Str, c: CodeUnit, b: Str)
    requires Absent(a, c)
    ensures TakeUntil(a + [c] + b, c) == a
    decreases |a|
  {
    if a != [] {
      assert (a + [c] + b)[1..] == a[1..] + [c] + b;
      TakeUntilFirst(a[1..], c, b);
      assert [a[0]] + a[1..] == a;
    }
  }

  /** A query of the single pair name=value (the value may hold `=`) parses to
      that pair. */
  lemma {:induction false} SinglePair(name: Str, value: Str)
    requires name != [] && Absent(name, EQUALS)
    requires Absent(name, AMPERSAND) && Absent(value, AMPERSAND)
    requires Absent(name, PLUS) && Absent(name, PERCENT)
    ensures Parse(name + [EQUALS] + value) == [(name, DecodeComponent(value))]
  {
    var s := name + [EQUALS] + value;
    assert Absent(s, AMPERSAND);
    SplitWithout(s, AMPERSAND);
    var taken := TakeUntil(s, EQUALS);
    TakeUntilFirst(name, EQUALS, value);
    assert s[|name| + 1..] == value;
    DecodeComponentPlain(name);
    assert Parse(s) == Pairs([s]);
    assert Pairs([s]) == [ParsePair(s)] + Pairs([]);
  }
}
