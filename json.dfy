/** JSON.stringify and JSON.parse restricted to the one value the link carries:
    an object with the string members scenario, customMessage and senderName
    (RFC 8259, section 7 for strings; ECMA-262 for QuoteJSONString). */
module Json {
  import opened Wrappers
  import opened JsText

  /** ApologyPayload (App.tsx:12-16, types.ts:8-12). */
  datatype Payload = Payload(scenario: Str, customMessage: Str, senderName: Str)

  const QUOTE: CodeUnit := 0x22
  const BACKSLASH: CodeUnit := 0x5C
  const COLON: CodeUnit := 0x3A
  const COMMA: CodeUnit := 0x2C
  const OPEN_BRACE: CodeUnit := 0x7B
  const CLOSE_BRACE: CodeUnit := 0x7D

  const KEY_SCENARIO: Str := Ascii("scenario")
  const KEY_MESSAGE: Str := Ascii("customMessage")
  const KEY_SENDER: Str := Ascii("senderName")

  // ---------------------------------------------------------------------------
  // Serialising

  /** The letter of a two-character escape in QuoteJSONString's table. */
  function ShortEscape(c: CodeUnit): (r: Option<CodeUnit>)
    ensures r.Some? ==> r.value < 0x80
  {
    if c == 0x08 then Some('b' as int)
    else if c == 0x09 then Some('t' as int)
    else if c == 0x0A then Some('n' as int)
    else if c == 0x0C then Some('f' as int)
    else if c == 0x0D then Some('r' as int)
    else if c == QUOTE then Some(QUOTE)
    else if c == BACKSLASH then Some(BACKSLASH)
    else None
  }

  /** UnicodeEscape: a backslash, `u` and four lower-case hex digits. */
  function UnicodeEscape(c: CodeUnit): (r: Str)
    ensures |r| == 6 && IsAscii(r)
  {
    [BACKSLASH, 'u' as int,
     LowerHexDigit(c / 0x1000), LowerHexDigit(c / 0x100 % 16),
     LowerHexDigit(c / 0x10 % 16), LowerHexDigit(c % 16)]
  }

  /** How QuoteJSONString writes one code point that is a single code unit
      (a BMP character or an unpaired surrogate). */
  function QuoteUnit(c: CodeUnit): Str
  {
    match ShortEscape(c)
    case Some(e) => [BACKSLASH, e]
    case None => if c < 0x20 || IsSurrogate(c) then UnicodeEscape(c) else [c]
  }

  /** The inside of QuoteJSONString(s): surrogate pairs are copied, every
      other code unit goes through QuoteUnit. */
  function QuoteBody(s: Str): Str
    decreases |s|
  {
    if s == [] then []
    else if |s| >= 2 && IsHighSurrogate(s[0]) && IsLowSurrogate(s[1]) then [s[0], s[1]] + QuoteBody(s[2..])
    else QuoteUnit(s[0]) + QuoteBody(s[1..])
  }

  function Quote(s: Str): Str
  {
    [QUOTE] + QuoteBody(s) + [QUOTE]
  }

  function Member(key: Str, value: Str): Str
  {
    Quote(key) + [COLON] + Quote(value)
  }

  /** The members of a non-empty object, comma-separated, with the closing
      brace. */
  function MembersText(ms: seq<(Str, Str)>): Str
    requires ms != []
    decreases |ms|
  {
    Member(ms[0].0, ms[0].1) + (if |ms| == 1 then [CLOSE_BRACE] else [COMMA] + MembersText(ms[1..]))
  }

  /** SerializeJSONObject with no gap and every member value a string. */
  function ObjectText(ms: seq<(Str, Str)>): Str
  {
    if ms == [] then [OPEN_BRACE, CLOSE_BRACE] else [OPEN_BRACE] + MembersText(ms)
  }

  /** The payload's members in the order the source creates them
      (App.tsx:99, components/Creator.tsx:30-34). */
  function PayloadMembers(p: Payload): seq<(Str, Str)>
  {
    [(KEY_SCENARIO, p.scenario), (KEY_MESSAGE, p.customMessage), (KEY_SENDER, p.senderName)]
  }

  /** JSON.stringify of the payload (App.tsx:106, components/Creator.tsx:37). */
  function Stringify(p: Payload): Str
  {
    ObjectText(PayloadMembers(p))
  }

  lemma {:induction false} QuoteUnitWellFormed(c: CodeUnit)
    ensures WellFormed(QuoteUnit(c))
  {
    var q := QuoteUnit(c);
    if q != [c] {
      AsciiWellFormed(q);
    }
  }

  lemma {:induction false} QuoteBodyWellFormed(s: Str)
    ensures WellFormed(QuoteBody(s))
    decreases |s|
  {
    if s == [] {
    } else if |s| >= 2 && IsHighSurrogate(s[0]) && IsLowSurrogate(s[1]) {
      assert [s[0], s[1]][2..] == [];
      QuoteBodyWellFormed(s[2..]);
      WellFormedConcat([s[0], s[1]], QuoteBody(s[2..]));
    } else {
      QuoteUnitWellFormed(s[0]);
      QuoteBodyWellFormed(s[1..]);
      WellFormedConcat(QuoteUnit(s[0]), QuoteBody(s[1..]));
    }
  }

  lemma {:induction false} MemberWellFormed(key: Str, value: Str)
    ensures WellFormed(Member(key, value))
  {
    AsciiWellFormed([QUOTE]);
    AsciiWellFormed([COLON]);
    QuoteBodyWellFormed(key);
    QuoteBodyWellFormed(value);
    WellFormedConcat([QUOTE], QuoteBody(key));
    WellFormedConcat([QUOTE] + QuoteBody(key), [QUOTE]);
    WellFormedConcat([QUOTE], QuoteBody(value));
    WellFormedConcat([QUOTE] + QuoteBody(value), [QUOTE]);
    WellFormedConcat(Quote(key), [COLON]);
    WellFormedConcat(Quote(key) + [COLON], Quote(value));
  }

  lemma {:induction false} MembersTextWellFormed(ms: seq<(Str, Str)>)
    requires ms != []
    ensures WellFormed(MembersText(ms))
    decreases |ms|
  {
    var m := Member(ms[0].0, ms[0].1);
    MemberWellFormed(ms[0].0, ms[0].1);
    if |ms| == 1 {
      AsciiWellFormed([CLOSE_BRACE]);
      WellFormedConcat(m, [CLOSE_BRACE]);
    } else {
      MembersTextWellFormed(ms[1..]);
      AsciiWellFormed([COMMA]);
      WellFormedConcat([COMMA], MembersText(ms[1..]));
      WellFormedConcat(m, [COMMA] + MembersText(ms[1..]));
    }
  }

  /** Whatever the fields hold, unpaired surrogates included, the JSON text
      has none: QuoteJSONString escapes them. */
  lemma {:induction false} StringifyWellFormed(p: Payload)
    ensures WellFormed(Stringify(p))
  {
    MembersTextWellFormed(PayloadMembers(p));
    AsciiWellFormed([OPEN_BRACE]);
    WellFormedConcat([OPEN_BRACE], MembersText(PayloadMembers(p)));
  }

  // ---------------------------------------------------------------------------
  // Parsing

  predicate IsJsonWhitespace(c: CodeUnit)
  {
    c == 0x20 || c == 0x09 || c == 0x0A || c == 0x0D
  }

  /** The text after any leading JSON whitespace. */
  function SkipWhitespace(s: Str): (r: Str)
    ensures |r| <= |s|
    decreases |s|
  {
    if s != [] && IsJsonWhitespace(s[0]) then SkipWhitespace(s[1..]) else s
  }

  /** The code unit an escape stands for, given the text after the backslash,
      and how many code units of that text the escape takes. */
  function Unescape(s: Str): (r: Option<(CodeUnit, nat)>)
    ensures r.Some? ==> 1 <= r.value.1 <= |s|
  {
    if s == [] then None
    else if s[0] == QUOTE || s[0] == BACKSLASH || s[0] == '/' as int then Some((s[0], 1))
    else if s[0] == 'b' as int then Some((0x08, 1))
    else if s[0] == 'f' as int then Some((0x0C, 1))
    else if s[0] == 'n' as int then Some((0x0A, 1))
    else if s[0] == 'r' as int then Some((0x0D, 1))
    else if s[0] == 't' as int then Some((0x09, 1))
    else if s[0] == 'u' as int && |s| >= 5
            && IsHexDigit(s[1]) && IsHexDigit(s[2]) && IsHexDigit(s[3]) && IsHexDigit(s[4]) then
      Some((HexValue(s[1]) * 0x1000 + HexValue(s[2]) * 0x100 + HexValue(s[3]) * 0x10 + HexValue(s[4]), 5))
    else None
  }

  /** A JSON string after its opening quote: its value and the text after the
      closing quote. */
  function ParseStringBody(s: Str): (r: Result<(Str, Str)>)
    ensures r.Ok? ==> |r.value.1| < |s|
    decreases |s|
  {
    if s == [] then Err(SyntaxError)
    else if s[0] == QUOTE then Ok(([], s[1..]))
    else if s[0] == BACKSLASH then
      match Unescape(s[1..])
      case None => Err(SyntaxError)
      case Some((c, n)) => ConsValue(c, ParseStringBody(s[1 + n..]))
    else if s[0] < 0x20 then Err(SyntaxError)
    else ConsValue(s[0], ParseStringBody(s[1..]))
  }

  function ConsValue(c: CodeUnit, r: Result<(Str, Str)>): (r': Result<(Str, Str)>)
    ensures r.Ok? ==> r'.Ok? && r'.value.1 == r.value.1
  {
    match r
    case Err(e) => Err(e)
    case Ok((v, rest)) => Ok(([c] + v, rest))
  }

  /** One member, from its opening quote to just before the `,` or `}` that
      follows it. */
  function ParseMember(s: Str): (r: Result<((Str, Str), Str)>)
    ensures r.Ok? ==> |r.value.1| < |s|
  {
    if s == [] || s[0] != QUOTE then Err(SyntaxError)
    else
      match ParseStringBody(s[1..])
      case Err(e) => Err(e)
      case Ok((key, afterKey)) => ParseMemberValue(key, afterKey)
  }

  /** The `:` and the value of a member whose name has been read; a value
      other than a string is not supported. */
  function ParseMemberValue(key: Str, s: Str): (r: Result<((Str, Str), Str)>)
    ensures r.Ok? ==> |r.value.1| < |s| && r.value.0.0 == key
  {
    var t := SkipWhitespace(s);
    if t == [] || t[0] != COLON then Err(SyntaxError)
    else
      var u := SkipWhitespace(t[1..]);
      if u == [] || u[0] != QUOTE then Err(Unsupported)
      else
        match ParseStringBody(u[1..])
        case Err(e) => Err(e)
        case Ok((value, afterValue)) => Ok(((key, value), SkipWhitespace(afterValue)))
  }

  /** Members separated by commas up to the closing brace; returns them in
      text order and the text after the brace. */
  function ParseMembers(s: Str): (r: Result<(seq<(Str, Str)>, Str)>)
    decreases |s|
  {
    match ParseMember(s)
    case Err(e) => Err(e)
    case Ok((m, rest)) =>
      if rest != [] && rest[0] == COMMA then
        match ParseMembers(SkipWhitespace(rest[1..]))
        case Err(e) => Err(e)
        case Ok((ms, after)) => Ok(([m] + ms, after))
      else if rest != [] && rest[0] == CLOSE_BRACE then Ok(([m], rest[1..]))
      else Err(SyntaxError)
  }

  /** The members of a JSON text that is one object, with whitespace allowed
      around every token. */
  function ParseObjectText(s: Str): Result<seq<(Str, Str)>>
  {
    var t := SkipWhitespace(s);
    if t == [] then Err(SyntaxError)
    else if t[0] != OPEN_BRACE then Err(Unsupported)
    else
      var u := SkipWhitespace(t[1..]);
      var body: Result<(seq<(Str, Str)>, Str)> := if u != [] && u[0] == CLOSE_BRACE then Ok(([], u[1..])) else ParseMembers(u);
      match body
      case Err(e) => Err(e)
      case Ok((ms, after)) => if SkipWhitespace(after) == [] then Ok(ms) else Err(SyntaxError)
  }

  /** The value of the last member named `key`, as JSON.parse keeps the last
      of duplicate names. */
  function Lookup(ms: seq<(Str, Str)>, key: Str): (r: Option<Str>)
    ensures r.Some? <==> exists i | 0 <= i < |ms| :: ms[i].0 == key
    ensures r.Some? ==> exists i | 0 <= i < |ms| :: ms[i] == (key, r.value)
                                                   && forall j | i < j < |ms| :: ms[j].0 != key
    decreases |ms|
  {
    if ms == [] then None
    else if ms[|ms| - 1].0 == key then Some(ms[|ms| - 1].1)
    else Lookup(ms[..|ms| - 1], key)
  }

  /** JSON.parse of a link's text, read as a payload (App.tsx:80). */
  function Parse(s: Str): Result<Payload>
  {
    match ParseObjectText(s)
    case Err(e) => Err(e)
    case Ok(ms) =>
      match (Lookup(ms, KEY_SCENARIO), Lookup(ms, KEY_MESSAGE), Lookup(ms, KEY_SENDER))
      case (Some(a), Some(b), Some(c)) => Ok(Payload(a, b, c))
      case _ => Err(Unsupported)
  }

  // ---------------------------------------------------------------------------
  // Round trip

  lemma {:induction false} HexDigitsOfUnit(c: CodeUnit)
    ensures (c / 0x1000) * 0x1000 + (c / 0x100 % 16) * 0x100 + (c / 0x10 % 16) * 0x10 + c % 16 == c
  {
    var a, b, d := c / 0x1000, c / 0x100, c / 0x10;
    assert b == a * 16 + b % 16;
    assert d == b * 16 + d % 16;
    assert c == d * 16 + c % 16;
  }

  /** Reading back an escape that QuoteUnit wrote. */
  lemma {:induction false} UnescapeQuoteUnit(c: CodeUnit, rest: Str)
    requires QuoteUnit(c)[0] == BACKSLASH
    ensures Unescape(QuoteUnit(c)[1..] + rest) == Some((c, |QuoteUnit(c)| - 1))
  {
    var q := QuoteUnit(c);
    if ShortEscape(c).None? {
      HexDigitsOfUnit(c);
      var t := q[1..] + rest;
      assert t[0] == 'u' as int && t[1..5] == q[2..6];
    }
  }

  lemma {:induction false} PlainStep(c: CodeUnit, tail: Str)
    requires c >= 0x20 && c != QUOTE && c != BACKSLASH
    ensures ParseStringBody([c] + tail) == ConsValue(c, ParseStringBody(tail))
  {
    assert ([c] + tail)[1..] == tail;
  }

  lemma {:induction false} EscapeStep(c: CodeUnit, tail: Str)
    requires QuoteUnit(c)[0] == BACKSLASH
    ensures ParseStringBody(QuoteUnit(c) + tail) == ConsValue(c, ParseStringBody(tail))
  {
    var q := QuoteUnit(c);
    var input := q + tail;
    assert input[1..] == q[1..] + tail;
    UnescapeQuoteUnit(c, tail);
    assert input[1 + (|q| - 1)..] == tail;
  }

  lemma {:induction false} UnitStep(c: CodeUnit, tail: Str)
    ensures ParseStringBody(QuoteUnit(c) + tail) == ConsValue(c, ParseStringBody(tail))
  {
    var q := QuoteUnit(c);
    if q[0] == BACKSLASH {
      EscapeStep(c, tail);
    } else {
      assert q == [c];
      PlainStep(c, tail);
    }
  }

  lemma {:induction false} QuoteBodyParses(s: Str, rest: Str)
    ensures ParseStringBody(QuoteBody(s) + [QUOTE] + rest) == Ok((s, rest))
    decreases |s|
  {
    if s == [] {
      var input := QuoteBody(s) + [QUOTE] + rest;
      assert input == [QUOTE] + rest;
    } else if |s| >= 2 && IsHighSurrogate(s[0]) && IsLowSurrogate(s[1]) {
      var t := s[2..];
      assert |t| < |s|;
      QuoteBodyParses(t, rest);
      PairParseStep(s, rest);
    } else {
      var t := s[1..];
      assert |t| < |s|;
      QuoteBodyParses(t, rest);
      UnitParseStep(s, rest);
    }
  }

  /** A surrogate pair in front of text that parses is read back as is. */
  lemma {:induction false} PairParseStep(s: Str, rest: Str)
    requires |s| >= 2 && IsHighSurrogate(s[0]) && IsLowSurrogate(s[1])
    requires ParseStringBody(QuoteBody(s[2..]) + [QUOTE] + rest) == Ok((s[2..], rest))
    ensures ParseStringBody(QuoteBody(s) + [QUOTE] + rest) == Ok((s, rest))
  {
    var tail := QuoteBody(s[2..]) + [QUOTE] + rest;
    assert QuoteBody(s) + [QUOTE] + rest == [s[0]] + ([s[1]] + tail);
    PlainStep(s[1], tail);
    PlainStep(s[0], [s[1]] + tail);
    assert [s[0]] + ([s[1]] + s[2..]) == s;
  }

  /** A quoted code unit in front of text that parses is read back as that
      code unit. */
  lemma {:induction false} UnitParseStep(s: Str, rest: Str)
    requires s != [] && !(|s| >= 2 && IsHighSurrogate(s[0]) && IsLowSurrogate(s[1]))
    requires ParseStringBody(QuoteBody(s[1..]) + [QUOTE] + rest) == Ok((s[1..], rest))
    ensures ParseStringBody(QuoteBody(s) + [QUOTE] + rest) == Ok((s, rest))
  {
    var tail := QuoteBody(s[1..]) + [QUOTE] + rest;
    assert QuoteBody(s) + [QUOTE] + rest == QuoteUnit(s[0]) + tail;
    UnitStep(s[0], tail);
    assert [s[0]] + s[1..] == s;
  }

  lemma {:induction false} StringParses(s: Str, rest: Str)
    ensures ParseStringBody(Quote(s)[1..] + rest) == Ok((s, rest))
  {
    assert Quote(s)[1..] + rest == QuoteBody(s) + [QUOTE] + rest;
    QuoteBodyParses(s, rest);
  }

  lemma {:induction false} SkipNothing(s: Str)
    requires s == [] || !IsJsonWhitespace(s[0])
    ensures SkipWhitespace(s) == s
  {
  }

  lemma {:induction false} MemberValueParses(key: Str, value: Str, rest: Str)
    requires rest == [] || !IsJsonWhitespace(rest[0])
    ensures ParseMemberValue(key, [COLON] + Quote(value) + rest) == Ok(((key, value), rest))
  {
    var valueText := Quote(value) + rest;
    var input := [COLON] + valueText;
    assert [COLON] + Quote(value) + rest == input;
    SkipNothing(input);
    assert input[1..] == valueText;
    SkipNothing(valueText);
    assert valueText == [QUOTE] + (QuoteBody(value) + [QUOTE] + rest);
    assert valueText[1..] == QuoteBody(value) + [QUOTE] + rest;
    QuoteBodyParses(value, rest);
    SkipNothing(rest);
  }

  lemma {:induction false} MemberParses(key: Str, value: Str, rest: Str)
    requires rest == [] || !IsJsonWhitespace(rest[0])
    ensures ParseMember(Member(key, value) + rest) == Ok(((key, value), rest))
  {
    var afterKey := [COLON] + Quote(value) + rest;
    var input := Member(key, value) + rest;
    assert input == [QUOTE] + (QuoteBody(key) + [QUOTE] + afterKey);
    QuoteBodyParses(key, afterKey);
    MemberValueParses(key, value, rest);
  }

  lemma {:induction false} MembersTextParses(ms: seq<(Str, Str)>)
    requires ms != []
    ensures ParseMembers(MembersText(ms)) == Ok((ms, []))
    decreases |ms|
  {
    if |ms| == 1 {
      LastMemberParses(ms);
    } else {
      var t := ms[1..];
      assert |t| < |ms|;
      MembersTextParses(t);
      MembersStep(ms);
    }
  }

  /** The last member, followed by the closing brace. */
  lemma {:induction false} LastMemberParses(ms: seq<(Str, Str)>)
    requires |ms| == 1
    ensures ParseMembers(MembersText(ms)) == Ok((ms, []))
  {
    var (key, value) := ms[0];
    assert ms == [(key, value)];
    MemberParses(key, value, [CLOSE_BRACE]);
    assert [CLOSE_BRACE][1..] == [];
  }

  /** A member and a comma in front of members that parse. */
  lemma {:induction false} MembersStep(ms: seq<(Str, Str)>)
    requires |ms| >= 2 && ParseMembers(MembersText(ms[1..])) == Ok((ms[1..], []))
    ensures ParseMembers(MembersText(ms)) == Ok((ms, []))
  {
    var key, value := ms[0].0, ms[0].1;
    var more := MembersText(ms[1..]);
    var rest := [COMMA] + more;
    var text := MembersText(ms);
    assert text == Member(key, value) + rest;
    MemberParses(key, value, rest);
    assert rest[1..] == more;
    SkipNothing(more);
    ParseMembersCons(text, (key, value), rest, ms[1..], []);
    assert (key, value) == ms[0];
    MembersSplit(ms);
  }

  /** ParseMembers after a member followed by a comma. */
  lemma {:induction false} ParseMembersCons(text: Str, m: (Str, Str), rest: Str, ms: seq<(Str, Str)>, after: Str)
    requires ParseMember(text) == Ok((m, rest)) && rest != [] && rest[0] == COMMA
    requires ParseMembers(SkipWhitespace(rest[1..])) == Ok((ms, after))
    ensures ParseMembers(text) == Ok(([m] + ms, after))
  {
  }

  lemma {:induction false} MembersSplit(ms: seq<(Str, Str)>)
    requires ms != []
    ensures [ms[0]] + ms[1..] == ms
  {
  }

  lemma {:induction false} ObjectTextParses(ms: seq<(Str, Str)>)
    ensures ParseObjectText(ObjectText(ms)) == Ok(ms)
  {
    var text := ObjectText(ms);
    SkipNothing(text);
    if ms == [] {
      assert text[1..] == [CLOSE_BRACE];
      assert [CLOSE_BRACE][1..] == [];
    } else {
      MembersTextParses(ms);
      assert text[1..] == MembersText(ms);
      SkipNothing(MembersText(ms));
    }
  }

  lemma {:induction false} LookupKeys(a: Str, b: Str, c: Str)
    ensures var ms := [(KEY_SCENARIO, a), (KEY_MESSAGE, b), (KEY_SENDER, c)];
            Lookup(ms, KEY_SCENARIO) == Some(a) && Lookup(ms, KEY_MESSAGE) == Some(b)
            && Lookup(ms, KEY_SENDER) == Some(c)
  {
    var ms := [(KEY_SCENARIO, a), (KEY_MESSAGE, b), (KEY_SENDER, c)];
    assert |KEY_SCENARIO| == 8 && |KEY_MESSAGE| == 13 && |KEY_SENDER| == 10;
    assert ms[..2] == [(KEY_SCENARIO, a), (KEY_MESSAGE, b)];
    assert ms[..2][..1] == [(KEY_SCENARIO, a)];
    assert Lookup(ms[..2][..1], KEY_SCENARIO) == Some(a);
    assert Lookup(ms[..2], KEY_SCENARIO) == Some(a);
    assert Lookup(ms[..2], KEY_MESSAGE) == Some(b);
  }

  /** JSON.parse inverts JSON.stringify on every payload, whatever its
      fields hold (App.tsx:80 against App.tsx:106). */
  lemma {:induction false} ParseStringify(p: Payload)
    ensures Parse(Stringify(p)) == Ok(p)
  {
    ObjectTextParses(PayloadMembers(p));
    LookupKeys(p.scenario, p.customMessage, p.senderName);
  }

  // ---------------------------------------------------------------------------
  // What the JSON text is made of

  /** A code unit that some escape may write: a backslash, a quote, a digit or
      a lower-case letter. */
  predicate IsEscapeUnit(c: int)
  {
    c == BACKSLASH || c == QUOTE || IsAsciiDigit(c) || IsAsciiLower(c)
  }

  lemma {:induction false} QuoteUnitAbsent(u: CodeUnit, c: int)
    requires u != c && !IsEscapeUnit(c)
    ensures Absent(QuoteUnit(u), c)
  {
  }

  /** Quoting introduces no code unit other than those of escapes. */
  lemma {:induction false} QuoteBodyAbsent(s: Str, c: int)
    requires Absent(s, c) && !IsEscapeUnit(c)
    ensures Absent(QuoteBody(s), c)
    decreases |s|
  {
    if s == [] {
    } else if |s| >= 2 && IsHighSurrogate(s[0]) && IsLowSurrogate(s[1]) {
      QuoteBodyAbsent(s[2..], c);
    } else {
      QuoteUnitAbsent(s[0], c);
      QuoteBodyAbsent(s[1..], c);
    }
  }

  lemma {:induction false} KeysAreLetters()
    ensures forall i | 0 <= i < |KEY_SCENARIO| :: IsAsciiLower(KEY_SCENARIO[i])
    ensures forall i | 0 <= i < |KEY_MESSAGE| :: IsAsciiLower(KEY_MESSAGE[i]) || IsAsciiUpper(KEY_MESSAGE[i])
    ensures forall i | 0 <= i < |KEY_SENDER| :: IsAsciiLower(KEY_SENDER[i]) || IsAsciiUpper(KEY_SENDER[i])
  {
    forall i | 0 <= i < |KEY_SCENARIO| ensures IsAsciiLower(KEY_SCENARIO[i]) {
      assert "scenario"[i] in "scenario";
    }
    forall i | 0 <= i < |KEY_MESSAGE| ensures IsAsciiLower(KEY_MESSAGE[i]) || IsAsciiUpper(KEY_MESSAGE[i]) {
      assert "customMessage"[i] in "customMessage";
    }
    forall i | 0 <= i < |KEY_SENDER| ensures IsAsciiLower(KEY_SENDER[i]) || IsAsciiUpper(KEY_SENDER[i]) {
      assert "senderName"[i] in "senderName";
    }
  }

  lemma {:induction false} MemberAbsent(key: Str, value: Str, c: int)
    requires Absent(key, c) && Absent(value, c) && !IsEscapeUnit(c) && c != COLON
    ensures Absent(Member(key, value), c)
  {
    QuoteBodyAbsent(key, c);
    QuoteBodyAbsent(value, c);
  }

  lemma {:induction false} MembersTextAbsent(ms: seq<(Str, Str)>, c: int)
    requires ms != []
    requires forall k | 0 <= k < |ms| :: Absent(ms[k].0, c) && Absent(ms[k].1, c)
    requires !IsEscapeUnit(c) && c != COLON && c != COMMA && c != CLOSE_BRACE
    ensures Absent(MembersText(ms), c)
    decreases |ms|
  {
    MemberAbsent(ms[0].0, ms[0].1, c);
    if |ms| > 1 {
      MembersTextAbsent(ms[1..], c);
    }
  }

  /** A code unit that is no letter, digit or JSON punctuation occurs in the
      JSON text only if it occurs in one of the fields. */
  lemma {:induction false} StringifyAbsent(p: Payload, c: int)
    requires Absent(p.scenario, c) && Absent(p.customMessage, c) && Absent(p.senderName, c)
    requires !IsEscapeUnit(c) && !IsAsciiUpper(c)
    requires c != COLON && c != COMMA && c != OPEN_BRACE && c != CLOSE_BRACE
    ensures Absent(Stringify(p), c)
  {
    KeysAreLetters();
    MembersTextAbsent(PayloadMembers(p), c);
  }

  /** Printable ASCII other than the quote and the backslash. */
  predicate IsPlain(s: Str)
  {
    forall i | 0 <= i < |s| :: 0x20 <= s[i] < 0x80 && s[i] != QUOTE && s[i] != BACKSLASH
  }

  /** Plain text is copied between the quotes unchanged. */
  lemma {:induction false} QuoteBodyPlain(s: Str)
    requires IsPlain(s)
    ensures QuoteBody(s) == s
    decreases |s|
  {
    if s != [] {
      QuoteBodyPlain(s[1..]);
      assert [s[0]] + s[1..] == s;
    }
  }

  /** The fixed text around the fields of a payload whose fields are plain. */
  const FRAME_OPEN: Str := [OPEN_BRACE, QUOTE]
  const FRAME_COLON: Str := [QUOTE, COLON, QUOTE]
  const FRAME_COMMA: Str := [QUOTE, COMMA, QUOTE]
  const FRAME_CLOSE: Str := [QUOTE, CLOSE_BRACE]

  /** A plain string quoted, followed by more text. */
  lemma {:induction false} QuoteThen(s: Str, tail: Str)
    requires IsPlain(s)
    ensures Quote(s) + tail == [QUOTE] + (s + ([QUOTE] + tail))
  {
    QuoteBodyPlain(s);
    calc {
      Quote(s) + tail;
      ([QUOTE] + s + [QUOTE]) + tail;
      { Assoc([QUOTE] + s, [QUOTE], tail); }
      ([QUOTE] + s) + ([QUOTE] + tail);
      { Assoc([QUOTE], s, [QUOTE] + tail); }
      [QUOTE] + (s + ([QUOTE] + tail));
    }
  }

  lemma {:induction false} ColonThen(tail: Str)
    ensures [QUOTE] + ([COLON] + ([QUOTE] + tail)) == FRAME_COLON + tail
  {
  }

  /** A member with plain key and value, followed by more text. */
  lemma {:induction false} MemberThen(key: Str, value: Str, tail: Str)
    requires IsPlain(key) && IsPlain(value)
    ensures Member(key, value) + tail
            == [QUOTE] + (key + (FRAME_COLON + (value + ([QUOTE] + tail))))
  {
    var qv := Quote(value);
    calc {
      Member(key, value) + tail;
      (Quote(key) + [COLON] + qv) + tail;
      { Assoc(Quote(key) + [COLON], qv, tail); }
      (Quote(key) + [COLON]) + (qv + tail);
      { Assoc(Quote(key), [COLON], qv + tail); }
      Quote(key) + ([COLON] + (qv + tail));
      { QuoteThen(value, tail); }
      Quote(key) + ([COLON] + ([QUOTE] + (value + ([QUOTE] + tail))));
      { QuoteThen(key, [COLON] + ([QUOTE] + (value + ([QUOTE] + tail)))); }
      [QUOTE] + (key + ([QUOTE] + ([COLON] + ([QUOTE] + (value + ([QUOTE] + tail))))));
      { ColonThen(value + ([QUOTE] + tail)); }
      [QUOTE] + (key + (FRAME_COLON + (value + ([QUOTE] + tail))));
    }
  }

  lemma {:induction false} KeysArePlain()
    ensures IsPlain(KEY_SCENARIO) && IsPlain(KEY_MESSAGE) && IsPlain(KEY_SENDER)
  {
    KeysAreLetters();
  }

  lemma {:induction false} CommaThen(tail: Str)
    ensures [QUOTE] + ([COMMA] + ([QUOTE] + tail)) == FRAME_COMMA + tail
  {
  }

  lemma {:induction false} CloseThen()
    ensures [QUOTE] + [CLOSE_BRACE] == FRAME_CLOSE
  {
  }

  lemma {:induction false} OpenThen(tail: Str)
    ensures [OPEN_BRACE] + ([QUOTE] + tail) == FRAME_OPEN + tail
  {
  }

  /** JSON.stringify of a payload with plain fields: the fields, in order,
      inside a fixed frame. */
  lemma {:induction false} StringifyLayout(p: Payload)
    requires IsPlain(p.scenario) && IsPlain(p.customMessage) && IsPlain(p.senderName)
    ensures Stringify(p)
            == FRAME_OPEN + (KEY_SCENARIO + (FRAME_COLON + (p.scenario
               + (FRAME_COMMA + (KEY_MESSAGE + (FRAME_COLON + (p.customMessage
               + (FRAME_COMMA + (KEY_SENDER + (FRAME_COLON + (p.senderName + FRAME_CLOSE)))))))))))
  {
    KeysArePlain();
    var ms := PayloadMembers(p);
    var t2 := MembersText(ms[2..]);
    var t1 := MembersText(ms[1..]);
    assert t2 == Member(KEY_SENDER, p.senderName) + [CLOSE_BRACE];
    assert t1 == Member(KEY_MESSAGE, p.customMessage) + ([COMMA] + t2);
    assert MembersText(ms) == Member(KEY_SCENARIO, p.scenario) + ([COMMA] + t1);
    var u2 := FRAME_COMMA + (KEY_SENDER + (FRAME_COLON + (p.senderName + FRAME_CLOSE)));
    assert [COMMA] + t2 == [COMMA] + ([QUOTE] + (KEY_SENDER + (FRAME_COLON + (p.senderName + ([QUOTE] + [CLOSE_BRACE]))))) by {
      MemberThen(KEY_SENDER, p.senderName, [CLOSE_BRACE]);
    }
    CloseThen();
    CommaThen(KEY_SENDER + (FRAME_COLON + (p.senderName + FRAME_CLOSE)));
    var u1 := FRAME_COMMA + (KEY_MESSAGE + (FRAME_COLON + (p.customMessage + u2)));
    assert [QUOTE] + ([COMMA] + t1) == u1 by {
      MemberThen(KEY_MESSAGE, p.customMessage, [COMMA] + t2);
      CommaThen(KEY_MESSAGE + (FRAME_COLON + (p.customMessage + ([QUOTE] + ([COMMA] + t2)))));
      assert [QUOTE] + ([COMMA] + t2) == u2;
    }
    MemberThen(KEY_SCENARIO, p.scenario, [COMMA] + t1);
    OpenThen(KEY_SCENARIO + (FRAME_COLON + (p.scenario + ([QUOTE] + ([COMMA] + t1)))));
  }
}
