/** The "magic link" that carries an apology: the payload as JSON, escaped by
    encodeURIComponent, encoded in base64 and put after `#/?data=`; and the
    hash parser that reads it back on load and on every hash change. */
module ShareLink {
  import opened Wrappers
  import opened JsText
  import opened Json
  import UriComponent
  import Base64
  import Form = FormUrlEncoded

  const QUESTION: CodeUnit := '?' as int
  const TILDE: CodeUnit := '~' as int
  const GREATER: CodeUnit := '>' as int

  const HASH_PATH: Str := Ascii("#/")
  const DATA: Str := Ascii("data")
  const DATA_EQUALS: Str := DATA + [Form.EQUALS]
  /** `#/?data=` */
  const LINK_PREFIX: Str := HASH_PATH + [QUESTION] + DATA_EQUALS

  // ---------------------------------------------------------------------------
  // Encoding

  /** btoa(encodeURIComponent(JSON.stringify(p))), with the errors the two
      browser functions may throw. */
  function LinkData(p: Payload): Result<Str>
  {
    match UriComponent.Encode(Stringify(p))
    case Err(e) => Err(e)
    case Ok(u) => Base64.Btoa(u)
  }

  /** Neither step throws, whatever the payload holds (emoji, lone
      surrogates, quotes): JSON.stringify writes well-formed text, whose
      escapes are pure ASCII, which btoa accepts. */
  lemma {:induction false} LinkDataTotal(p: Payload)
    ensures UriComponent.Encode(Stringify(p)).Ok?
    ensures IsAscii(UriComponent.Encode(Stringify(p)).value)
    ensures LinkData(p).Ok?
  {
    StringifyWellFormed(p);
    UriComponent.UriSafeAscii(UriComponent.Encode(Stringify(p)).value);
  }

  /** The escaped JSON text that btoa encodes. */
  function Escaped(p: Payload): (u: Str)
    ensures IsAscii(u) && UriComponent.IsUriSafe(u)
    ensures LinkData(p) == Base64.Btoa(u)
  {
    LinkDataTotal(p);
    UriComponent.Encode(Stringify(p)).value
  }

  /** The base64 text of the link. */
  function LinkText(p: Payload): (r: Str)
    ensures LinkData(p) == Ok(r)
    ensures r == Base64.EncodeBytes(Escaped(p))
  {
    var u := Escaped(p);
    Base64.BtoaAscii(u);
    Base64.EncodeBytes(u)
  }

  /** The hash of the link as the source writes it: the base64 text put after
      `#/?data=` without further escaping. */
  function LinkHash(p: Payload): Str
  {
    LINK_PREFIX + LinkText(p)
  }

  /** The hash with the base64 text escaped once more by encodeURIComponent,
      so that its `+`, `/` and `=` travel as %2B, %2F and %3D. */
  function SafeLinkHash(p: Payload): Str
  {
    Base64.EncodeBytesChars(Escaped(p));
    AlphabetAscii(LinkText(p));
    AsciiWellFormed(LinkText(p));
    LINK_PREFIX + UriComponent.Encode(LinkText(p)).value
  }

  /** The full link as the source builds it: origin, path and the hash as
      written. */
  function ShareUrl(origin: Str, path: Str, p: Payload): Str
  {
    origin + path + LinkHash(p)
  }

  /** The full link with the corrected hash. */
  function SafeShareUrl(origin: Str, path: Str, p: Payload): Str
  {
    origin + path + SafeLinkHash(p)
  }

  // ---------------------------------------------------------------------------
  // Decoding

  /** String.prototype.includes. */
  predicate Includes(s: Str, pat: Str)
    decreases |s|
  {
    (|pat| <= |s| && s[..|pat|] == pat) || (s != [] && Includes(s[1..], pat))
  }

  /** hash.split('?')[1]: the text between the first and the second `?`, or
      undefined when there is none (which URLSearchParams reads as no
      parameters). */
  function QuerySegment(hash: Str): (r: Option<Str>)
    ensures r.Some? ==> Absent(r.value, QUESTION)
  {
    var pieces := Form.Split(hash, QUESTION);
    if |pieces| >= 2 then Some(pieces[1]) else None
  }

  /** new URLSearchParams(hash.split('?')[1]).get('data') */
  function DataParameter(hash: Str): Option<Str>
  {
    match QuerySegment(hash)
    case None => None
    case Some(q) => Form.Get(Form.Parse(q), DATA)
  }

  /** JSON.parse(decodeURIComponent(atob(data))) */
  function DecodeData(data: Str): Result<Payload>
  {
    match Base64.Atob(data)
    case Err(e) => Err(e)
    case Ok(bytes) =>
      match UriComponent.Decode(bytes)
      case Err(e) => Err(e)
      case Ok(json) => Json.Parse(json)
  }

  /** What reading a hash leads to. */
  datatype HashOutcome = NoLink | LinkError(error: JsError) | Loaded(payload: Payload)

  /** handleHash's reading of a hash: nothing unless it contains `data=` and
      its query holds a non-empty `data` parameter; then the decoded payload
      or the error that was thrown and caught. */
  function DecodeHash(hash: Str): (r: HashOutcome)
    ensures !Includes(hash, DATA_EQUALS) ==> r == NoLink
    ensures DataParameter(hash).None? || DataParameter(hash) == Some([]) ==> r == NoLink
    ensures r.Loaded? ==> DecodeData(DataParameter(hash).value) == Ok(r.payload)
    ensures r.LinkError? ==> DecodeData(DataParameter(hash).value) == Err(r.error)
  {
    if !Includes(hash, DATA_EQUALS) then NoLink
    else
      match DataParameter(hash)
      case None => NoLink
      case Some(data) =>
        if data == [] then NoLink
        else
          match DecodeData(data)
          case Err(e) => LinkError(e)
          case Ok(p) => Loaded(p)
  }

  // ---------------------------------------------------------------------------
  // Round trips

  lemma {:induction false} AlphabetAscii(s: Str)
    requires forall i | 0 <= i < |s| :: Base64.IsAlphabet(s[i]) || s[i] == Base64.PAD
    ensures IsAscii(s)
  {
  }

  /** The decoding chain undoes the encoding chain for every payload. */
  lemma {:induction false} LinkDataRoundTrip(p: Payload)
    ensures DecodeData(LinkText(p)) == Ok(p)
  {
    var s := Stringify(p);
    StringifyWellFormed(p);
    var u := Escaped(p);
    UriComponent.DecodeEncode(s);
    Base64.AtobBtoa(u);
    ParseStringify(p);
  }

  lemma {:induction false} IncludesAt(a: Str, b: Str, pat: Str)
    requires |pat| <= |b| && b[..|pat|] == pat
    ensures Includes(a + b, pat)
    decreases |a|
  {
    if a == [] {
      assert a + b == b;
    } else {
      assert (a + b)[1..] == a[1..] + b;
      IncludesAt(a[1..], b, pat);
    }
  }

  lemma {:induction false} DataIsLetters()
    ensures forall i | 0 <= i < |DATA| :: IsAsciiLower(DATA[i])
  {
    forall i | 0 <= i < |DATA| ensures IsAsciiLower(DATA[i]) {
      assert "data"[i] in "data";
    }
  }

  /** The hash `#/?data=` followed by text with no `?` and no `&` carries that
      text, form-decoded, as its `data` parameter. */
  lemma {:induction false} HashOfPrefix(x: Str)
    requires Absent(x, QUESTION) && Absent(x, Form.AMPERSAND)
    ensures Includes(LINK_PREFIX + x, DATA_EQUALS)
    ensures DataParameter(LINK_PREFIX + x) == Some(Form.DecodeComponent(x))
  {
    DataIsLetters();
    var query := DATA + [Form.EQUALS] + x;
    var hash := LINK_PREFIX + x;
    assert hash == HASH_PATH + [QUESTION] + query;
    assert hash == HASH_PATH + [QUESTION] + (DATA_EQUALS + x);
    IncludesAt(HASH_PATH + [QUESTION], DATA_EQUALS + x, DATA_EQUALS);
    Form.SplitAt(HASH_PATH, QUESTION, query);
    Form.SplitWithout(query, QUESTION);
    assert QuerySegment(hash) == Some(query);
    Form.SinglePair(DATA, x);
  }

  /** A base64 text has no `?`, `&` or `%`. */
  lemma {:induction false} Base64Plain(b: Str)
    requires forall i | 0 <= i < |b| :: Base64.IsAlphabet(b[i]) || b[i] == Base64.PAD
    ensures Absent(b, QUESTION) && Absent(b, Form.AMPERSAND) && Absent(b, Form.PERCENT)
  {
  }

  /** Escaped text has no `?`, `&` or `+`. */
  lemma {:induction false} UriSafePlain(e: Str)
    requires UriComponent.IsUriSafe(e)
    ensures Absent(e, QUESTION) && Absent(e, Form.AMPERSAND) && Absent(e, Form.PLUS)
  {
    forall i | 0 <= i < |e|
      ensures e[i] != QUESTION && e[i] != Form.AMPERSAND && e[i] != Form.PLUS
    {
      assert UriComponent.IsUnreserved(e[i]) || e[i] == UriComponent.PERCENT;
    }
  }

  lemma {:induction false} LinkTextNonEmpty(p: Payload)
    ensures LinkText(p) != []
  {
    assert |Stringify(p)| > 0;
    assert |Escaped(p)| > 0;
  }

  /** A hash `#/?data=` + x loads p when x form-decodes to a non-empty text
      that decodes to p. */
  lemma {:induction false} LoadsWhen(x: Str, b: Str, p: Payload)
    requires Absent(x, QUESTION) && Absent(x, Form.AMPERSAND)
    requires Form.DecodeComponent(x) == b && b != [] && DecodeData(b) == Ok(p)
    ensures DecodeHash(LINK_PREFIX + x) == Loaded(p)
  {
    HashOfPrefix(x);
  }

  /** The link as written round-trips when its base64 text holds no `+`
      (any `+` is read back as a space). */
  lemma {:induction false} LinkRoundTrip(p: Payload)
    requires Absent(LinkText(p), Base64.PLUS)
    ensures DecodeHash(LinkHash(p)) == Loaded(p)
  {
    var b := LinkText(p);
    Base64.EncodeBytesChars(Escaped(p));
    Base64Plain(b);
    Form.DecodeComponentPlain(b);
    LinkTextNonEmpty(p);
    LinkDataRoundTrip(p);
    LoadsWhen(b, b, p);
  }

  /** The corrected link round-trips for every payload. */
  lemma {:induction false} SafeLinkRoundTrip(p: Payload)
    ensures DecodeHash(SafeLinkHash(p)) == Loaded(p)
  {
    var b := LinkText(p);
    Base64.EncodeBytesChars(Escaped(p));
    AlphabetAscii(b);
    AsciiWellFormed(b);
    var e := UriComponent.Encode(b).value;
    assert SafeLinkHash(p) == LINK_PREFIX + e;
    Form.PercentDecodeEncode(b);
    UriSafePlain(e);
    Form.PlusAsSpaceWithout(e);
    assert Form.DecodeComponent(e) == b;
    LinkTextNonEmpty(p);
    LinkDataRoundTrip(p);
    LoadsWhen(e, b, p);
  }

  /** A link whose hash starts after its first `offset` code units and
      reads back as the payload. */
  predicate OpensAs(url: Str, offset: nat, p: Payload)
  {
    offset <= |url| && DecodeHash(url[offset..]) == Loaded(p)
  }

  /** The full link starts with the origin and the path; when its base64
      text holds no `+`, its hash part opens the payload it was made from. */
  lemma {:induction false} ShareUrlLoads(origin: Str, path: Str, p: Payload)
    requires Absent(LinkText(p), Base64.PLUS)
    ensures ShareUrl(origin, path, p)[..|origin| + |path|] == origin + path
    ensures OpensAs(ShareUrl(origin, path, p), |origin| + |path|, p)
  {
    var url := ShareUrl(origin, path, p);
    assert url[..|origin| + |path|] == origin + path;
    assert url[|origin| + |path|..] == LinkHash(p);
    LinkRoundTrip(p);
  }

  /** The corrected full link opens the payload it was made from, for every
      payload. */
  lemma {:induction false} SafeShareUrlLoads(origin: Str, path: Str, p: Payload)
    ensures SafeShareUrl(origin, path, p)[..|origin| + |path|] == origin + path
    ensures OpensAs(SafeShareUrl(origin, path, p), |origin| + |path|, p)
  {
    var url := SafeShareUrl(origin, path, p);
    assert url[..|origin| + |path|] == origin + path;
    assert url[|origin| + |path|..] == SafeLinkHash(p);
    SafeLinkRoundTrip(p);
  }

  // ---------------------------------------------------------------------------
  // Where the link as written breaks

  /** The octets of escaped text without `~` are never `>` or `~`, the only
      ASCII octets whose low six bits are 62. */
  lemma {:induction false} NoPlusOctet(u: Str)
    requires UriComponent.IsUriSafe(u) && Absent(u, TILDE)
    ensures IsAscii(u)
    ensures forall i | 0 <= i < |u| :: u[i] % 64 != 62
  {
    forall i | 0 <= i < |u| ensures u[i] < 0x80 && u[i] % 64 != 62 {
      assert UriComponent.IsUnreserved(u[i]) || u[i] == UriComponent.PERCENT;
    }
  }

  /** A payload none of whose fields holds `~` round-trips through the link
      as written: its base64 text then has no `+`. */
  lemma {:induction false} TildeFreeLinkRoundTrip(p: Payload)
    requires Absent(p.scenario, TILDE) && Absent(p.customMessage, TILDE) && Absent(p.senderName, TILDE)
    ensures Absent(LinkText(p), Base64.PLUS)
    ensures DecodeHash(LinkHash(p)) == Loaded(p)
  {
    StringifyAbsent(p, TILDE);
    StringifyWellFormed(p);
    UriComponent.EncodeAbsent(Stringify(p), TILDE);
    NoPlusInBase64(Escaped(p));
    LinkRoundTrip(p);
  }

  /** The base64 text of escaped text without `~` has no `+`. */
  lemma {:induction false} NoPlusInBase64(u: Str)
    requires UriComponent.IsUriSafe(u) && Absent(u, TILDE)
    ensures Absent(Base64.EncodeBytes(u), Base64.PLUS)
  {
    NoPlusOctet(u);
    Base64.NoPlusWithoutThirdPlusOctet(u);
    var g, pad := Base64.EncodeGroups(u), Base64.Padding(|u|);
    Base64.CountAbsent(pad, Base64.PLUS);
    Base64.CountConcat(g, pad, Base64.PLUS);
    Base64.CountZeroAbsent(Base64.EncodeBytes(u), Base64.PLUS);
  }

  /** URLSearchParams reads each `+` of a base64 text as a space, which atob
      then removes: one character fewer per `+`. */
  lemma {:induction false} SpacesRemoved(s: Str)
    requires Base64.AllAlphabet(s)
    ensures |Base64.RemoveAsciiWhitespace(Form.PlusAsSpace(s))| == |s| - Base64.Count(s, Base64.PLUS)
    decreases |s|
  {
    if s != [] {
      var t := Form.PlusAsSpace(s);
      assert t == [t[0]] + Form.PlusAsSpace(s[1..]);
      assert ([t[0]] + Form.PlusAsSpace(s[1..]))[1..] == Form.PlusAsSpace(s[1..]);
      assert Base64.IsAsciiWhitespace(t[0]) <==> s[0] == Base64.PLUS;
      SpacesRemoved(s[1..]);
    }
  }

  /** A padded base64 text of whole groups whose `+` are read as spaces is
      rejected by atob when their number is no multiple of four. */
  lemma {:induction false} SpacedPaddedFails(g: Str, pad: Str)
    requires Base64.AllAlphabet(g)
    requires pad == [Base64.PAD] || pad == [Base64.PAD, Base64.PAD]
    requires (|g| + |pad|) % 4 == 0 && Base64.Count(g, Base64.PLUS) % 4 != 0
    ensures Base64.Atob(Form.PlusAsSpace(g + pad)) == Err(InvalidCharacterError)
  {
    var x := Form.PlusAsSpace(g + pad);
    SpacedShape(g, pad);
    var n := |Base64.RemoveAsciiWhitespace(x)|;
    assert n == |g| + |pad| - Base64.Count(g, Base64.PLUS);
    NotMultipleAfterLoss(|g| + |pad|, Base64.Count(g, Base64.PLUS));
    assert n % 4 != 0;
    Base64.TruncatedPaddedFails(x);
  }

  /** What atob sees after removing the spaces: one character fewer per `+`,
      still ending in `=`. */
  lemma {:induction false} SpacedShape(g: Str, pad: Str)
    requires Base64.AllAlphabet(g)
    requires 1 <= |pad| && forall i | 0 <= i < |pad| :: pad[i] == Base64.PAD
    ensures var d := Base64.RemoveAsciiWhitespace(Form.PlusAsSpace(g + pad));
            |d| >= 1 && d[|d| - 1] == Base64.PAD && |d| == |g| + |pad| - Base64.Count(g, Base64.PLUS)
  {
    SpacedTail(g, pad);
    SpacesRemoved(g);
  }

  /** The spaces of a spaced base64 text go, its padding stays. */
  lemma {:induction false} SpacedTail(g: Str, pad: Str)
    requires forall i | 0 <= i < |pad| :: pad[i] == Base64.PAD
    ensures Base64.RemoveAsciiWhitespace(Form.PlusAsSpace(g + pad))
            == Base64.RemoveAsciiWhitespace(Form.PlusAsSpace(g)) + pad
  {
    Form.PlusAsSpaceConcat(g, pad);
    Form.PlusAsSpaceWithout(pad);
    Base64.RemoveWhitespaceConcat(Form.PlusAsSpace(g), pad);
    Base64.NoWhitespaceKept(pad);
  }

  lemma {:induction false} NotMultipleAfterLoss(n: int, k: int)
    requires n % 4 == 0 && k % 4 != 0
    ensures (n - k) % 4 != 0
  {
  }

  /** When the escaped JSON text is not a multiple of three long, its base64
      text ends in `=`; if that text holds a number of `+` that is not a
      multiple of four, the link as written fails to load: atob throws
      InvalidCharacterError, which handleHash catches. */
  lemma {:induction false} PlusBreaksPaddedLink(p: Payload)
    requires |Escaped(p)| % 3 != 0
    requires Base64.Count(LinkText(p), Base64.PLUS) % 4 != 0
    ensures DecodeHash(LinkHash(p)) == LinkError(InvalidCharacterError)
  {
    var b := LinkText(p);
    SpacedBase64Fails(Escaped(p));
    Base64.EncodeBytesChars(Escaped(p));
    Base64Plain(b);
    var x := Form.PlusAsSpace(b);
    assert Absent(x, Form.PERCENT);
    Form.PercentDecodeWithout(x);
    LoadFailsWhen(b, x);
  }

  /** atob of the base64 of octets whose number is no multiple of three,
      with its `+` read as spaces, throws when those are no multiple of four. */
  lemma {:induction false} SpacedBase64Fails(u: seq<Byte>)
    requires |u| % 3 != 0
    requires Base64.Count(Base64.EncodeBytes(u), Base64.PLUS) % 4 != 0
    ensures Base64.Atob(Form.PlusAsSpace(Base64.EncodeBytes(u))) == Err(InvalidCharacterError)
  {
    var g, pad := Base64.EncodeGroups(u), Base64.Padding(|u|);
    assert Base64.EncodeBytes(u) == g + pad;
    Base64.GroupsAlphabet(u);
    Base64.CountConcat(g, pad, Base64.PLUS);
    Base64.CountAbsent(pad, Base64.PLUS);
    SpacedPaddedFails(g, pad);
  }

  lemma {:induction false} LoadFailsWhen(b: Str, x: Str)
    requires Absent(b, QUESTION) && Absent(b, Form.AMPERSAND)
    requires Form.DecodeComponent(b) == x && x != []
    requires Base64.Atob(x) == Err(InvalidCharacterError)
    ensures DecodeHash(LINK_PREFIX + b) == LinkError(InvalidCharacterError)
  {
    HashOfPrefix(b);
  }

  // ---------------------------------------------------------------------------
  // A payload whose link as written does not load

  const BANG: CodeUnit := '!' as int

  /** Scenario LATE, message `Sorry!!~`, sender Alex. */
  const SAMPLE: Payload := Payload(Ascii("LATE"), Ascii("Sorry") + [BANG, BANG, TILDE], Ascii("Alex"))

  predicate AllUnreserved(s: Str)
  {
    forall i | 0 <= i < |s| :: UriComponent.IsUnreserved(s[i])
  }

  lemma {:induction false} SampleFields()
    ensures IsPlain(SAMPLE.scenario) && AllUnreserved(SAMPLE.scenario)
    ensures IsPlain(SAMPLE.customMessage) && AllUnreserved(SAMPLE.customMessage)
    ensures IsPlain(SAMPLE.senderName) && AllUnreserved(SAMPLE.senderName)
    ensures IsPlain(Ascii("Sorry")) && AllUnreserved(Ascii("Sorry"))
    ensures Absent(SAMPLE.scenario, TILDE) && Absent(Ascii("Sorry"), TILDE) && Absent(SAMPLE.senderName, TILDE)
  {
    forall i | 0 <= i < 4 ensures IsAsciiUpper(SAMPLE.scenario[i]) {
      assert "LATE"[i] in "LATE";
    }
    forall i | 0 <= i < 5 ensures IsAsciiAlphanumeric(Ascii("Sorry")[i]) {
      assert "Sorry"[i] in "Sorry";
    }
    forall i | 0 <= i < 4 ensures IsAsciiAlphanumeric(SAMPLE.senderName[i]) {
      assert "Alex"[i] in "Alex";
    }
    var m := SAMPLE.customMessage;
    forall i | 0 <= i < |m| ensures 0x20 <= m[i] < 0x80 && UriComponent.IsUnreserved(m[i]) {
      if i < 5 {
        assert m[i] == Ascii("Sorry")[i];
      } else {
        assert m[i] == BANG || m[i] == TILDE;
      }
    }
  }

  lemma {:induction false} KeysUnreserved()
    ensures AllUnreserved(KEY_SCENARIO) && AllUnreserved(KEY_MESSAGE) && AllUnreserved(KEY_SENDER)
  {
    KeysAreLetters();
  }

  /** encodeURIComponent of ASCII text, which never throws. */
  function E(s: Str): (r: Str)
    requires IsAscii(s)
    ensures UriComponent.Encode(s) == Ok(r)
  {
    AsciiWellFormed(s);
    UriComponent.Encode(s).value
  }

  /** encodeURIComponent of ASCII text, piece by piece. */
  lemma {:induction false} EncodeJoin(a: Str, b: Str)
    requires IsAscii(a) && IsAscii(b)
    ensures IsAscii(a + b) && E(a + b) == E(a) + E(b)
  {
    AsciiWellFormed(a);
    UriComponent.EncodeConcat(a, b);
  }

  /** The escaped frame around the fields. */
  const ESC_OPEN: Str := E(FRAME_OPEN)
  const ESC_COLON: Str := E(FRAME_COLON)
  const ESC_COMMA: Str := E(FRAME_COMMA)
  const ESC_CLOSE: Str := E(FRAME_CLOSE)

  lemma {:induction false} FramesEscaped()
    ensures |ESC_OPEN| == 6 && |ESC_COLON| == 9 && |ESC_COMMA| == 9 && |ESC_CLOSE| == 6
    ensures UriComponent.IsUriSafe(ESC_OPEN) && Absent(ESC_OPEN, TILDE)
    ensures UriComponent.IsUriSafe(ESC_COLON) && Absent(ESC_COLON, TILDE)
    ensures UriComponent.IsUriSafe(ESC_COMMA) && Absent(ESC_COMMA, TILDE)
    ensures UriComponent.IsUriSafe(ESC_CLOSE) && Absent(ESC_CLOSE, TILDE)
  {
    UriComponent.EncodeEscaped(FRAME_OPEN);
    UriComponent.EncodeEscaped(FRAME_COLON);
    UriComponent.EncodeEscaped(FRAME_COMMA);
    UriComponent.EncodeEscaped(FRAME_CLOSE);
    AsciiWellFormed(FRAME_OPEN);
    AsciiWellFormed(FRAME_COLON);
    AsciiWellFormed(FRAME_COMMA);
    AsciiWellFormed(FRAME_CLOSE);
    UriComponent.EncodeAbsent(FRAME_OPEN, TILDE);
    UriComponent.EncodeAbsent(FRAME_COLON, TILDE);
    UriComponent.EncodeAbsent(FRAME_COMMA, TILDE);
    UriComponent.EncodeAbsent(FRAME_CLOSE, TILDE);
  }

  lemma {:induction false} PlainAscii(s: Str)
    requires IsPlain(s)
    ensures IsAscii(s)
  {
  }

  /** A piece made of unreserved ASCII is escaped as itself. */
  lemma {:induction false} EscapedUnreserved(s: Str)
    requires IsAscii(s) && AllUnreserved(s)
    ensures E(s) == s
  {
    UriComponent.EncodeUnreserved(s);
  }

  /** One member of the frame: an opening piece, a key, `":"`, a value and
      what follows. */
  lemma {:induction false} SegmentEscaped(f: Str, k: Str, v: Str, rest: Str)
    requires IsAscii(f) && IsAscii(rest) && IsPlain(k) && IsPlain(v)
    requires AllUnreserved(k) && AllUnreserved(v)
    ensures IsAscii(f + (k + (FRAME_COLON + (v + rest))))
    ensures E(f + (k + (FRAME_COLON + (v + rest)))) == E(f) + (k + (ESC_COLON + (v + E(rest))))
  {
    PlainAscii(k);
    PlainAscii(v);
    EscapedUnreserved(k);
    EscapedUnreserved(v);
    EncodeJoin(v, rest);
    EncodeJoin(FRAME_COLON, v + rest);
    EncodeJoin(k, FRAME_COLON + (v + rest));
    EncodeJoin(f, k + (FRAME_COLON + (v + rest)));
  }

  /** The escaped JSON text of a payload whose fields are unreserved: the
      fields as they are, in the escaped frame. */
  lemma {:induction false} EscapedLayout(p: Payload)
    requires IsPlain(p.scenario) && IsPlain(p.customMessage) && IsPlain(p.senderName)
    requires AllUnreserved(p.scenario) && AllUnreserved(p.customMessage) && AllUnreserved(p.senderName)
    ensures Escaped(p)
            == ESC_OPEN + (KEY_SCENARIO + (ESC_COLON + (p.scenario
               + (ESC_COMMA + (KEY_MESSAGE + (ESC_COLON + (p.customMessage
               + (ESC_COMMA + (KEY_SENDER + (ESC_COLON + (p.senderName + ESC_CLOSE)))))))))))
  {
    StringifyLayout(p);
    KeysArePlain();
    KeysUnreserved();
    var s3 := FRAME_COMMA + (KEY_SENDER + (FRAME_COLON + (p.senderName + FRAME_CLOSE)));
    SegmentEscaped(FRAME_COMMA, KEY_SENDER, p.senderName, FRAME_CLOSE);
    var s2 := FRAME_COMMA + (KEY_MESSAGE + (FRAME_COLON + (p.customMessage + s3)));
    SegmentEscaped(FRAME_COMMA, KEY_MESSAGE, p.customMessage, s3);
    var s1 := FRAME_OPEN + (KEY_SCENARIO + (FRAME_COLON + (p.scenario + s2)));
    SegmentEscaped(FRAME_OPEN, KEY_SCENARIO, p.scenario, s2);
    assert Stringify(p) == s1;
  }

  lemma {:induction false} AbsentJoin(a: Str, b: Str, c: int)
    requires Absent(a, c) && Absent(b, c)
    ensures Absent(a + b, c)
  {
  }

  lemma {:induction false} SafeParts(a: Str, m: Str, b: Str)
    requires UriComponent.IsUriSafe(a + (m + b))
    ensures UriComponent.IsUriSafe(a) && UriComponent.IsUriSafe(b)
  {
    forall i | 0 <= i < |a| ensures UriComponent.IsUnreserved(a[i]) || a[i] == UriComponent.PERCENT {
      assert a[i] == (a + (m + b))[i];
    }
    forall i | 0 <= i < |b| ensures UriComponent.IsUnreserved(b[i]) || b[i] == UriComponent.PERCENT {
      assert b[i] == (a + (m + b))[|a| + |m| + i];
    }
  }

  /** The escaped JSON text of the sample: 63 code units, then `!!~`, then 38
      more, with no other `~`. */
  lemma {:induction false} SampleSplit() returns (pre: Str, post: Str)
    ensures Escaped(SAMPLE) == pre + ([BANG, BANG, TILDE] + post)
    ensures |pre| == 63 && |post| == 38
    ensures Absent(pre, TILDE) && Absent(post, TILDE)
  {
    SampleFields();
    EscapedLayout(SAMPLE);
    FramesEscaped();
    KeysAreLetters();
    var sc, sorry, nm := SAMPLE.scenario, Ascii("Sorry"), SAMPLE.senderName;
    var tail := [BANG, BANG, TILDE];
    post := ESC_COMMA + (KEY_SENDER + (ESC_COLON + (nm + ESC_CLOSE)));
    var z := tail + post;
    var p7 := ESC_COLON + sorry;
    var p6 := KEY_MESSAGE + p7;
    var p5 := ESC_COMMA + p6;
    var p4 := sc + p5;
    var p3 := ESC_COLON + p4;
    var p2 := KEY_SCENARIO + p3;
    pre := ESC_OPEN + p2;
    Assoc(sorry, tail, post);
    Assoc(ESC_COLON, sorry, z);
    Assoc(KEY_MESSAGE, p7, z);
    Assoc(ESC_COMMA, p6, z);
    Assoc(sc, p5, z);
    Assoc(ESC_COLON, p4, z);
    Assoc(KEY_SCENARIO, p3, z);
    Assoc(ESC_OPEN, p2, z);
    AbsentJoin(ESC_COLON, sorry, TILDE);
    AbsentJoin(KEY_MESSAGE, p7, TILDE);
    AbsentJoin(ESC_COMMA, p6, TILDE);
    AbsentJoin(sc, p5, TILDE);
    AbsentJoin(ESC_COLON, p4, TILDE);
    AbsentJoin(KEY_SCENARIO, p3, TILDE);
    AbsentJoin(ESC_OPEN, p2, TILDE);
    AbsentJoin(nm, ESC_CLOSE, TILDE);
    AbsentJoin(ESC_COLON, nm + ESC_CLOSE, TILDE);
    AbsentJoin(KEY_SENDER, ESC_COLON + (nm + ESC_CLOSE), TILDE);
    AbsentJoin(ESC_COMMA, KEY_SENDER + (ESC_COLON + (nm + ESC_CLOSE)), TILDE);
  }

  /** The base64 text of the sample's link holds exactly one `+`, from the
      `~` at escaped index 65, and the escaped text is 104 code units long. */
  lemma {:induction false} SamplePlusCount()
    ensures |Escaped(SAMPLE)| == 104
    ensures Base64.Count(LinkText(SAMPLE), Base64.PLUS) == 1
  {
    var pre, post := SampleSplit();
    OneTildePlus(Escaped(SAMPLE), pre, post);
  }

  /** Escaped text with one `~`, the third octet of a whole group, and no
      other: its base64 text has exactly one `+`. */
  lemma {:induction false} OneTildePlus(u: Str, pre: Str, post: Str)
    requires UriComponent.IsUriSafe(u) && u == pre + ([BANG, BANG, TILDE] + post)
    requires |pre| == 63 && |post| == 38
    requires Absent(pre, TILDE) && Absent(post, TILDE)
    ensures |u| == 104 && Base64.Count(Base64.EncodeBytes(u), Base64.PLUS) == 1
  {
    SafeParts(pre, [BANG, BANG, TILDE], post);
    NoPlusOctet(pre);
    NoPlusOctet(post);
    Assoc(pre, [BANG, BANG, TILDE], post);
    Base64.SinglePlus(pre, BANG, BANG, TILDE, post);
  }

  /** The link as written for the sample does not load: its one `+` comes
      back as a space that atob drops; the padded text is then one character
      short, and atob throws. */
  lemma {:induction false} TildeCounterexample()
    ensures Base64.Count(LinkText(SAMPLE), Base64.PLUS) == 1
    ensures DecodeHash(LinkHash(SAMPLE)) == LinkError(InvalidCharacterError)
  {
    SamplePlusCount();
    PlusBreaksPaddedLink(SAMPLE);
  }

  /** The full link the copy handlers build for the sample, whatever the
      origin and the path, is caught as an error by the page it opens and
      does not open the sample. */
  lemma {:induction false} SampleUrlFails(origin: Str, path: Str)
    ensures DecodeHash(ShareUrl(origin, path, SAMPLE)[|origin| + |path|..]) == LinkError(InvalidCharacterError)
    ensures !OpensAs(ShareUrl(origin, path, SAMPLE), |origin| + |path|, SAMPLE)
  {
    var url := ShareUrl(origin, path, SAMPLE);
    assert url[|origin| + |path|..] == LinkHash(SAMPLE);
    TildeCounterexample();
  }
}
