/** The scenarios an apology can be about, and the choice of the note's text
    from the language model's answer (getApology). */
module Apology {
  import opened Wrappers
  import opened JsText

  // ---------------------------------------------------------------------------
  // String.prototype.trim

  /** The code units trim removes: WhiteSpace and LineTerminator of ECMA-262
      (sections 12.2 and 12.3): tab, line tabulation, form feed, space,
      no-break space, byte order mark, the other Zs space separators, line
      feed, carriage return, line and paragraph separators. */
  predicate IsTrimmable(c: int)
  {
    || c in {0x9, 0xA, 0xB, 0xC, 0xD, 0x20, 0xA0, 0x1680, 0x2028, 0x2029, 0x202F, 0x205F, 0x3000, 0xFEFF}
    || 0x2000 <= c <= 0x200A
  }

  /** The text without its leading white space. */
  function TrimStart(s: Str): (r: Str)
    ensures |r| <= |s| && r == s[|s| - |r|..]
    ensures forall i | 0 <= i < |s| - |r| :: IsTrimmable(s[i])
    ensures r != [] ==> !IsTrimmable(r[0])
    decreases |s|
  {
    if s != [] && IsTrimmable(s[0]) then TrimStart(s[1..]) else s
  }

  /** The text without its trailing white space. */
  function TrimEnd(s: Str): (r: Str)
    ensures |r| <= |s| && r == s[..|r|]
    ensures forall i | |r| <= i < |s| :: IsTrimmable(s[i])
    ensures r != [] ==> !IsTrimmable(r[|r| - 1])
    decreases |s|
  {
    if s != [] && IsTrimmable(s[|s| - 1]) then TrimEnd(s[..|s| - 1]) else s
  }

  /** trim: empty exactly when the text is white space only; otherwise it
      starts and ends with a code unit that is not white space. */
  function Trim(s: Str): (r: Str)
    ensures r == [] <==> forall i | 0 <= i < |s| :: IsTrimmable(s[i])
    ensures r != [] ==> !IsTrimmable(r[0]) && !IsTrimmable(r[|r| - 1])
  {
    TrimBothEnds(s);
    TrimEnd(TrimStart(s))
  }

  lemma {:induction false} TrimBothEnds(s: Str)
    ensures var r := TrimEnd(TrimStart(s));
            (r == [] <==> forall i | 0 <= i < |s| :: IsTrimmable(s[i]))
            && (r != [] ==> !IsTrimmable(r[0]))
  {
    var t := TrimStart(s);
    var r := TrimEnd(t);
    if r == [] {
      if t != [] {
        assert false;
      }
    } else {
      assert r[0] == t[0];
    }
  }

  /** Trimming twice is trimming once. */
  lemma {:induction false} TrimIdempotent(s: Str)
    ensures Trim(Trim(s)) == Trim(s)
  {
    var r := Trim(s);
    if r != [] {
      assert TrimStart(r) == r;
      assert TrimEnd(r) == r;
    }
  }

  // ---------------------------------------------------------------------------
  // The note

  /** What the language model call gave: a failure (caught), or a response
      whose text may be missing. */
  datatype Answer = Failed | Answered(text: Option<Str>)

  /** The note used when the response has no text, or only white space. */
  const FALLBACK: Str := Ascii("I'm super sorry! Please forgive me! ") + PLEADING_FACE

  /** U+1F97A, as its surrogate pair. */
  const PLEADING_FACE: Str := [0xD83E, 0xDD7A]

  lemma {:induction false} PleadingFace()
    ensures PLEADING_FACE == EncodeCodePoint(0x1F97A)
  {
    PairRoundTrip(0xD83E, 0xDD7A);
  }

  /** The note used when the call failed. */
  function ErrorNote(scenario: Str): (r: Str)
    ensures |r| == |NOTE_BEFORE| + |scenario| + |NOTE_AFTER| > |scenario|
    ensures r[|NOTE_BEFORE|..|NOTE_BEFORE| + |scenario|] == scenario
  {
    var r := NOTE_BEFORE + scenario + NOTE_AFTER;
    assert r[|NOTE_BEFORE|..|NOTE_BEFORE| + |scenario|] == scenario;
    r
  }

  const NOTE_BEFORE: Str := Ascii("I'm so sorry about ")
  const NOTE_AFTER: Str := Ascii("! ") + PLEADING_FACE + Ascii(" Hope you can forgive me!")


  /** getApology: the trimmed text of the response, or the fallback when that
      is empty or missing; the error note when the call failed. Never empty. */
  function GetApology(scenario: Str, answer: Answer): (r: Str)
    ensures r != []
    ensures answer.Failed? ==> r == ErrorNote(scenario)
    ensures answer.Answered? ==> r == FALLBACK || (answer.text.Some? && r == Trim(answer.text.value))
  {
    match answer
    case Failed => ErrorNote(scenario)
    case Answered(None) => FALLBACK
    case Answered(Some(text)) =>
      var t := Trim(text);
      if t == [] then FALLBACK else t
  }

  /** A response with some text that is not white space is used, trimmed;
      one without is replaced by the fallback. */
  lemma {:induction false} AnsweredNote(scenario: Str, text: Str)
    ensures (exists i | 0 <= i < |text| :: !IsTrimmable(text[i]))
            ==> GetApology(scenario, Answered(Some(text))) == Trim(text)
    ensures (forall i | 0 <= i < |text| :: IsTrimmable(text[i]))
            ==> GetApology(scenario, Answered(Some(text))) == FALLBACK
  {
    if exists i | 0 <= i < |text| :: !IsTrimmable(text[i]) {
      assert Trim(text) != [];
    }
  }

  // ---------------------------------------------------------------------------
  // Scenarios

  datatype Scenario = Scenario(id: Str, prompt: Str)

  const SCENARIOS: seq<Scenario> := [
    Scenario(ID_LATE, Ascii("I was late")),
    Scenario(ID_FORGOT, Ascii("I forgot something important")),
    Scenario(ID_FOOD, Ascii("I accidentally ate your food")),
    Scenario(ID_GHOSTED, Ascii("I accidentally ghosted for a bit")),
    Scenario(ID_CLUMSY, Ascii("I broke something of yours"))
  ]

  const ID_LATE: Str := Ascii("LATE")
  const ID_FORGOT: Str := Ascii("FORGOT")
  const ID_FOOD: Str := Ascii("FOOD")
  const ID_GHOSTED: Str := Ascii("GHOSTED")
  const ID_CLUMSY: Str := Ascii("CLUMSY")

  /** Array.prototype.find by id: the first scenario with that id. */
  function Find(table: seq<Scenario>, id: Str): (r: Option<Scenario>)
    ensures r.None? <==> forall i | 0 <= i < |table| :: table[i].id != id
    ensures r.Some? ==> exists i | 0 <= i < |table| ::
              table[i] == r.value && r.value.id == id && forall j | 0 <= j < i :: table[j].id != id
    decreases |table|
  {
    if table == [] then None
    else if table[0].id == id then Some(table[0])
    else
      var r := Find(table[1..], id);
      if r.Some? then
        ghost var i :| 0 <= i < |table[1..]| && table[1..][i] == r.value && r.value.id == id
                       && forall j | 0 <= j < i :: table[1..][j].id != id;
        assert table[i + 1] == r.value;
        r
      else r
  }

  /** `scenario?.prompt || selectedScenario`: the prompt of the selected
      scenario, or the selection itself when there is no such scenario or its
      prompt is empty. */
  function PromptFor(selected: Str): (r: Str)
    ensures (forall i | 0 <= i < |SCENARIOS| :: SCENARIOS[i].id != selected) ==> r == selected
  {
    match Find(SCENARIOS, selected)
    case None => selected
    case Some(s) => if s.prompt == [] then selected else s.prompt
  }

  /** The ids are distinct and the prompts non-empty, so each id selects its
      own prompt. */
  lemma {:induction false} KnownPrompts()
    ensures forall i | 0 <= i < |SCENARIOS| :: PromptFor(SCENARIOS[i].id) == SCENARIOS[i].prompt
  {
    var ids := seq(|SCENARIOS|, i requires 0 <= i < |SCENARIOS| => SCENARIOS[i].id);
    assert ids[0][0] == 'L' as int && ids[1][0] == 'F' as int && ids[2][0] == 'F' as int;
    assert ids[3][0] == 'G' as int && ids[4][0] == 'C' as int;
    assert ids[1][1] == 'O' as int && ids[2][1] == 'O' as int && ids[1][2] == 'R' as int && ids[2][2] == 'O' as int;
    forall i | 0 <= i < |SCENARIOS| ensures PromptFor(SCENARIOS[i].id) == SCENARIOS[i].prompt {
      assert SCENARIOS[i].prompt != [];
      var r := Find(SCENARIOS, SCENARIOS[i].id);
      assert r.Some?;
      var k :| 0 <= k < |SCENARIOS| && SCENARIOS[k] == r.value && r.value.id == SCENARIOS[i].id
               && forall j | 0 <= j < k :: SCENARIOS[j].id != SCENARIOS[i].id;
      assert ids[k] == ids[i];
      assert k == i;
    }
  }
}
