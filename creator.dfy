/** The two-step creator (components/Creator.tsx): the details form, then a
    review page that makes the share link once. */
module CreatorFlow {
  import opened Wrappers
  import opened JsText
  import opened Json
  import ShareLink

  /** What the component renders. */
  datatype Page = Details | Review(linkShown: bool)

  /** `selectedScenario || ''`: the scenario is empty exactly when nothing,
      or the empty id, is selected; otherwise it is the selection. */
  function ScenarioOrEmpty(selected: Option<Str>): (r: Str)
    ensures r == [] <==> selected.None? || selected == Some([])
    ensures r != [] ==> selected == Some(r)
  {
    if selected.Some? then selected.value else []
  }

  class Creator {
    var step: nat
    var senderName: Str
    var selectedScenario: Option<Str>
    var isGenerating: bool
    var generatedText: Str
    var shareLink: Str

    predicate Valid()
      reads this
    {
      step == 1 || step == 2
    }

    /** Step one renders the form; step two the review, with the copy button
      until a link exists and the confirmation after. */
    function PageShown(): (p: Page)
      requires Valid()
      reads this
      ensures p == Details <==> step == 1
      ensures p.Review? ==> (p.linkShown <==> shareLink != [])
    {
      if step == 1 then Details else Review(shareLink != [])
    }

    /** The payload the link is made from. */
    function LinkPayload(): (p: Payload)
      reads this
      ensures p.scenario == ScenarioOrEmpty(selectedScenario)
      ensures p.customMessage == generatedText && p.senderName == senderName
    {
      Payload(ScenarioOrEmpty(selectedScenario), generatedText, senderName)
    }

    constructor()
      ensures Valid() && PageShown() == Details
      ensures senderName == [] && selectedScenario == None && !isGenerating
      ensures generatedText == [] && shareLink == []
    {
      step := 1;
      senderName := [];
      selectedScenario := None;
      isGenerating := false;
      generatedText := [];
      shareLink := [];
    }

    /** The name input. */
    method SetSenderName(name: Str)
      requires Valid() && PageShown() == Details
      modifies this
      ensures Valid() && senderName == name
      ensures step == old(step) && selectedScenario == old(selectedScenario)
      ensures isGenerating == old(isGenerating) && generatedText == old(generatedText)
      ensures shareLink == old(shareLink)
    {
      senderName := name;
    }

    /** A scenario button. */
    method SelectScenario(id: Str)
      requires Valid() && PageShown() == Details
      modifies this
      ensures Valid() && selectedScenario == Some(id)
      ensures step == old(step) && senderName == old(senderName)
      ensures isGenerating == old(isGenerating) && generatedText == old(generatedText)
      ensures shareLink == old(shareLink)
    {
      selectedScenario := Some(id);
    }

    /** handleGenerate up to its await: without a selection or a name nothing
      happens; otherwise generating starts and the selection and the name
      are what the note is asked for. */
    method BeginGenerate() returns (req: Option<(Str, Str)>)
      requires Valid() && PageShown() == Details
      modifies this
      ensures Valid()
      ensures req.None? <==> selectedScenario.None? || selectedScenario == Some([]) || senderName == []
      ensures req.None? ==> isGenerating == old(isGenerating)
      ensures req.Some? ==> isGenerating && req.value == (selectedScenario.value, senderName)
      ensures step == old(step) && senderName == old(senderName)
      ensures selectedScenario == old(selectedScenario)
      ensures generatedText == old(generatedText) && shareLink == old(shareLink)
    {
      if selectedScenario.None? || selectedScenario == Some([]) || senderName == [] {
        return None;
      }
      isGenerating := true;
      req := Some((selectedScenario.value, senderName));
    }

    /** handleGenerate after its await: the note is kept and the review
      shown. */
    method FinishGenerate(text: Str)
      requires Valid()
      modifies this
      ensures Valid() && step == 2 && PageShown() == Review(shareLink != [])
      ensures generatedText == text && !isGenerating
      ensures senderName == old(senderName) && selectedScenario == old(selectedScenario)
      ensures shareLink == old(shareLink)
    {
      generatedText := text;
      isGenerating := false;
      step := 2;
    }

    /** handleCopyLink, the button shown on the review until a link exists:
      the link to the current payload, built as in App.handleCopy, and the
      confirmation in place of the button. */
    method CopyLink(origin: Str, path: Str) returns (url: Str)
      requires Valid() && PageShown() == Review(false)
      modifies this
      ensures Valid() && shareLink == url && PageShown() == Review(true)
      ensures step == old(step) && senderName == old(senderName)
      ensures selectedScenario == old(selectedScenario)
      ensures isGenerating == old(isGenerating) && generatedText == old(generatedText)
      ensures url == ShareLink.ShareUrl(origin, path, LinkPayload())
    {
      var p := LinkPayload();
      url := ShareLink.ShareUrl(origin, path, p);
      shareLink := url;
      assert LinkPayload() == p;
    }

    /** "Start Over": back to the form, everything else kept. */
    method StartOver()
      requires Valid() && PageShown().Review?
      modifies this
      ensures Valid() && PageShown() == Details
      ensures senderName == old(senderName) && selectedScenario == old(selectedScenario)
      ensures isGenerating == old(isGenerating) && generatedText == old(generatedText)
      ensures shareLink == old(shareLink)
    {
      step := 1;
    }
  }

  /** Start Over keeps the link, and nothing clears it: after a copy, going
      back and generating a new note shows the earlier link's confirmation
      again, and no copy button for the new note. */
  method RegenerateAfterCopy(c: Creator, text: Str)
    requires c.Valid() && c.PageShown() == Review(true)
    requires c.selectedScenario.Some? && c.selectedScenario != Some([]) && c.senderName != []
    modifies c
    ensures c.Valid() && c.PageShown() == Review(true)
    ensures c.generatedText == text && c.shareLink == old(c.shareLink)
  {
    c.StartOver();
    var req := c.BeginGenerate();
    assert req.Some?;
    c.FinishGenerate(text);
  }
}
