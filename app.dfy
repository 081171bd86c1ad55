/** The main view (App.tsx): a mode and an apology payload, changed by the
    handlers, and a render function that picks one of five screens; and the
    goal-based whack-a-mole game that unlocks the message. */
module MendApp {
  import opened Wrappers
  import opened JsText
  import opened Json
  import ShareLink
  import Apology

  datatype Mode = Landing | Creator | Game | Resolution

  /** What the render function returns: one of the five screens, or null. */
  datatype Screen = LandingView | ComposeView | ShareView | GameView | ResolutionView | Blank

  /** The values handleGenerate captured before it awaited the note: the
      selected scenario, its prompt and the sender's name. */
  datatype Request = Request(scenario: Str, prompt: Str, senderName: Str)

  /** The payload holds a message the share screen can show. */
  predicate HasMessage(payload: Option<Payload>)
  {
    payload.Some? && payload.value.customMessage != []
  }

  /** The render guards, tried in order. */
  function ScreenOf(mode: Mode, payload: Option<Payload>): (s: Screen)
    ensures s == LandingView <==> mode == Landing
    ensures s == GameView <==> mode == Game
    ensures s == ShareView <==> mode == Creator && HasMessage(payload)
    ensures s == ComposeView <==> mode == Creator && !HasMessage(payload)
    ensures s == ResolutionView <==> mode == Resolution && payload.Some?
    ensures s == Blank <==> mode == Resolution && payload.None?
  {
    match mode
    case Landing => LandingView
    case Creator => if !HasMessage(payload) then ComposeView else ShareView
    case Game => GameView
    case Resolution => if payload.Some? then ResolutionView else Blank
  }

  /** How mode and payload go together in every reachable state: nothing is
      loaded on the landing screen, a payload chosen on the creator screens
      has a message, and the game and the resolution have a payload. */
  predicate Consistent(mode: Mode, payload: Option<Payload>)
  {
    && (mode == Landing ==> payload.None?)
    && (mode == Creator && payload.Some? ==> payload.value.customMessage != [])
    && (mode == Game || mode == Resolution ==> payload.Some?)
  }

  /** In a consistent state the render function never returns null. */
  lemma {:induction false} ConsistentNeverBlank(mode: Mode, payload: Option<Payload>)
    requires Consistent(mode, payload)
    ensures ScreenOf(mode, payload) != Blank
  {
  }

  class App {
    var mode: Mode
    var payload: Option<Payload>
    var senderName: Str
    var selectedScenario: Option<Str>
    var loading: bool
    var copyFeedback: bool

    predicate Valid()
      reads this
    {
      Consistent(mode, payload)
    }

    function View(): Screen
      reads this
    {
      ScreenOf(mode, payload)
    }

    /** The first render, before the mount-time handleHash runs. */
    constructor()
      ensures Valid() && View() == LandingView
      ensures mode == Landing && payload == None && senderName == [] && selectedScenario == None
      ensures !loading && !copyFeedback
    {
      mode := Landing;
      payload := None;
      senderName := [];
      selectedScenario := None;
      loading := false;
      copyFeedback := false;
    }

    /** handleHash, on mount and on every hash change: a link that decodes
      sets the payload and the game together; anything else (no `data=`, no
      or an empty `data` parameter, an error thrown and caught) changes
      nothing. */
    method HandleHash(hash: Str)
      requires Valid()
      modifies this
      ensures Valid()
      ensures match ShareLink.DecodeHash(hash)
              case Loaded(p) => mode == Game && payload == Some(p)
              case _ => mode == old(mode) && payload == old(payload)
      ensures senderName == old(senderName) && selectedScenario == old(selectedScenario)
      ensures loading == old(loading) && copyFeedback == old(copyFeedback)
    {
      var outcome := ShareLink.DecodeHash(hash);
      if outcome.Loaded? {
        payload := Some(outcome.payload);
        mode := Game;
      }
    }

    /** The "Start Apology" button of the landing screen. */
    method StartApology()
      requires Valid() && View() == LandingView
      modifies this
      ensures Valid() && mode == Creator && View() == ComposeView
      ensures payload == old(payload) && senderName == old(senderName)
      ensures selectedScenario == old(selectedScenario)
      ensures loading == old(loading) && copyFeedback == old(copyFeedback)
    {
      mode := Creator;
    }

    /** The name input of the compose screen. */
    method SetSenderName(name: Str)
      requires Valid() && View() == ComposeView
      modifies this
      ensures Valid() && senderName == name
      ensures mode == old(mode) && payload == old(payload) && selectedScenario == old(selectedScenario)
      ensures loading == old(loading) && copyFeedback == old(copyFeedback)
    {
      senderName := name;
    }

    /** A scenario button of the compose screen. */
    method SelectScenario(id: Str)
      requires Valid() && View() == ComposeView
      modifies this
      ensures Valid() && selectedScenario == Some(id)
      ensures mode == old(mode) && payload == old(payload) && senderName == old(senderName)
      ensures loading == old(loading) && copyFeedback == old(copyFeedback)
    {
      selectedScenario := Some(id);
    }

    /** handleGenerate up to its await: nothing happens unless a scenario is
      selected and the name is non-empty; otherwise loading starts and the
      request for the note is returned. */
    method BeginGenerate() returns (req: Option<Request>)
      requires Valid() && View() == ComposeView
      modifies this
      ensures Valid()
      ensures req.None? <==> selectedScenario.None? || selectedScenario == Some([]) || senderName == []
      ensures req.None? ==> loading == old(loading)
      ensures req.Some? ==> loading && req.value == Request(selectedScenario.value,
                                                            Apology.PromptFor(selectedScenario.value),
                                                            senderName)
      ensures mode == old(mode) && payload == old(payload) && senderName == old(senderName)
      ensures selectedScenario == old(selectedScenario) && copyFeedback == old(copyFeedback)
    {
      if selectedScenario.None? || selectedScenario == Some([]) || senderName == [] {
        return None;
      }
      loading := true;
      var scenario := selectedScenario.value;
      req := Some(Request(scenario, Apology.PromptFor(scenario), senderName));
    }

    /** handleGenerate after its await: the payload of the selected scenario,
      the note and the name, and the share screen. The note is never empty,
      so generation never returns to the compose screen. */
    method FinishGenerate(req: Request, answer: Apology.Answer)
      requires Valid()
      modifies this
      ensures Valid()
      ensures payload == Some(Payload(req.scenario, Apology.GetApology(req.prompt, answer), req.senderName))
      ensures mode == Creator && !loading && View() == ShareView
      ensures senderName == old(senderName) && selectedScenario == old(selectedScenario)
      ensures copyFeedback == old(copyFeedback)
    {
      var text := Apology.GetApology(req.prompt, answer);
      payload := Some(Payload(req.scenario, text, req.senderName));
      loading := false;
      mode := Creator;
    }

    /** handleCopy: the link to the payload as the source builds it, with the
      base64 text unescaped after `#/?data=` (it reads back as the payload
      when that text holds no `+`, by ShareLink.ShareUrlLoads, and need not
      otherwise, by ShareLink.SampleUrlFails), and the "Copied!" feedback
      on. */
    method HandleCopy(origin: Str, path: Str) returns (url: Str)
      requires Valid() && View() == ShareView
      modifies this
      ensures Valid() && copyFeedback
      ensures mode == old(mode) && payload == old(payload) && payload.Some?
      ensures senderName == old(senderName)
      ensures selectedScenario == old(selectedScenario) && loading == old(loading)
      ensures url == ShareLink.ShareUrl(origin, path, payload.value)
    {
      url := ShareLink.ShareUrl(origin, path, payload.value);
      copyFeedback := true;
    }

    /** The timeout that turns the copy feedback off. */
    method CopyFeedbackExpired()
      requires Valid()
      modifies this
      ensures Valid() && !copyFeedback
      ensures mode == old(mode) && payload == old(payload) && senderName == old(senderName)
      ensures selectedScenario == old(selectedScenario) && loading == old(loading)
    {
      copyFeedback := false;
    }

    /** handleWhackComplete, called by the game once its goal is reached: the
      resolution screen, which shows the loaded payload. */
    method WhackComplete()
      requires Valid() && (mode == Game || mode == Resolution)
      modifies this
      ensures Valid() && mode == Resolution && View() == ResolutionView
      ensures payload == old(payload) && senderName == old(senderName)
      ensures selectedScenario == old(selectedScenario)
      ensures loading == old(loading) && copyFeedback == old(copyFeedback)
    {
      mode := Resolution;
    }

    /** "Cancel / Start Over" on the share screen: no payload, landing. */
    method StartOver()
      requires Valid() && View() == ShareView
      modifies this
      ensures Valid() && mode == Landing && payload == None && View() == LandingView
      ensures senderName == old(senderName) && selectedScenario == old(selectedScenario)
      ensures loading == old(loading) && copyFeedback == old(copyFeedback)
    {
      payload := None;
      mode := Landing;
    }
  }

  // ---------------------------------------------------------------------------
  // MoleGame

  /** Hits needed to unlock the message. */
  const GOAL: nat := 5
  /** Cells of the board. */
  const CELLS: nat := 9

  /** The completions scheduled after a number of hits: one for each hit
      from the goal on, since every change of the count re-runs the effect. */
  function CompletionsAfter(hits: nat): (n: nat)
    ensures n > 0 <==> hits >= GOAL
  {
    if hits >= GOAL then hits - GOAL + 1 else 0
  }

  class MoleGame {
    /** Whether each cell's mole is up. */
    const moles: array<bool>
    var hits: nat
    /** How many times onComplete has been scheduled. */
    var completions: nat

    predicate Valid()
      reads this
    {
      moles.Length == CELLS && completions == CompletionsAfter(hits)
    }

    constructor()
      ensures Valid() && fresh(moles)
      ensures moles[..] == seq(CELLS, _ => false) && hits == 0 && completions == 0
    {
      moles := new bool[CELLS](_ => false);
      hits := 0;
      completions := 0;
    }

    /** One tick of the spawn interval, which runs only below the goal: the
      mole of cell idx comes up. */
    method Spawn(idx: nat)
      requires Valid() && idx < CELLS
      modifies moles
      ensures Valid()
      ensures hits < GOAL ==> moles[..] == old(moles[..])[idx := true]
      ensures hits >= GOAL ==> moles[..] == old(moles[..])
    {
      if hits < GOAL {
        moles[idx] := true;
      }
    }

    /** The timeout set by a spawn: the mole of cell idx goes down. */
    method Expire(idx: nat)
      requires Valid() && idx < CELLS
      modifies moles
      ensures Valid()
      ensures moles[..] == old(moles[..])[idx := false]
    {
      moles[idx] := false;
    }

    /** A click on cell i: a mole that is up is hit and goes down, and from
      the goal on each hit schedules the completion; a click on an empty cell
      changes nothing. */
    method Whack(i: nat)
      requires Valid() && i < CELLS
      modifies this, moles
      ensures Valid()
      ensures old(moles[i]) ==> hits == old(hits) + 1 && moles[..] == old(moles[..])[i := false]
      ensures old(moles[i]) ==> completions == old(completions) + (if hits >= GOAL then 1 else 0)
      ensures !old(moles[i]) ==> hits == old(hits) && completions == old(completions)
                                 && moles[..] == old(moles[..])
    {
      if moles[i] {
        hits := hits + 1;
        moles[i] := false;
        if hits >= GOAL {
          completions := completions + 1;
        }
      }
    }
  }
}
