# mend, modelled in Dafny

mend is a small web toy for apologising. The sender picks a scenario and
types a name. A language model writes a short apology note. The app then
makes a "magic link" that carries the scenario, the note and the name. The
person who opens the link must whack five "sorry" moles, or play a timed
round of whack-a-mole, before the note is shown.

This project models the three pieces of logic in that app which can be
stated precisely:

- **The link codec and the hash parser.** To make a link, the payload is
  put through `JSON.stringify`, then `encodeURIComponent`, then `btoa`, and
  the result is placed after `#/?data=`. To open a link, the `data`
  parameter of the query after the first `?` is read with `URLSearchParams`
  and put through `atob`, `decodeURIComponent` and `JSON.parse`. Each
  browser function is modelled after its standard:
  - JSON strings, section 7 of RFC 8259, with the well-formed
    `JSON.stringify` of ECMA-262 (section 25.5.2);
  - `encodeURIComponent` and `decodeURIComponent`, sections 19.2.6.4 and
    19.2.6.5 of ECMA-262, which use UTF-8 (RFC 3629) and `%XX` escapes as in
    section 2.1 of RFC 3986;
  - `btoa` and `atob`, section 4 of RFC 4648, with the forgiving-base64
    decode of the HTML Standard, which drops ASCII white space;
  - `URLSearchParams`, the application/x-www-form-urlencoded parser of the
    WHATWG URL Standard, which reads `+` as a space.
- **The view coordinators.** `App` is a mode plus an optional payload, with
  five render guards. The `Creator` component is a two-step form with its
  own share link.
- **The two whack-a-mole boards.** `MoleGame` in App.tsx has boolean cells
  and a goal of five hits. `Game` in components/Game.tsx has cells that are
  down, up or hit, a score and a fifteen-second countdown.

JavaScript strings are modelled as sequences of UTF-16 code units
(`JsText.Str`). This way a lone surrogate can be written down. Text built from
code points (Unicode scalar values) is the well-formed case
(`JsText.WellFormed`). The handlers are classes whose methods are the
events: a click, a timer callback, the end of an `await`. Timers, random
cell choices and the language model's answer are method parameters.

Modules, one file each:

| file | module | models |
|---|---|---|
| wrappers.dfy | Wrappers | `Option`, `Result` and the JavaScript errors the codec can throw |
| js_text.dfy | JsText | UTF-16 code units, surrogate pairs, ASCII helpers |
| json.dfy | Json | the apology payload, `JSON.stringify` of it and `JSON.parse` of a three-string object |
| uri_component.dfy | UriComponent | `encodeURIComponent` / `decodeURIComponent` |
| base64.dfy | Base64 | `btoa` / `atob` |
| form_urlencoded.dfy | FormUrlEncoded | `URLSearchParams` parsing and `get` |
| share_link.dfy | ShareLink | the link encoding, `handleHash`'s decoding, and where the two disagree |
| apology.dfy | Apology | `getApology`'s choice of note, `trim`, the scenario table |
| app.dfy | MendApp | the `App` coordinator and the goal-based `MoleGame` |
| game.dfy | CountdownGame | the timed `Game` board |
| creator.dfy | CreatorFlow | the two-step `Creator` component |

## Model

| member | source | states |
|---|---|---|
| UriComponent.Encode | App.tsx:107 | encodeURIComponent succeeds exactly on well-formed text, and its output is only unreserved characters and `%` escapes, and is at least as long as the input |
| UriComponent.DecodeEncode | App.tsx:80 | decodeURIComponent undoes encodeURIComponent on every well-formed text |
| UriComponent.EncodeConcat | App.tsx:107 | encoding a concatenation, when the first part is well formed, is the first part's encoding followed by the second's (or the second's error) |
| UriComponent.EncodeUnreserved | App.tsx:107 | text of unreserved characters only is left as it is |
| UriComponent.EncodeEscaped | App.tsx:107 | every other ASCII character becomes a three-character `%XX` escape |
| UriComponent.EncodeAbsent | App.tsx:107 | a character other than `%` and the hex digits that the input lacks is also absent from its encoding |
| UriComponent.EncodingIsValidMultiByte | App.tsx:107 | the UTF-8 octets of a code point from U+0080 up form a valid multi-octet sequence, with the right lead octet, that reads back as that code point |
| UriComponent.ValidMultiByteIsEncoding | App.tsx:80 | every valid multi-octet UTF-8 sequence is the encoding of the scalar value it reads as |
| Base64.Btoa | App.tsx:107 | btoa succeeds exactly when every code unit is at most 0xFF |
| Base64.EncodeBytes | App.tsx:107 | the base64 text, with its padding, is a multiple of four characters long |
| Base64.EncodeBytesChars | App.tsx:107 | the base64 text uses only the alphabet of RFC 4648 and `=` |
| Base64.DecodeEncodeGroups | App.tsx:80 | decoding the sextets of the encoded groups gives back the octets |
| Base64.AtobEncodeBytes | App.tsx:80 | atob of the base64 of any octets gives those octets back |
| Base64.AtobBtoa | App.tsx:80 | atob undoes btoa whenever btoa succeeds |
| Base64.NoPlusWithoutThirdPlusOctet | App.tsx:107 | ASCII octets give no `+` in the encoded groups unless an octet whose low six bits are 62 sits third in a group |
| Base64.SinglePlus | App.tsx:107 | one such octet, third in a group, among ASCII octets with no other gives exactly one `+` |
| Base64.TruncatedPaddedFails | App.tsx:80 | atob throws InvalidCharacterError on text that, once white space is removed, ends in `=` with a length that is no multiple of four |
| Json.StringifyWellFormed | App.tsx:106 | JSON.stringify of any payload, lone surrogates included, is well-formed UTF-16 |
| Json.ParseStringify | App.tsx:80 | JSON.parse of the stringified payload gives the payload back |
| Json.Lookup | App.tsx:80 | a member is found exactly when the object has that key, and the value found belongs to the last member with that key |
| Json.StringifyAbsent | App.tsx:106 | a character that is no escape, no upper-case letter and no JSON punctuation appears in the JSON text only when a field holds it |
| Json.StringifyLayout | App.tsx:106 | for plain fields the JSON text is the three keys and values in their fixed frame |
| FormUrlEncoded.Split | App.tsx:78 | split returns at least one piece, and no piece holds the separator |
| FormUrlEncoded.JoinSplit | App.tsx:78 | joining the pieces of split with the separator gives the text back |
| FormUrlEncoded.PlusAsSpace | App.tsx:78 | URLSearchParams reads every `+`, and only `+`, as a space |
| FormUrlEncoded.PercentDecodeEncode | App.tsx:78 | percent-decoding reverses encodeURIComponent on ASCII text |
| FormUrlEncoded.DecodeComponentPlain | App.tsx:78 | text without `+` or `%` is read as it is written |
| FormUrlEncoded.SinglePair | App.tsx:78 | a query `name=value` parses to the one pair of the name and the decoded value |
| ShareLink.LinkDataTotal | App.tsx:106-107 | for every payload, encodeURIComponent succeeds with ASCII text, so btoa succeeds too; neither call throws |
| ShareLink.Escaped | App.tsx:107 | the text handed to btoa is ASCII of unreserved characters and `%` escapes |
| ShareLink.LinkText | App.tsx:107 | the link's base64 text is what btoa returns on the escaped JSON |
| ShareLink.QuerySegment | App.tsx:78 | the segment after the first `?` holds no `?` |
| ShareLink.DecodeHash | App.tsx:76-86 | without `data=`, or without a non-empty `data` parameter, nothing loads; otherwise the payload loaded, or the error caught, is exactly what the decoding chain returns |
| ShareLink.LinkDataRoundTrip | App.tsx:80 | the decoding chain inverts the encoding chain for every payload |
| ShareLink.HashOfPrefix | App.tsx:76-78 | a hash `#/?data=` followed by text with no `?` and no `&` holds `data=`, and its data parameter is that text form-decoded |
| ShareLink.LinkRoundTrip | App.tsx:76-82 | the link as written loads its payload whenever its base64 text holds no `+` |
| ShareLink.TildeFreeLinkRoundTrip | App.tsx:76-82 | a payload with no `~` in any field has no `+` in its base64 text, so the link as written loads it |
| ShareLink.SpacesRemoved | App.tsx:78-80 | after `+` is read as a space and atob drops the spaces, a base64 text is short by its number of `+` |
| ShareLink.PlusBreaksPaddedLink | App.tsx:76-86 | when the escaped JSON is no multiple of three long and its base64 text holds a number of `+` that is no multiple of four, the link as written fails with InvalidCharacterError, which handleHash catches |
| ShareLink.TildeCounterexample | App.tsx:106-108 | the payload LATE / `Sorry!!~` / Alex has one `+` in its base64 text, and its link as written does not load |
| ShareLink.SafeLinkRoundTrip | App.tsx:76-82 | the corrected link, whose base64 is escaped once more, loads its payload for every payload |
| ShareLink.ShareUrlLoads | App.tsx:108 | the full link as the copy handlers build it starts with the origin and the path, and its hash part opens the payload it was made from whenever its base64 text holds no `+` |
| ShareLink.SampleUrlFails | App.tsx:108 | for the payload LATE / `Sorry!!~` / Alex the full link as built, whatever the origin and path, is caught as InvalidCharacterError and does not open the payload |
| ShareLink.SafeShareUrlLoads | App.tsx:106-108 | the corrected full link, with the base64 text escaped once more, opens the payload it was made from for every payload |
| Apology.TrimStart | App.tsx:41 | the result is a suffix of the input, everything dropped is white space, and the result does not start with white space |
| Apology.TrimEnd | App.tsx:41 | the result is a prefix of the input, everything dropped is white space, and the result does not end with white space |
| Apology.Trim | App.tsx:41 | trim is empty exactly when the text is all white space, and otherwise starts and ends with other characters |
| Apology.TrimIdempotent | App.tsx:41 | trimming twice is trimming once |
| Apology.ErrorNote | App.tsx:44 | the error note holds the scenario between its fixed opening and closing |
| Apology.PleadingFace | App.tsx:41 | the emoji in the notes is the surrogate pair of U+1F97A |
| Apology.GetApology | App.tsx:34-46 | the note is never empty: the error note when the call failed, otherwise the trimmed text or the fallback |
| Apology.AnsweredNote | App.tsx:41 | a response with a character that is not white space gives its trimmed text; one with only white space gives the fallback |
| Apology.Find | App.tsx:97 | find returns nothing exactly when no scenario has the id, and otherwise the first scenario with it |
| Apology.PromptFor | App.tsx:97-98 | an id that is not in the table is its own prompt |
| Apology.KnownPrompts | App.tsx:18-24 | each scenario's id selects that scenario's own prompt |
| MendApp.ScreenOf | App.tsx:117-222 | the landing screen is shown exactly in landing mode; the share view exactly in creator mode with a message; compose exactly in creator mode without one; the game exactly in game mode; the resolution exactly in resolution mode with a payload; and null exactly in resolution mode without one |
| MendApp.ConsistentNeverBlank | App.tsx:194-222 | in every reachable state of the model, whose loaded payloads are objects of three strings, the render function shows a screen (a link whose JSON is not such an object breaks this in the source; see Left out) |
| MendApp.App.constructor | App.tsx:66-71 | the first render is the landing screen, with nothing loaded, selected or typed |
| MendApp.App.HandleHash | App.tsx:74-88 | a hash that loads sets the payload and the game mode together; any other hash leaves every field unchanged |
| MendApp.App.StartApology | App.tsx:126 | the landing button opens the compose screen |
| MendApp.App.SetSenderName | App.tsx:144-145 | the name input sets only the name |
| MendApp.App.SelectScenario | App.tsx:152 | a scenario button sets only the selection |
| MendApp.App.BeginGenerate | App.tsx:94-98 | nothing happens unless a scenario is selected and the name is non-empty; otherwise loading starts and the request carries the selection, its prompt and the name |
| MendApp.App.FinishGenerate | App.tsx:98-102 | the payload is the selected id, the note and the name, and the share view is shown, never the compose view |
| MendApp.App.HandleCopy | App.tsx:105-110 | the copied link is origin, path, `#/?data=` and the unescaped base64 of the escaped JSON of the current payload, exactly as the source builds it; the payload and the mode are kept and the feedback turns on |
| MendApp.App.CopyFeedbackExpired | App.tsx:111 | the feedback turns off and nothing else changes |
| MendApp.App.WhackComplete | App.tsx:114 | completion sets the resolution mode, whose view is the resolution with its payload |
| MendApp.App.StartOver | App.tsx:182 | the payload is cleared and the landing screen is shown |
| MendApp.CompletionsAfter | App.tsx:231-235 | completion is scheduled exactly when the hit count has reached the goal |
| MendApp.MoleGame.constructor | App.tsx:227-228 | nine cells, all down, and no hits |
| MendApp.MoleGame.Spawn | App.tsx:229-240 | below the goal exactly cell idx comes up; from the goal on nothing changes |
| MendApp.MoleGame.Expire | App.tsx:241-247 | exactly cell idx goes down |
| MendApp.MoleGame.Whack | App.tsx:263 | a cell that is up adds one hit and goes down, and from the goal on schedules one more completion; an empty cell changes nothing |
| CountdownGame.Game.constructor | components/Game.tsx:9-12 | nine normal moles, each with its own index as id and all down, no score, the full clock, not active |
| CountdownGame.Game.Start | components/Game.tsx:15-17 | the mount effect starts the game |
| CountdownGame.Game.Tick | components/Game.tsx:20-33 | while active the clock drops by one; at zero the game stops and completes once; when inactive nothing changes |
| CountdownGame.Game.Spawn | components/Game.tsx:37-44 | while active, cell idx comes up if it was down; otherwise the board is unchanged |
| CountdownGame.Game.AutoHide | components/Game.tsx:46-52 | cell idx goes down only if it is still up; a hit or down cell is untouched |
| CountdownGame.Game.Whack | components/Game.tsx:64-71 | while active, an up cell becomes hit and the score rises by exactly 10; anything else changes nothing |
| CountdownGame.Game.HitReset | components/Game.tsx:72-78 | the hit cell goes down whatever it shows |
| CreatorFlow.ScenarioOrEmpty | components/Creator.tsx:31 | the payload's scenario is empty exactly when nothing, or the empty id, is selected, and is otherwise the selection |
| CreatorFlow.Creator.constructor | components/Creator.tsx:12-17 | step one with every field empty |
| CreatorFlow.Creator.SetSenderName | components/Creator.tsx:56 | the name input sets only the name |
| CreatorFlow.Creator.SelectScenario | components/Creator.tsx:66 | a scenario button sets only the selection |
| CreatorFlow.Creator.BeginGenerate | components/Creator.tsx:19-22 | nothing happens unless a scenario is selected and the name is non-empty; otherwise generating starts with the selection and the name |
| CreatorFlow.Creator.FinishGenerate | components/Creator.tsx:23-25 | the generated text is the note, generating stops, and step two is shown |
| CreatorFlow.Creator.CopyLink | components/Creator.tsx:28-41 | the link is built as in App.tsx from the payload of the selection (or empty), the generated text and the name, with the base64 unescaped after `#/?data=`, and is kept; the review then shows the confirmation in place of the copy button |
| CreatorFlow.Creator.StartOver | components/Creator.tsx:114-115 | only the step goes back to one; name, selection, text and link are kept |
| CreatorFlow.RegenerateAfterCopy | components/Creator.tsx:104-115 | after a copy, Start Over and a new generation show the earlier link's confirmation again, with the new note and no copy button, because nothing clears the link |

Every class method also keeps its class's `Valid()` invariant:

- `MendApp.App`: mode and payload are consistent.
- `MendApp.MoleGame`: the completions scheduled match the hit count.
- `CountdownGame.Game`: each cell keeps id `i` and a normal mole; the score
  is a non-negative multiple of 10; the clock stays between 0 and 15; the
  game has completed exactly once when the clock is at 0; an inactive game
  with time left has not started.
- `CreatorFlow.Creator`: the step is 1 or 2.

Every array method states its whole new array as the old one updated at
the one index, or unchanged.

## Left out

- The language-model calls (App.tsx:35-40, services/geminiService.ts) are network calls. Their outcome is the `Apology.Answer` parameter of `GetApology`. The Creator's note is a parameter of `FinishGenerate`; services/geminiService.ts is not part of this model.
- A throw from `new GoogleGenAI` (App.tsx:35), which sits outside the `try`, is not modelled as an `Answer`. It rejects `getApology`, so `handleGenerate` never finishes: loading stays on, and neither the error note nor the share screen appears. In the model this is the case where `App.FinishGenerate` is never called after `App.BeginGenerate`.
- A handler that `await`s is split into two methods. `App.handleGenerate` is `BeginGenerate` and `FinishGenerate`, and so is `Creator.handleGenerate`. Events that arrive between the two are not modelled.
- Timers and randomness are not modelled (`setInterval`, `setTimeout`, the 600/800/1000/200/3000 ms delays, `Math.random`). Each timer callback is a method, and the random cell is its index parameter.
- Stale timers are not modelled: a callback still pending after its component has unmounted. `App.WhackComplete` requires the game or resolution mode.
- I/O is not modelled: `window.location`, the `hashchange` listener, the clipboard, `alert`, `sms:` and `console.error`. The origin, the path and the hash are parameters; the link a copy produces is a method result.
- JSX, styling, components/Button.tsx, components/Landing.tsx and components/Resolution.tsx are not part of this model. The resolution screen's contents are rendering only.
- React semantics are not modelled: re-rendering, StrictMode double effects, batching of updates. The in-place mutation of shared mole objects at components/Game.tsx:50, 70 and 75 is modelled as a write to the one cell. Aliasing between the old and new arrays is not modelled.
- The general JSON grammar is out of scope. `Json.Parse` reads an object whose member values are strings and returns the three payload fields. Other JSON values give an `Unsupported` error. The source instead stores whatever `JSON.parse` returns without a shape check (App.tsx:80-82). Such a value is not a payload here.
- MendApp.ConsistentNeverBlank holds only for the payloads the model loads. In the source, the hash `#/?data=bnVsbA==` (the base64 of `null`) passes App.tsx:76-80; `JSON.parse` gives `null`, which App.tsx:81-82 store while setting the game mode. After the game, the guard at App.tsx:194 fails and App.tsx:222 renders nothing. The data `0`, `false` and `""` do the same. The model reads these links as errors, so `App.HandleHash` leaves the state unchanged for them.
- `FormUrlEncoded.PercentDecode` maps a decoded octet of 0x80 or more to U+FFFD instead of decoding UTF-8. `atob` rejects any such character, so `handleHash`'s outcome is the same.
- A lone surrogate in a payload field would make `encodeURIComponent` throw outside any `try` (App.tsx:107) if it reached it unescaped. The model follows ECMA-262 instead: its `JSON.stringify` escapes a lone surrogate as `\uXXXX`, so `encodeURIComponent` never throws on the JSON text (`ShareLink.LinkDataTotal`). Engines older than ES2019 are not modelled.
- Base64.SextetValue and Base64.DecodeSextets are total: they give a value for characters outside the alphabet and for any length. `Atob` checks the alphabet and the length first, so this is never observable.
- MendApp.App.HandleCopy and CreatorFlow.Creator.CopyLink state the link they produce, as the source builds it, but not whether it opens. When it opens is stated by `ShareLink.ShareUrlLoads` (its base64 text holds no `+`), and that it need not by `ShareLink.SampleUrlFails`. Stating either inside the methods makes their proofs too costly.
- MendApp.MoleGame.Whack counts one completion for each hit from the goal on, because the source re-runs its effect on every change of the hit count. That the App leaves the game screen on the first completion is `App.WhackComplete`.
- Buttons disabled while loading or without a selection are not modelled as preconditions. The handlers' own guards are modelled instead.
- `PRESET_RESPONSES` (App.tsx:26-31) and the scenario labels and emoji are display data, not modelled.

## Findings

| source | as written | input that shows it | evidently intended | confidence | as-written member | corrected member |
|---|---|---|---|---|---|---|
| App.tsx:106-108, components/Creator.tsx:37-39 | the base64 text goes into the hash unescaped; `URLSearchParams` reads its `+` as a space, `atob` drops it, and the padded text is then one character short, so `atob` throws and `handleHash` silently ignores the link | scenario `LATE`, message `Sorry!!~`, sender `Alex`: the `~` is escaped-JSON octet 65, the third of its group, and gives the link's only `+` | every link the app makes opens the apology it was made from | not executed | ShareLink.TildeCounterexample | ShareLink.SafeLinkRoundTrip |

Besides the `~` in their input, `ShareLink.PlusBreaksPaddedLink` gives the
general failing shape. `ShareLink.LinkRoundTrip`,
`ShareLink.TildeFreeLinkRoundTrip` and `ShareLink.ShareUrlLoads` state when
the link as written still works. `ShareLink.SampleUrlFails` carries the
failure to the full link that `App.HandleCopy` and `Creator.CopyLink`
return, which is the link as written (`ShareLink.ShareUrl`). The corrected
link, `ShareLink.SafeLinkHash` and `ShareLink.SafeShareUrl`, escapes the
base64 text with `encodeURIComponent` before putting it after `#/?data=`.
`ShareLink.SafeLinkRoundTrip` and `ShareLink.SafeShareUrlLoads` prove that
it opens for every payload.
