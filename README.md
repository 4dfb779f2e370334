# Interactive Story Adventure: a verified model of the story core

The application is a single Streamlit script, `app.py`. A player enters a name
and an API key and picks one of six genres. A hosted language model writes an
opening scene. The player then makes twenty decisions, each between two
generated choices. After the twentieth decision the model writes a conclusion,
and the whole story can be downloaded as one text.

This project models the parts of that script that make decisions, and proves
what they promise:

- **`generate_story`'s response dispatch** (module `Generation`). The decoded
  reply of the inference endpoint is either a list whose head carries
  `generated_text`, a dict carrying it, some other non-empty list, or anything
  else. The model follows the if/elif chain in source order, including the
  cases where Python's `in` itself raises.
- **`generate_choices`** (module `ChoiceParsing`). The reply is stripped, then
  cut to start at its first `{` and end at its last `}`. It is handed to
  `json.loads`, and any failure yields the fixed pair of fallback choices.
- **`generate_next_scene`** (module `SceneContinuation`). When the model echoes
  the previous scene, the code keeps `reply.split(scene)[1]`, stripped. That
  is the text between the first and the second echo, not everything after
  the first.
- **The session in `main`** (module `Session`). A `GameSession` class holds
  the keys of `st.session_state`. Its methods are the initialisation block,
  "Start Your Adventure", the two choice buttons, the one-time conclusion and
  reset. The choice buttons continue the story with the echo strip exactly as
  written, including the click that raises on an empty scene. The invariant
  `Valid` ties the choice counter, the game-over flag, the shape of the
  story log and the current scene together.
- **The transcript loop** (module `Transcript`). `CompileStory` is the `for`
  loop that builds the downloadable text. It is proved equal to a rendering
  function whose properties are proved as lemmas.

`PyText` models the Python `str` operations these rely on, with Python's own
results: `isspace`, `strip`, `startswith`, `endswith`, `in`, `find` and
`rfind` (both `-1` when absent), `split` with a non-empty separator, `join`
and `capitalize`. `Json` is the decoded-JSON value.

Generated text, the decoder and the API key are parameters. Nothing talks to
a network.

Two behaviours of the code are worth stating outright:

- `generate_choices` returns whatever `json.loads` produced. The code does not
  check that the keys `choice1` and `choice2` are present. A missing key shows
  up later, as a `KeyError` when its button is clicked (`MissingChoice` in
  `GameSession.Choose`).
- A failed opening generation still starts the game. The opening scene is
  then the error text `generate_story` returned.

## Model

| member | source | states |
|---|---|---|
| PyText.StripSpec | app.py:122 | `strip` keeps one contiguous slice of its input. Every character dropped before or after it is whitespace, and neither end of what it keeps is whitespace. |
| PyText.StripIdempotent | app.py:162 | Stripping an already stripped scene changes nothing. |
| PyText.Find | app.py:125 | `find` is -1 exactly when the substring does not occur. Otherwise it is an occurrence with no occurrence before it. |
| PyText.RFind | app.py:130 | `rfind` is -1 exactly when the substring does not occur. Otherwise it is an occurrence with no occurrence after it. |
| PyText.SplitHasSecondPiece | app.py:158-159 | `split(sep)` has a piece at index 1 exactly when `sep in s`, so with a non-empty scene the `[1]` after the `in` test never raises `IndexError`. |
| PyText.SplitJoin | app.py:159 | Joining the pieces of `split(sep)` with `sep` gives back the original text. |
| PyText.SplitPiecesAvoidSeparator | app.py:159 | No piece of `split(sep)` contains `sep`. |
| PyText.Capitalize | app.py:385 | `capitalize` keeps the length, upper-cases the first character and lower-cases every other one. |
| Generation.In | app.py:92 | `key in x` raises exactly for null, booleans and numbers. What it yields for dicts, lists and strings shows in `Generation.Dispatch`'s contract. |
| Generation.Subscript | app.py:93 | `x["generated_text"]` yields a value exactly when `x` is a dict holding that key. |
| Generation.Dispatch | app.py:91-99 | The four branches, in source order: a list headed by a dict with `generated_text` gives that field, a dict with it gives that field, another non-empty list gives its head, anything else gives the fixed error text. The chain raises exactly when the list head is a scalar, or a string or list that "has" the key only in the substring or element sense. |
| Generation.GenerateStory | app.py:87-101 | A failed request or decode, or a dispatch that raised, yields `"Error generating story: "` plus the exception text. Otherwise the result is what the dispatch chose. Nothing escapes. |
| ChoiceParsing.Fallback | app.py:136-141 | The fallback has exactly the keys `choice1` and `choice2`, holding the two fixed sentences. |
| ChoiceParsing.TrimFront | app.py:123-127 | The result is always a suffix. It is the whole text when the text starts with `{` or holds none. Otherwise it starts with `{` and nothing dropped is a `{`. |
| ChoiceParsing.TrimBack | app.py:128-132 | The result is always a prefix. It is the whole text when the text ends with `}` or holds none. Otherwise it ends with `}`, kept inclusively, and nothing dropped is a `}`. |
| ChoiceParsing.BraceTrimIsSlice | app.py:122-132 | The text handed to `json.loads` is one contiguous substring of the stripped reply. |
| ChoiceParsing.TrimFrontAtFirstBrace | app.py:123-127 | Text free of `{` in front of a `{` is cut away exactly, and nothing more is cut. |
| ChoiceParsing.TrimBackAtLastBrace | app.py:128-132 | Text free of `}` after a `}` is cut away exactly, and nothing more is cut. |
| ChoiceParsing.BraceTrimOfWrappedObject | app.py:122-134 | An object `{...}` surrounded by chatter with no `{` before it and no `}` after it is trimmed to exactly the object's text, whatever braces it nests. |
| ChoiceParsing.CandidateOfWrappedObject | app.py:119-134 | The same for the raw reply: surrounding whitespace is stripped first and the decoder receives exactly the object's text. |
| ChoiceParsing.ExtractChoices | app.py:119-141 | A reply that is not a string, or whose trimmed text does not decode, gives the fallback pair. Otherwise the result is whatever the decoder produced from the trimmed text. |
| SceneContinuation.NextSceneAsWritten | app.py:158-159 | As written, the continuation raises exactly when the previous scene is empty. |
| SceneContinuation.NextSceneAgreesAsWritten | app.py:157-164 | For every non-empty previous scene, the corrected continuation equals the code as written. |
| SceneContinuation.SplitSecondPiece | app.py:159 | `split(sep)[1]` is the text from the end of the first occurrence up to the next occurrence starting at or after that point, or up to the end. |
| SceneContinuation.NextSceneBetweenEchoes | app.py:157-164 | When the reply echoes the previous scene, the new scene is the stripped text between the first echo and the second, or the end of the reply. |
| SceneContinuation.NextSceneWithoutEcho | app.py:157-164 | A reply that does not echo the previous scene is kept whole, stripped. |
| SceneContinuation.EmptySceneKeepsReply | app.py:158-162 | Corrected: with an empty previous scene the whole reply is kept, stripped, where the code as written raises. |
| SceneContinuation.EmptySceneRaises | app.py:158-159 | As written, an empty previous scene makes every continuation raise `ValueError`. |
| SceneContinuation.ExactEchoEmptiesScene | app.py:158-162 | A reply that is exactly the previous scene yields an empty new scene, and from it the next continuation, as written, raises. |
| Session.TurnLogExtend | app.py:305 | A player entry followed by a narrator entry extends a log of `n` turns to a log of `n + 1` turns. |
| Session.TurnLogCounts | app.py:264 | A log after `n` choices holds `n` player entries and `n + 1` narrator entries. |
| Session.GameSession.constructor | app.py:174-189 | A new session holds the default of every key, with no conclusion, and satisfies the invariant. |
| Session.GameSession.Start | app.py:250-271 | Starting succeeds exactly when the game has not started and both the name and the API key are non-empty. It then records the name and the genre key, makes the log a single narrator entry with the opening scene, and installs the first choices. Otherwise nothing changes. |
| Session.GameSession.Choose | app.py:303-358 | Each click does one of four things. If the game is not in progress, nothing changes. If the button's key is missing, `KeyError` is raised before anything changes. If the echo strip as written raises (an empty current scene), only the player's entry has been appended and everything else is unchanged. Otherwise the click appends exactly the player's entry and then the narrator's entry for the next scene, increments the count by one, and sets game-over at twenty or else replaces the choices. Every outcome keeps the invariant. |
| Session.GameSession.LogRaisedClick | app.py:305 | A click whose strip raised adds exactly the player's entry and changes nothing else. |
| Session.GameSession.PlayTurn | app.py:305-327 | A played turn appends the player's entry and then the scene, counts the turn, and ends the game at twenty or else takes the new pair. |
| Session.GameSession.Conclude | app.py:365-377 | The conclusion is appended exactly when the game is over and no conclusion exists yet, so at most once. Every other field is untouched. |
| Session.GameSession.Reset | app.py:203-206 | After reset every key holds its default again. |
| Session.PlayToConclusion | app.py:284-377 | If no scene a choice is made from is empty, a start, twenty choices and two showings of the game-over screen leave a log of 42 entries. It holds 20 player entries and 22 narrator entries and ends with the first conclusion. The session is then over, with twenty choices and that conclusion recorded. |
| Session.EchoJamsTheGame | app.py:303-358 | A reply that only echoes the opening leaves an empty scene. The next click then logs the player's choice and raises, so the log holds four entries while the count is one. |
| Transcript.CompileStory | app.py:385-391 | The loop's text is the title followed by the rendering of every log entry in order. |
| Transcript.RenderLogAppend | app.py:387-391 | Rendering a log made of two parts is rendering the first part and then the second. |
| Transcript.StoryExtends | app.py:385-391 | Appending entries to the log, such as the conclusion, only extends the text. |
| Transcript.EntryPlacement | app.py:385-391 | Entry `i`'s rendering appears in the text right after the title and the renderings of the entries before it. |
| Transcript.BlankLineSplitsEntry | app.py:387-391 | The text does not determine the log. A narrator entry containing a blank line renders exactly as two narrator entries. |
| Transcript.CapitalizeLowercase | app.py:385 | `capitalize` of a text with no upper-case letters raises only its first character. |
| Transcript.GenreHeader | app.py:385 | Every genre's title shows the stored key with its first letter raised, so "Science Fiction" is titled `Sci_fi`. |

## Left out

- Streamlit rendering is not modelled: page layout, CSS, columns, spinners, the Lottie animations and `st.experimental_rerun`. It is display only.
- The HTTP calls (`requests.post` to the inference endpoint, `requests.get` for animations) are not modelled. Their results are parameters: `GenerateStory` receives the decoded body, or none when the request failed.
- `json.loads` is an abstract partial decoder passed to `ExtractChoices`. JSON numbers are integers, and floating point is not modelled.
- `str(e)` of a caught exception is the parameter `detail` of `GenerateStory`. Exception texts come from libraries outside the model.
- Prompt templates are not modelled. They are plain interpolation and do not affect any decision.
- The base64 download link is not modelled. It is an encoding library call wrapped in HTML.
- The progress-bar fraction is not modelled. It is a floating-point display value.
- The "Start Your Adventure" branch without an API key (app.py:273-274) is not modelled beyond "nothing starts". With a blank key the condition at app.py:250 is false. Line 273 then creates a second button identical to the one at line 250 in the same run, which Streamlit rejects with its duplicate-widget error before the message at line 274 is shown. No session key changes, which is what `Start`'s unchanged state on refusal states.
- Button labels falling back to "Option 1"/"Option 2" are not modelled. They are display only; a click on such a button is `MissingChoice`.
- Session.GameSession.Start: takes the opening scene as a string. `generate_story` can return a non-string list head, which the session would store as the scene; the model does not carry that case.
- Session.GameSession.Choose: takes the next choices as a `map<string, string>`. A decoded value that is not an object of strings is not carried into the session.
- Session.GameSession.Choose: takes the reply as a string. A non-string `generate_story` result has no `.split`/`.strip`, so that click raises after logging the choice, like `SceneRaised`; the model does not carry that case.
- Session.PlayToConclusion: requires every scene a choice is made from to be non-empty. Otherwise that click raises and the game never ends; `Session.EchoJamsTheGame` shows this.
- Transcript.FullStory: the text cannot be read back into the log. Entry texts may contain blank lines or the `chose:**` marker, so distinct logs render alike (`Transcript.BlankLineSplitsEntry`). No parsing of the text is modelled.
- PyText.Capitalize: handles ASCII letters only. Python also changes case of other letters, and of some letters that expand to several characters.
- Session.GameSession.Reset: states the combined effect of deleting every key and the rerun recreating them from the defaults. The page run between the two is not modelled.
- Concurrency between browser sessions is not modelled. Each session holds its own state.

## Findings

| source | as written | input that shows it | evidently intended | confidence | as-written member | corrected member |
|---|---|---|---|---|---|---|
| app.py:158-159 | With an empty previous scene, `"" in result` holds and `result.split("")` raises `ValueError`. Nothing catches it, and the player's entry has already been appended to the log. | A reply that is exactly the previous scene gives an empty new scene. The next click on a choice then raises. | An empty previous scene has no echo to strip, so the reply is kept whole, stripped. | not executed | SceneContinuation.NextSceneAsWritten | SceneContinuation.NextScene |

`SceneContinuation.EmptySceneRaises` and `SceneContinuation.ExactEchoEmptiesScene`
exhibit the failure in the strip. `Session.GameSession.Choose` follows the code
as written: its `SceneRaised` outcome leaves the player's entry in the log and
the count unchanged. `Session.EchoJamsTheGame` plays the fault out from start
to a stuck game. `SceneContinuation.EmptySceneKeepsReply` proves the intended
behaviour of the corrected `NextScene`. `SceneContinuation.NextSceneAgreesAsWritten`
shows that the correction differs from the code only on the empty scene. The
play-through `Session.PlayToConclusion` describes its scenes with the
corrected definition, through `Session.SceneAfter`.
