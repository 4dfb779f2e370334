/** The play-through state that `main` keeps in `st.session_state`, and the
    transitions its buttons drive: start, the two choice buttons, the
    one-time conclusion and reset (app.py:174-401). Generated text and the
    choice pairs arrive as parameters; the calls that produce them are
    modelled in the Generation, ChoiceParsing and SceneContinuation
    modules. */
module Session {
  import opened Json
  import opened SceneContinuation

  /** Number of decision points before the story ends (app.py:322, 351). */
  const MaxChoices: nat := 20

  /** The six genres offered on the start screen (app.py:235-242). */
  datatype Genre = Adventure | Horror | Romance | Fantasy | Mystery | SciFi

  /** The key a genre is stored under in the session. */
  function GenreKey(g: Genre): string {
    match g
    case Adventure => "adventure"
    case Horror => "horror"
    case Romance => "romance"
    case Fantasy => "fantasy"
    case Mystery => "mystery"
    case SciFi => "sci_fi"
  }

  /** Who wrote an entry of the story log. */
  datatype Role = Narrator | Player

  /** One `(role, text)` tuple of `story_log`. */
  datatype Entry = Entry(role: Role, text: string)

  /** The two choice buttons of the in-progress screen. */
  datatype Button = First | Second

  /** The key of `choices` each button reads. */
  function ChoiceKey(b: Button): string {
    match b
    case First => "choice1"
    case Second => "choice2"
  }

  /** The log of a game after `count` choices: the opening narrator entry,
      then for each choice the player's entry and the narrator's reply. */
  predicate TurnLog(log: seq<Entry>, count: nat) {
    |log| == 1 + 2 * count &&
    forall k :: 0 <= k < |log| ==> log[k].role == (if k % 2 == 0 then Narrator else Player)
  }

  /** A choice and the scene it produced extend a turn log by one turn. */
  lemma TurnLogExtend(log: seq<Entry>, count: nat, chosen: string, scene: string)
    requires TurnLog(log, count)
    ensures TurnLog(log + [Entry(Player, chosen), Entry(Narrator, scene)], count + 1)
  {
  }

  /** Number of entries with the given role. */
  function CountRole(log: seq<Entry>, role: Role): nat {
    if log == [] then 0
    else CountRole(log[..|log| - 1], role) + (if log[|log| - 1].role == role then 1 else 0)
  }

  /** After `count` choices the log holds `count` player entries and one
      narrator entry more. */
  lemma {:induction false} TurnLogCounts(log: seq<Entry>, count: nat)
    requires TurnLog(log, count)
    ensures CountRole(log, Player) == count
    ensures CountRole(log, Narrator) == count + 1
  {
    if count == 0 {
      assert log[..0] == [];
    } else {
      var shorter := log[..|log| - 2];
      assert TurnLog(shorter, count - 1);
      TurnLogCounts(shorter, count - 1);
      assert log[..|log| - 1][..|log| - 2] == shorter;
    }
  }

  /** What a click on a choice button did. */
  datatype ChooseOutcome =
    | NotInProgress                          // the buttons are not on screen
    | MissingChoice                          // `choices[key]` raised KeyError
    | SceneRaised(choice: string)            // logged the choice, then the echo strip raised
    | Chosen(choice: string, scene: string)  // the turn was played

  /** `st.session_state` with the keys `main` uses; `conclusion` is absent
      until the conclusion has been generated. */
  class GameSession {
    var startGame: bool
    var playerName: string
    var genre: string
    var currentScene: string
    var storyLog: seq<Entry>
    var choices: map<string, string>
    var choiceCount: nat
    var gameOver: bool
    var conclusion: Option<string>

    /** The values the initialisation block gives every key
        (app.py:174-189), with no conclusion yet. */
    predicate AtDefaults()
      reads this
    {
      !startGame && playerName == "" && genre == "" && currentScene == "" &&
      storyLog == [] && choices == map[] && choiceCount == 0 && !gameOver &&
      conclusion.None?
    }

    /** Before start nothing has been set. Once started: at most twenty
        choices, the game is over exactly at twenty, the log begins with the
        opening entry plus two entries per choice and the current scene is
        the last turn's scene. After the turns come either the conclusion
        (once, after the game is over) or the player entries of clicks whose
        echo strip raised, which happens only while the scene is empty and
        the game is in progress. */
    ghost predicate Valid()
      reads this
    {
      (!startGame ==> AtDefaults()) &&
      (startGame ==>
         playerName != "" &&
         choiceCount <= MaxChoices &&
         (gameOver <==> choiceCount == MaxChoices) &&
         (conclusion.Some? ==> gameOver) &&
         1 + 2 * choiceCount <= |storyLog| &&
         TurnLog(storyLog[..1 + 2 * choiceCount], choiceCount) &&
         currentScene == storyLog[2 * choiceCount].text &&
         (conclusion.Some? ==>
            |storyLog| == 2 + 2 * choiceCount &&
            storyLog[|storyLog| - 1] == Entry(Narrator, conclusion.value)) &&
         (conclusion.None? && |storyLog| > 1 + 2 * choiceCount ==>
            currentScene == [] && !gameOver &&
            forall k :: 1 + 2 * choiceCount <= k < |storyLog| ==> storyLog[k].role == Player))
    }

    /** A new browser session runs the initialisation block. */
    constructor ()
      ensures AtDefaults() && Valid()
    {
      startGame, playerName, genre, currentScene := false, "", "", "";
      storyLog, choices, choiceCount, gameOver, conclusion := [], map[], 0, false, None;
    }

    /** "Start Your Adventure" (app.py:250-271): needs a name and an API key
        and is only on screen before the game has started. Records name and
        genre, logs the opening scene and takes the first choice pair. */
    method Start(name: string, apiKey: string, g: Genre, openingScene: string,
                 initialChoices: map<string, string>) returns (started: bool)
      requires Valid()
      modifies this
      ensures Valid()
      ensures started <==> (!old(startGame) && name != "" && apiKey != "")
      ensures started ==>
                startGame && playerName == name && genre == GenreKey(g) &&
                currentScene == openingScene && storyLog == [Entry(Narrator, openingScene)] &&
                choices == initialChoices && choiceCount == 0 && !gameOver && conclusion.None?
      ensures !started ==> unchanged(this)
    {
      if startGame || name == "" || apiKey == "" {
        return false;
      }
      playerName := name;
      genre := GenreKey(g);
      currentScene := openingScene;
      storyLog := storyLog + [Entry(Narrator, openingScene)];
      choices := initialChoices;
      startGame := true;
      started := true;
    }

    /** A click on either choice button (app.py:303-329, 332-358): look the
        choice up, log it, then continue the story from `reply` with the echo
        strip as written. When that raises (an empty current scene) the click
        ends there with only the player's entry added. Otherwise log the new
        scene, count the turn, and either end the game at twenty or take the
        new pair. */
    method Choose(which: Button, reply: string, newChoices: map<string, string>)
      returns (outcome: ChooseOutcome)
      requires Valid()
      modifies this
      ensures Valid()
      ensures !(old(startGame) && !old(gameOver)) ==> outcome == NotInProgress && unchanged(this)
      ensures old(startGame) && !old(gameOver) && ChoiceKey(which) !in old(choices) ==>
                outcome == MissingChoice && unchanged(this)
      ensures old(startGame) && !old(gameOver) && ChoiceKey(which) in old(choices) &&
              NextSceneAsWritten(old(currentScene), reply).EmptySeparator? ==>
                var chosen := old(choices)[ChoiceKey(which)];
                outcome == SceneRaised(chosen) &&
                storyLog == old(storyLog) + [Entry(Player, chosen)] &&
                currentScene == old(currentScene) && choiceCount == old(choiceCount) &&
                gameOver == old(gameOver) && choices == old(choices) &&
                startGame && playerName == old(playerName) && genre == old(genre) &&
                conclusion == old(conclusion)
      ensures old(startGame) && !old(gameOver) && ChoiceKey(which) in old(choices) &&
              NextSceneAsWritten(old(currentScene), reply).Scene? ==>
                var chosen := old(choices)[ChoiceKey(which)];
                var next := NextSceneAsWritten(old(currentScene), reply).text;
                outcome == Chosen(chosen, next) &&
                storyLog == old(storyLog) + [Entry(Player, chosen), Entry(Narrator, next)] &&
                currentScene == next &&
                choiceCount == old(choiceCount) + 1 &&
                gameOver == (choiceCount >= MaxChoices) &&
                choices == (if gameOver then old(choices) else newChoices) &&
                startGame && playerName == old(playerName) && genre == old(genre) &&
                conclusion == old(conclusion)
    {
      if !(startGame && !gameOver) {
        return NotInProgress;
      }
      var key := ChoiceKey(which);
      if key !in choices {
        return MissingChoice;
      }
      var chosen := choices[key];
      var result := NextSceneAsWritten(currentScene, reply);
      if result.EmptySeparator? {
        LogRaisedClick(chosen);
        outcome := SceneRaised(chosen);
      } else {
        PlayTurn(chosen, result.text, newChoices);
        outcome := Chosen(chosen, result.text);
      }
    }

    /** A click whose echo strip raised: the player's entry was appended
        first (app.py:305) and nothing after it ran. */
    method LogRaisedClick(chosen: string)
      requires Valid() && startGame && !gameOver && currentScene == []
      modifies this
      ensures Valid()
      ensures storyLog == old(storyLog) + [Entry(Player, chosen)]
      ensures startGame == old(startGame) && playerName == old(playerName) &&
              genre == old(genre) && currentScene == old(currentScene) &&
              choices == old(choices) && choiceCount == old(choiceCount) &&
              gameOver == old(gameOver) && conclusion == old(conclusion)
    {
      ghost var before := storyLog;
      storyLog := storyLog + [Entry(Player, chosen)];
      assert storyLog[..1 + 2 * choiceCount] == before[..1 + 2 * choiceCount];
    }

    /** A played turn (app.py:305-327): the player's entry and the new scene
        are logged, the turn is counted, and the game ends at twenty or the
        new pair is taken. */
    method PlayTurn(chosen: string, nextScene: string, newChoices: map<string, string>)
      requires Valid() && startGame && !gameOver && currentScene != []
      modifies this
      ensures Valid()
      ensures storyLog == old(storyLog) + [Entry(Player, chosen), Entry(Narrator, nextScene)]
      ensures currentScene == nextScene && choiceCount == old(choiceCount) + 1
      ensures gameOver == (choiceCount >= MaxChoices)
      ensures choices == (if gameOver then old(choices) else newChoices)
      ensures startGame && playerName == old(playerName) && genre == old(genre) &&
              conclusion == old(conclusion)
    {
      ghost var before := storyLog;
      storyLog := storyLog + [Entry(Player, chosen)];
      currentScene := nextScene;
      storyLog := storyLog + [Entry(Narrator, nextScene)];
      choiceCount := choiceCount + 1;
      if choiceCount >= MaxChoices {
        gameOver := true;
      } else {
        choices := newChoices;
      }
      assert storyLog == before + [Entry(Player, chosen), Entry(Narrator, nextScene)];
      TurnLogExtend(before, choiceCount - 1, chosen, nextScene);
      assert storyLog[..1 + 2 * choiceCount] == storyLog;
    }

    /** The game-over screen (app.py:365-377): the conclusion is generated
        and logged only while the session has no `conclusion` key. */
    method Conclude(text: string) returns (appended: bool)
      requires Valid()
      modifies this
      ensures Valid()
      ensures appended <==> (old(gameOver) && old(conclusion).None?)
      ensures appended ==>
                conclusion == Some(text) &&
                storyLog == old(storyLog) + [Entry(Narrator, text)] &&
                startGame == old(startGame) && playerName == old(playerName) &&
                genre == old(genre) && currentScene == old(currentScene) &&
                choices == old(choices) && choiceCount == old(choiceCount) &&
                gameOver == old(gameOver)
      ensures !appended ==> unchanged(this)
    {
      if !gameOver || conclusion.Some? {
        return false;
      }
      ghost var before := storyLog;
      conclusion := Some(text);
      storyLog := storyLog + [Entry(Narrator, text)];
      assert storyLog[..1 + 2 * choiceCount] == before[..1 + 2 * choiceCount];
      appended := true;
    }

    /** "Reset Game" / "Play Again" (app.py:203-206, 398-401): every key is
        deleted and the rerun that follows recreates them with their
        defaults. */
    method Reset()
      modifies this
      ensures AtDefaults() && Valid()
    {
      startGame, playerName, genre, currentScene := false, "", "", "";
      storyLog, choices, choiceCount, gameOver, conclusion := [], map[], 0, false, None;
    }
  }

  /** The scene shown after the first `n` replies of a play-through that
      opened with `opening`, each echo strip taken from the scene before. */
  function SceneAfter(opening: string, replies: seq<string>, n: nat): string
    requires n <= |replies|
  {
    if n == 0 then opening else NextScene(SceneAfter(opening, replies, n - 1), replies[n - 1])
  }

  /** A full play-through: start, twenty choices alternating between the two
      buttons, then the game-over screen shown twice (a rerun generates
      `rerunEnding` but keeps the first conclusion). Every scene a choice is
      made from must be non-empty, or that click raises (see
      `EchoJamsTheGame`). The log ends with twenty player entries and
      twenty-two narrator entries (opening, one per choice, conclusion), the
      first conclusion last, and the session is over at twenty choices with
      that conclusion recorded. */
  method PlayToConclusion(name: string, apiKey: string, g: Genre, opening: string,
                          firstChoices: map<string, string>, replies: seq<string>,
                          nextChoices: seq<map<string, string>>, ending: string,
                          rerunEnding: string)
    returns (log: seq<Entry>, over: bool, count: nat, ended: Option<string>)
    requires name != "" && apiKey != ""
    requires |replies| == MaxChoices && |nextChoices| == MaxChoices
    requires forall n :: 0 <= n < |replies| ==> SceneAfter(opening, replies, n) != []
    requires "choice1" in firstChoices && "choice2" in firstChoices
    requires forall k :: 0 <= k < |nextChoices| ==> "choice1" in nextChoices[k] && "choice2" in nextChoices[k]
    ensures |log| == 2 * MaxChoices + 2
    ensures CountRole(log, Player) == MaxChoices
    ensures CountRole(log, Narrator) == MaxChoices + 2
    ensures log[|log| - 1] == Entry(Narrator, ending)
    ensures over && count == MaxChoices && ended == Some(ending)
  {
    var session := new GameSession();
    var started := session.Start(name, apiKey, g, opening, firstChoices);
    var i := 0;
    while i < MaxChoices
      invariant 0 <= i <= MaxChoices
      invariant session.Valid() && session.startGame && session.conclusion.None?
      invariant session.choiceCount == i
      invariant session.currentScene == SceneAfter(opening, replies, i)
      invariant i < MaxChoices ==> "choice1" in session.choices && "choice2" in session.choices
    {
      var which := if i % 2 == 0 then First else Second;
      ClickFromScene(session, which, replies[i], nextChoices[i]);
      i := i + 1;
    }
    var appended := session.Conclude(ending);
    var appendedAgain := session.Conclude(rerunEnding);
    log, over, count, ended := session.storyLog, session.gameOver, session.choiceCount, session.conclusion;
    var turns := log[..1 + 2 * MaxChoices];
    TurnLogCounts(turns, MaxChoices);
    assert log == turns + [Entry(Narrator, ending)];
    assert log[..|log| - 1] == turns;
  }

  /** A click in progress from a non-empty scene plays a full turn: the
      strip as written cannot raise there. */
  method ClickFromScene(session: GameSession, which: Button, reply: string,
                        newChoices: map<string, string>)
    requires session.Valid() && session.startGame && !session.gameOver
    requires ChoiceKey(which) in session.choices && session.currentScene != []
    modifies session
    ensures session.Valid() && session.startGame && session.conclusion == old(session.conclusion)
    ensures session.currentScene == NextScene(old(session.currentScene), reply)
    ensures session.choiceCount == old(session.choiceCount) + 1
    ensures !session.gameOver ==> session.choices == newChoices
  {
    NextSceneAgreesAsWritten(session.currentScene, reply);
    var outcome := session.Choose(which, reply, newChoices);
  }

  /** The empty-scene fault played out: a reply that only echoes the opening
      scene leaves an empty scene, and the next click logs the player's
      choice and then raises. The count stays at one while the log has four
      entries, and since the scene stays empty every later click does the
      same, so the game never reaches its twentieth choice. */
  method EchoJamsTheGame(name: string, apiKey: string, g: Genre, opening: string,
                         firstChoices: map<string, string>, nextChoices: map<string, string>,
                         laterReply: string)
    returns (log: seq<Entry>, count: nat, second: ChooseOutcome)
    requires name != "" && apiKey != "" && opening != ""
    requires "choice1" in firstChoices && "choice2" in nextChoices
    ensures second == SceneRaised(nextChoices["choice2"])
    ensures log == [Entry(Narrator, opening), Entry(Player, firstChoices["choice1"]),
                    Entry(Narrator, ""), Entry(Player, nextChoices["choice2"])]
    ensures count == 1 && |log| != 1 + 2 * count
  {
    var session := new GameSession();
    var started := session.Start(name, apiKey, g, opening, firstChoices);
    ExactEchoEmptiesScene(opening, laterReply);
    NextSceneAgreesAsWritten(opening, opening);
    var first := session.Choose(First, opening, nextChoices);
    second := session.Choose(Second, laterReply, nextChoices);
    log, count := session.storyLog, session.choiceCount;
  }
}
