/** The Food Matcher game: foods are shown one at a time, each "Love it!"
    scores a point, and five points win. The random choice of the next food
    is a parameter `pick`, any index into the food list. */
module SimpleGame {

  const Foods: seq<string> := [
    "\U{1F355} Pizza", "\U{1F354} Burger", "\U{1F35C} Ramen", "\U{1F32E} Taco", "\U{1F363} Sushi",
    "\U{1F957} Salad", "\U{1F35D} Pasta", "\U{1F372} Stew", "\U{1F96A} Sandwich", "\U{1F371} Bento"]

  /** Likes needed to win. */
  const WinningScore: nat := 5

  datatype GameState = GameState(score: nat, currentFood: string, gameStarted: bool, gameWon: bool)

  /** Score 0, no food, neither started nor won. */
  const InitialGame: GameState := GameState(0, "", false, false)

  /** `nextFood`: shows `Foods[pick]` and changes nothing else. */
  function NextFoodStep(s: GameState, pick: nat): (t: GameState)
    requires pick < |Foods|
    ensures t.currentFood in Foods
    ensures t.score == s.score && t.gameStarted == s.gameStarted && t.gameWon == s.gameWon
  {
    s.(currentFood := Foods[pick])
  }

  /** `startGame`: started, score 0, not won, and a food on screen. */
  function StartGameStep(s: GameState, pick: nat): (t: GameState)
    requires pick < |Foods|
    ensures t.gameStarted && !t.gameWon && t.score == 0 && t.currentFood == Foods[pick]
  {
    NextFoodStep(s.(gameStarted := true, score := 0, gameWon := false), pick)
  }

  /** `makeChoice(liked)`: a like adds exactly one point and either wins the
      game (stopping it, the food kept) or shows the next food; a dislike
      only shows the next food. */
  function MakeChoiceStep(s: GameState, liked: bool, pick: nat): (t: GameState)
    requires pick < |Foods|
    ensures liked ==> t.score == s.score + 1
    ensures liked && s.score + 1 >= WinningScore ==>
      t.gameWon && !t.gameStarted && t.currentFood == s.currentFood
    ensures liked && s.score + 1 < WinningScore ==>
      t == s.(score := s.score + 1, currentFood := Foods[pick])
    ensures !liked ==> t == s.(currentFood := Foods[pick])
  {
    if liked then
      var scored := s.(score := s.score + 1);
      if s.score + 1 >= WinningScore then scored.(gameWon := true, gameStarted := false)
      else NextFoodStep(scored, pick)
    else NextFoodStep(s, pick)
  }

  /** What holds in every state the player can reach. */
  predicate GameInvariant(s: GameState) {
    && !(s.gameStarted && s.gameWon)
    && s.score <= WinningScore
    && (s.gameWon ==> s.score == WinningScore)
    && (s.gameStarted ==> s.score < WinningScore && s.currentFood in Foods)
    && (s.currentFood == "" || s.currentFood in Foods)
  }

  /** A button press: "Start Game" or "Play Again" (both shown only while the
      game is not running), or one of the two choice buttons (shown only
      while it is). */
  datatype Press = Start(pick: nat) | Choose(liked: bool, pick: nat)

  /** One press; a press on a button that is not on screen changes nothing. */
  function Step(s: GameState, p: Press): GameState {
    match p
    case Start(pick) => if !s.gameStarted && pick < |Foods| then StartGameStep(s, pick) else s
    case Choose(liked, pick) => if s.gameStarted && pick < |Foods| then MakeChoiceStep(s, liked, pick) else s
  }

  function Play(s: GameState, presses: seq<Press>): GameState
    decreases |presses|
  {
    if |presses| == 0 then s else Play(Step(s, presses[0]), presses[1..])
  }

  lemma StepKeepsInvariant(s: GameState, p: Press)
    requires GameInvariant(s)
    ensures GameInvariant(Step(s, p))
  {
    match p
    case Start(pick) =>
    case Choose(liked, pick) =>
      if s.gameStarted && pick < |Foods| {
        assert s.currentFood in Foods;
      }
  }

  /** Whatever the player presses, started and won are never both true, the
      score never exceeds 5, a won game has exactly 5, and the food shown is
      one of the list. */
  lemma {:induction false} PlayKeepsInvariant(presses: seq<Press>)
    ensures GameInvariant(Play(InitialGame, presses))
  {
    PlayFromInvariant(InitialGame, presses);
  }

  lemma {:induction false} PlayFromInvariant(s: GameState, presses: seq<Press>)
    requires GameInvariant(s)
    ensures GameInvariant(Play(s, presses))
    decreases |presses|
  {
    if |presses| > 0 {
      StepKeepsInvariant(s, presses[0]);
      PlayFromInvariant(Step(s, presses[0]), presses[1..]);
    }
  }

  /** The component's state. */
  class MatcherGame {
    var score: nat
    var currentFood: string
    var gameStarted: bool
    var gameWon: bool

    function State(): GameState
      reads this
    {
      GameState(score, currentFood, gameStarted, gameWon)
    }

    constructor()
      ensures State() == InitialGame
    {
      score, currentFood, gameStarted, gameWon := 0, "", false, false;
    }

    method NextFood(pick: nat)
      requires pick < |Foods|
      modifies this
      ensures State() == NextFoodStep(old(State()), pick)
    {
      currentFood := Foods[pick];
    }

    method StartGame(pick: nat)
      requires pick < |Foods|
      modifies this
      ensures State() == StartGameStep(old(State()), pick)
    {
      gameStarted := true;
      score := 0;
      gameWon := false;
      NextFood(pick);
    }

    method MakeChoice(liked: bool, pick: nat)
      requires pick < |Foods|
      modifies this
      ensures State() == MakeChoiceStep(old(State()), liked, pick)
    {
      if liked {
        score := score + 1;
        if score >= WinningScore {
          gameWon := true;
          gameStarted := false;
        } else {
          NextFood(pick);
        }
      } else {
        NextFood(pick);
      }
    }
  }
}
