/** The game session: the state the Game component keeps with useState, and
    the handlers and timer callbacks that change it. Each timer callback is
    one atomic step; the random draws of a start are supplied by the caller. */
module Game {
  import opened Sequence
  import opened Placement
  import opened Countdown

  /** The initial value of numberCount and targetCount. */
  const DefaultCount: nat := 5

  /** The message line: empty, "Game Over", or the completion message with
      the elapsed time (in tenths of a second) it reports. */
  datatype Message = NoMessage | GameOver | Completed(time: nat)

  /** The header shown above the board. */
  datatype Banner = LetsPlay | GameOverBanner | AllCleared

  /** The header derivation: only a stopped game shows a result, "GAME OVER"
      after a wrong click, "ALL CLEARED" once every target was clicked. */
  function HeaderText(gameStarted: bool, message: Message, currentNumber: int, targetCount: int): (b: Banner)
    ensures b == GameOverBanner <==> !gameStarted && message == GameOver
    ensures b == AllCleared <==> !gameStarted && message != GameOver && currentNumber > targetCount
    ensures b == LetsPlay <==> gameStarted || (message != GameOver && currentNumber <= targetCount)
  {
    if !gameStarted then
      if message == GameOver then GameOverBanner
      else if currentNumber > targetCount then AllCleared
      else LetsPlay
    else LetsPlay
  }

  /** A game stopped by the win check, whose hidden targets were all
      clicked, shows "ALL CLEARED". */
  lemma WonHeaderIsAllCleared(hidden: set<int>, currentNumber: int, targetCount: nat, time: nat)
    requires 1 <= currentNumber
    requires hidden <= Upto(currentNumber - 1)
    requires |hidden| == targetCount
    ensures HeaderText(false, Completed(time), currentNumber, targetCount) == AllCleared
  {
    SubsetOfUpto(hidden, currentNumber - 1);
  }

  /** Each clicked target, 1..currentNumber-1, is either fading or hidden,
      never both, nothing else is, and every running countdown lies within
      the reveal window. */
  ghost predicate FadesAgree(countdown: map<int, nat>, hidden: set<int>, currentNumber: int)
  {
    && countdown.Keys !! hidden
    && countdown.Keys + hidden == Upto(currentNumber - 1)
    && forall k :: k in countdown ==> 0 < countdown[k] <= FadeWindow
  }

  class Session {
    var targetCount: nat              // numberCount and targetCount, always set together
    var randomNumbers: seq<int>       // the labels on the board
    var currentNumber: int            // the next number to click
    var message: Message
    var gameStarted: bool
    var positions: seq<Position>
    var clickedNumbers: seq<int>
    var elapsed: nat                  // tenths of a second
    var timerRunning: bool            // the elapsed-time interval is live
    var countdown: map<int, nat>      // fading targets, remaining tenths
    var hiddenNumbers: set<int>       // faded targets, no longer rendered
    var autoPlay: bool

    /** What every handler keeps: the clicks so far are exactly 1..currentNumber-1
        in order, the elapsed timer runs exactly while the game is started,
        auto-play is only on in a started game, and a started game shows no
        message. */
    ghost predicate Valid()
      reads this
    {
      && 1 <= currentNumber
      && clickedNumbers == Iota(currentNumber - 1)
      && (timerRunning <==> gameStarted)
      && (autoPlay ==> gameStarted)
      && (gameStarted ==> message == NoMessage)
    }

    /** The fade bookkeeping agrees with the clicks. */
    ghost predicate Consistent()
      reads this
    {
      Valid() && FadesAgree(countdown, hiddenNumbers, currentNumber)
    }

    /** The state useState sets up when the component mounts. */
    constructor ()
      ensures Consistent()
      ensures targetCount == DefaultCount && randomNumbers == [] && currentNumber == 1
      ensures message == NoMessage && !gameStarted && positions == [] && clickedNumbers == []
      ensures elapsed == 0 && !timerRunning && countdown == map[] && hiddenNumbers == {} && !autoPlay
    {
      targetCount := DefaultCount;
      randomNumbers := [];
      currentNumber := 1;
      message := NoMessage;
      gameStarted := false;
      positions := [];
      clickedNumbers := [];
      elapsed := 0;
      timerRunning := false;
      countdown := map[];
      hiddenNumbers := {};
      autoPlay := false;
    }

    /** handleInputChange, for a value that parses as a number: sets the
        target count. */
    method ChangeTargetCount(value: nat)
      requires Valid()
      modifies this`targetCount
      ensures Valid() && (old(Consistent()) ==> Consistent())
      ensures targetCount == value
    {
      targetCount := value;
    }

    /** startGame: shuffles the labels, clears the clicks and the hidden set,
        restarts the elapsed timer from zero and places every target. It does
        not clear the running countdowns, so the fade bookkeeping agrees with
        the new session exactly when no fade was pending. */
    method StartGame(draws: seq<nat>, candidates: seq<seq<Position>>)
      requires Valid()
      requires DrawsFor(Steps(targetCount), draws)
      requires |candidates| == targetCount
      requires forall i :: 0 <= i < |candidates| ==>
                 |candidates[i]| == MaxAttempts
                 && ValidCandidates(candidates[i], ArenaWidth, ArenaHeight, TargetRadius)
      modifies this
      ensures targetCount == old(targetCount)
      ensures Valid()
      ensures randomNumbers == Shuffled(targetCount, draws)
      ensures forall v :: multiset(randomNumbers)[v] == if 1 <= v <= targetCount then 1 else 0
      ensures currentNumber == 1 && message == NoMessage && gameStarted && clickedNumbers == []
      ensures elapsed == 0 && hiddenNumbers == {} && timerRunning
      ensures |positions| == targetCount
      ensures forall i :: 0 <= i < targetCount ==>
                positions[i] == candidates[i][FirstFit(candidates[i], positions[..i], TargetRadius)]
      ensures countdown == old(countdown) && autoPlay == old(autoPlay)
      ensures Consistent() <==> old(countdown) == map[]
    {
      var numbers := GenerateRandomNumbers(targetCount, draws);
      randomNumbers := numbers[..];
      currentNumber := 1;
      message := NoMessage;
      gameStarted := true;
      clickedNumbers := [];
      elapsed := 0;
      hiddenNumbers := {};
      timerRunning := true;
      positions := PlaceTargets(targetCount, candidates);
    }

    /** startGame with the pending countdowns cleared as well, as a new
        session evidently intends: the fade bookkeeping always agrees with it. */
    method FreshStart(draws: seq<nat>, candidates: seq<seq<Position>>)
      requires Valid()
      requires DrawsFor(Steps(targetCount), draws)
      requires |candidates| == targetCount
      requires forall i :: 0 <= i < |candidates| ==>
                 |candidates[i]| == MaxAttempts
                 && ValidCandidates(candidates[i], ArenaWidth, ArenaHeight, TargetRadius)
      modifies this
      ensures targetCount == old(targetCount)
      ensures Consistent()
      ensures randomNumbers == Shuffled(targetCount, draws)
      ensures forall v :: multiset(randomNumbers)[v] == if 1 <= v <= targetCount then 1 else 0
      ensures currentNumber == 1 && message == NoMessage && gameStarted && clickedNumbers == []
      ensures elapsed == 0 && hiddenNumbers == {} && countdown == map[] && timerRunning
      ensures |positions| == targetCount
      ensures forall i :: 0 <= i < targetCount ==>
                positions[i] == candidates[i][FirstFit(candidates[i], positions[..i], TargetRadius)]
      ensures autoPlay == old(autoPlay)
    {
      StartGame(draws, candidates);
      countdown := map[];
    }

    /** resetGame: every field back to its initial value, timers stopped. */
    method ResetGame()
      requires Valid()
      modifies this
      ensures Consistent()
      ensures randomNumbers == [] && currentNumber == 1 && message == NoMessage && !gameStarted
      ensures positions == [] && clickedNumbers == [] && elapsed == 0 && hiddenNumbers == {}
      ensures countdown == map[] && !autoPlay && !timerRunning
      ensures targetCount == old(targetCount)
    {
      randomNumbers := [];
      currentNumber := 1;
      message := NoMessage;
      gameStarted := false;
      positions := [];
      clickedNumbers := [];
      elapsed := 0;
      hiddenNumbers := {};
      countdown := map[];
      autoPlay := false;
      timerRunning := false;
    }

    /** handleRestart: resetGame then startGame; whatever the previous
        session left behind, the new one starts consistent. */
    method HandleRestart(draws: seq<nat>, candidates: seq<seq<Position>>)
      requires Valid()
      requires DrawsFor(Steps(targetCount), draws)
      requires |candidates| == targetCount
      requires forall i :: 0 <= i < |candidates| ==>
                 |candidates[i]| == MaxAttempts
                 && ValidCandidates(candidates[i], ArenaWidth, ArenaHeight, TargetRadius)
      modifies this
      ensures targetCount == old(targetCount)
      ensures Consistent()
      ensures randomNumbers == Shuffled(targetCount, draws)
      ensures currentNumber == 1 && message == NoMessage && gameStarted && clickedNumbers == []
      ensures elapsed == 0 && hiddenNumbers == {} && countdown == map[] && timerRunning && !autoPlay
      ensures |positions| == targetCount
      ensures forall i :: 0 <= i < targetCount ==>
                positions[i] == candidates[i][FirstFit(candidates[i], positions[..i], TargetRadius)]
    {
      ResetGame();
      StartGame(draws, candidates);
    }

    /** The Play/Restart button: restart a started game, otherwise start one
        (with the pending countdowns cleared). Either way the new session is
        consistent. */
    method PressPlay(draws: seq<nat>, candidates: seq<seq<Position>>)
      requires Valid()
      requires DrawsFor(Steps(targetCount), draws)
      requires |candidates| == targetCount
      requires forall i :: 0 <= i < |candidates| ==>
                 |candidates[i]| == MaxAttempts
                 && ValidCandidates(candidates[i], ArenaWidth, ArenaHeight, TargetRadius)
      modifies this
      ensures targetCount == old(targetCount)
      ensures Consistent()
      ensures gameStarted && currentNumber == 1 && hiddenNumbers == {} && countdown == map[]
      ensures message == NoMessage && clickedNumbers == [] && elapsed == 0 && timerRunning
      ensures !autoPlay
      ensures randomNumbers == Shuffled(targetCount, draws)
      ensures |positions| == targetCount
      ensures forall i :: 0 <= i < targetCount ==>
                positions[i] == candidates[i][FirstFit(candidates[i], positions[..i], TargetRadius)]
    {
      if gameStarted {
        HandleRestart(draws, candidates);
      } else {
        FreshStart(draws, candidates);
      }
    }

    /** handleClick(number): ignored unless the game is started; the expected
        number advances the counter and starts its fade; any other number,
        a fading target's included, ends the game. */
    method HandleClick(number: int)
      requires Valid()
      modifies this`currentNumber, this`clickedNumbers, this`countdown, this`message,
               this`gameStarted, this`autoPlay, this`timerRunning
      ensures Valid()
      ensures old(Consistent()) ==> Consistent()
      ensures !old(gameStarted) ==> unchanged(this)
      ensures old(gameStarted) && number == old(currentNumber) ==>
                && currentNumber == old(currentNumber) + 1
                && clickedNumbers == old(clickedNumbers) + [number]
                && countdown == old(countdown)[number := FadeWindow]
                && gameStarted && timerRunning && message == old(message) && autoPlay == old(autoPlay)
      ensures old(gameStarted) && number != old(currentNumber) ==>
                && message == GameOver && !gameStarted && !autoPlay && !timerRunning
                && currentNumber == old(currentNumber) && clickedNumbers == old(clickedNumbers)
                && countdown == old(countdown)
                && HeaderText(gameStarted, message, currentNumber, targetCount) == GameOverBanner
      ensures old(Consistent()) && old(gameStarted) && number in old(countdown) ==> message == GameOver
    {
      if !gameStarted {
        return;
      }
      if number == currentNumber {
        currentNumber := currentNumber + 1;
        clickedNumbers := clickedNumbers + [number];
        countdown := countdown[number := FadeWindow];
      } else {
        message := GameOver;
        gameStarted := false;
        autoPlay := false;
        timerRunning := false;
      }
    }

    /** The auto-play interval's callback: while auto-play is on in a started
        game with targets left, click the expected number, so auto-play never
        loses the game. */
    method AutoStep()
      requires Valid()
      modifies this`currentNumber, this`clickedNumbers, this`countdown, this`message,
               this`gameStarted, this`autoPlay, this`timerRunning
      ensures Valid()
      ensures old(Consistent()) ==> Consistent()
      ensures old(autoPlay && gameStarted && currentNumber <= targetCount) ==>
                && currentNumber == old(currentNumber) + 1
                && clickedNumbers == old(clickedNumbers) + [old(currentNumber)]
                && countdown == old(countdown)[old(currentNumber) := FadeWindow]
                && gameStarted && autoPlay && timerRunning && message == NoMessage
      ensures !old(autoPlay && gameStarted && currentNumber <= targetCount) ==> unchanged(this)
    {
      if autoPlay && gameStarted && currentNumber <= targetCount {
        HandleClick(currentNumber);
      }
    }

    /** The auto-play button: flips auto-play in a started game; disabled
        otherwise. */
    method ToggleAutoPlay()
      requires Valid()
      modifies this`autoPlay
      ensures Valid() && (old(Consistent()) ==> Consistent())
      ensures autoPlay == if gameStarted then !old(autoPlay) else old(autoPlay)
    {
      if gameStarted {
        autoPlay := !autoPlay;
      }
    }

    /** The elapsed-time interval's callback: one tenth more while the timer
        is live, nothing once it has been cleared. */
    method TickElapsed()
      requires Valid()
      modifies this`elapsed
      ensures Valid() && (old(Consistent()) ==> Consistent())
      ensures elapsed == if timerRunning then old(elapsed) + 1 else old(elapsed)
    {
      if timerRunning {
        elapsed := elapsed + 1;
      }
    }

    /** The countdown interval's callback: every running countdown loses a
        tenth; those that reach zero are dropped and their targets hidden. */
    method TickCountdown()
      requires Valid()
      modifies this`countdown, this`hiddenNumbers
      ensures Valid() && (old(Consistent()) ==> Consistent())
      ensures countdown == Decremented(old(countdown))
      ensures hiddenNumbers == old(hiddenNumbers) + Expired(old(countdown))
    {
      countdown, hiddenNumbers := UpdateCountdowns(countdown, hiddenNumbers);
    }

    /** The win check: once as many targets are hidden as there are targets,
        the game stops with the completion message; in a consistent session
        every target has then been clicked and the header reads ALL CLEARED. */
    method CheckWin()
      requires Valid()
      modifies this`message, this`gameStarted, this`autoPlay, this`timerRunning
      ensures Valid() && (old(Consistent()) ==> Consistent())
      ensures |hiddenNumbers| == targetCount ==>
                message == Completed(elapsed) && !gameStarted && !autoPlay && !timerRunning
      ensures |hiddenNumbers| != targetCount ==> unchanged(this)
      ensures old(Consistent()) && |hiddenNumbers| == targetCount ==>
                currentNumber > targetCount
                && HeaderText(gameStarted, message, currentNumber, targetCount) == AllCleared
    {
      ghost var fadesAgreed := Consistent();
      if |hiddenNumbers| == targetCount {
        if fadesAgreed {
          WonHeaderIsAllCleared(hiddenNumbers, currentNumber, targetCount, elapsed);
        }
        message := Completed(elapsed);
        gameStarted := false;
        autoPlay := false;
        timerRunning := false;
      }
      assert fadesAgreed ==> FadesAgree(countdown, hiddenNumbers, currentNumber);
    }
  }

  /** The candidates and draws used by the two scenarios below: any
      drawable values will do. */
  function SomeCandidates(count: nat): (cs: seq<seq<Position>>)
    ensures |cs| == count
    ensures forall i :: 0 <= i < count ==>
              |cs[i]| == MaxAttempts && ValidCandidates(cs[i], ArenaWidth, ArenaHeight, TargetRadius)
  {
    seq(count, _ => seq(MaxAttempts, _ => Position(0, 0)))
  }

  /** The first session of both scenarios: target 1 is clicked, then a wrong
      click ends the game while target 1 is still fading. */
  method LoseWhileFading() returns (s: Session)
    ensures fresh(s) && s.Valid() && s.targetCount == DefaultCount
    ensures !s.gameStarted && s.currentNumber == 2 && s.countdown == map[1 := FadeWindow]
  {
    s := new Session();
    s.StartGame([0, 0, 0, 0], SomeCandidates(DefaultCount));
    s.HandleClick(1);
    s.HandleClick(3);
  }

  /** As written: a game is lost while target 1 is still fading; Play calls
      startGame, which keeps that countdown, and when it runs out in the new
      session it hides target 1, the very number the new session expects
      first. A hidden target is not rendered, so it can no longer be clicked. */
  method StaleFadeHidesNextTarget() returns (next: int, hidden: set<int>, started: bool)
    ensures started && next == 1 && next in hidden
  {
    var s := LoseWhileFading();
    s.StartGame([0, 0, 0, 0], SomeCandidates(DefaultCount));
    var t := 0;
    while t < FadeWindow - 1
      invariant 0 <= t <= FadeWindow - 1
      invariant s.Valid() && s.gameStarted && s.currentNumber == 1
      invariant s.countdown == map[1 := FadeWindow - t] && s.hiddenNumbers == {}
    {
      TickOne(1, FadeWindow - t);
      s.TickCountdown();
      t := t + 1;
    }
    TickOne(1, 1);
    s.TickCountdown();
    next, hidden, started := s.currentNumber, s.hiddenNumbers, s.gameStarted;
  }

  /** Corrected: the same play, with Play starting the new session through
      FreshStart; the next number to click is never hidden however many
      countdown ticks follow. */
  method FreshStartKeepsNextTargetVisible(ticks: nat) returns (next: int, hidden: set<int>, started: bool)
    ensures started && next == 1 && next !in hidden
  {
    var s := LoseWhileFading();
    s.PressPlay([0, 0, 0, 0], SomeCandidates(DefaultCount));
    var t := 0;
    while t < ticks
      invariant s.Consistent() && s.gameStarted && s.currentNumber == 1
    {
      s.TickCountdown();
      t := t + 1;
    }
    next, hidden, started := s.currentNumber, s.hiddenNumbers, s.gameStarted;
  }
}
