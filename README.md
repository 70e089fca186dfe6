# Number-clicking game: a Dafny model of its game logic

The game puts the numbers 1..n on a board at random, non-overlapping spots. The
player must click them in increasing order. Each correct click starts a 3-second
fade, after which the target disappears. A wrong click ends the game. The game is
won once every target has faded. An auto-play mode clicks the expected number once
a second. This project models that logic, as the React component in `src/App.js`
implements it, and proves properties of it.

- `sequence.dfy` (module `Sequence`): `generateRandomNumbers`, a Fisher-Yates
  shuffle of `[1..count]` on an `array`. The index drawn at each step is a parameter
  (`draws`).
- `placement.dfy` (module `Placement`): `getRandomPosition`, rejection sampling with
  a budget of 100 candidates, and startGame's loop that places one target after
  another. Every `Math.random` pair becomes a supplied candidate.
- `countdown.dfy` (module `Countdown`): the countdown interval's updater as a loop
  over the running fades. Next to it are the pure functions it is proved against,
  and a closed form of n ticks in a row.
- `session.dfy` (module `Game`): the component's state as the class `Session`, with
  one method per handler or timer callback, and the header derivation. Time is
  counted in whole tenths of a second, the period of both 100 ms intervals.

The invariant `Session.Consistent()` says:
- the clicks so far are exactly 1..currentNumber-1, in order;
- every clicked target is either fading (in `countdown`, with 1..30 tenths left) or
  hidden, and never both;
- nothing else is fading or hidden;
- the elapsed timer runs exactly while a game is started.

`HandleClick`, `AutoStep`, `TickCountdown`, `TickElapsed`, `ToggleAutoPlay`,
`ChangeTargetCount` and `CheckWin` preserve this invariant. `ResetGame` and
`HandleRestart` establish it. `StartGame` establishes it exactly when no fade was
pending (see Findings).

## Model

| member | source | states |
|---|---|---|
| Sequence.GenerateRandomNumbers | src/App.js:4-11 | The shuffled array has `count` elements and equals `Shuffled(count, draws)`: the swaps at steps i = count-1 down to 1 exchange index i with the drawn j in [0, i]. Every value 1..count occurs exactly once, and no other value occurs. |
| Sequence.ShuffledIsPermutation | src/App.js:4-11 | For every choice of draws, the shuffle's result has length `count` and holds each of 1..count exactly once, and nothing else. |
| Sequence.ShufflePermutes | src/App.js:6-9 | Any run of the swap loop preserves the length and the multiset of its input. |
| Sequence.SwapPermutes | src/App.js:8 | The destructuring swap preserves the length and the multiset of the sequence. |
| Sequence.IotaOccurrences | src/App.js:5 | The initial array `Array.from({length: n}, (_, i) => i + 1)` holds each of 1..n exactly once, and no other value. |
| Sequence.Iota | src/App.js:5 | Its length is n and element k is k + 1. |
| Sequence.SubsetOfUpto | src/App.js:169 | A set of clicked numbers drawn from 1..n has at most n elements. It has exactly n only when it is all of 1..n, which is what lets a count of hidden numbers stand for "every target". |
| Sequence.UptoSize | src/App.js:169 | The set 1..n has exactly n elements. |
| Placement.FirstFit | src/App.js:18-41 | The index the sampler settles on is within the candidates. Every candidate before it overlaps a placed position. It is clear of all of them, or else it is the last candidate (the fallback `return position` after the loop). |
| Placement.GetRandomPosition | src/App.js:13-42 | The loop returns the first candidate that overlaps no placed position. If every one of the 100 attempts overlaps, it returns the last candidate drawn. The result is drawable: `Math.floor(Math.random() * span)` for the x and y spans. Overlap is the distance test `sqrt(d2) < 2r`, decided exactly. |
| Placement.PlaceTargets | src/App.js:76-81 | Exactly `targetCount` positions are placed. Position i is the sampler's choice against positions 0..i-1 with radius 25 in the 500x400 arena, and every position lies in the arena's drawable range. |
| Placement.PlacementsSeparatedOrExhausted | src/App.js:76-81 | Either every placed target is clear of every target placed before it, or all of that target's candidates overlapped something. Non-overlap is best effort, not a guarantee. |
| Countdown.UpdateCountdowns | src/App.js:110-125 | The updater keeps each countdown that is still positive after losing a tenth, at its lowered value. It adds every other key to the hidden set and drops nothing else. |
| Countdown.TickOne | src/App.js:114-121 | One tick on a single fade lowers it by one tenth, or hides that target when its last tenth runs out. |
| Countdown.TicksClosedForm | src/App.js:108-129 | n ticks in a row with no click in between lower every running countdown by n. Each countdown of at most n has been dropped and its target added to the hidden set. |
| Countdown.ClickedTargetFades | src/App.js:156-159 | A target just given the 3.0 s window stays fading for 29 ticks and is hidden by the 30th. It is fading exactly while it is not hidden. |
| Countdown.WinExactlyWhenAllFaded | src/App.js:168-175 | Once every target has been clicked, the hidden set reaches `targetCount` elements exactly when every running countdown has run out. The win comes at the last fade, not at the last click. |
| Game.HeaderText | src/App.js:184-197 | The header reads "GAME OVER" exactly when the game is stopped with the message "Game Over". It reads "ALL CLEARED" exactly when the game is stopped with another message and currentNumber > targetCount. It reads "LET'S PLAY" in every other case, a started game included. |
| Game.WonHeaderIsAllCleared | src/App.js:184-197 | A game stopped by the win check, whose hidden targets are all clicked numbers, shows "ALL CLEARED" and not "LET'S PLAY". |
| Game.Session.constructor | src/App.js:45-58 | The initial state of every useState: count 5, no numbers, currentNumber 1, no message, not started, no fades, no hidden targets, auto-play off. It satisfies `Consistent()`. |
| Game.Session.ChangeTargetCount | src/App.js:177-182 | Sets the number of targets (numberCount and targetCount together). The invariant is preserved. |
| Game.Session.StartGame | src/App.js:60-83 | The numbers are the shuffle of 1..targetCount and the positions are those of the placement loop. The clicks, the hidden set and the elapsed time are cleared, the game and its timer are started, and `countdown` and `autoPlay` are left as they were. The new session is `Consistent()` exactly when no fade was pending. |
| Game.Session.FreshStart | src/App.js:60-83 | startGame with the pending fades cleared as well. The new session is always `Consistent()`, and its other fields are as for StartGame. |
| Game.Session.ResetGame | src/App.js:132-144 | Every field except the count returns to its initial value, and the timer is stopped. The result is `Consistent()` whatever the state before. |
| Game.Session.HandleRestart | src/App.js:145-148 | resetGame followed by startGame. The new session is consistent with no fades and auto-play off, whatever the old session left behind. |
| Game.Session.PressPlay | src/App.js:223-225 | The Play/Restart button restarts a started game and starts a stopped one. Either way the new session is started, consistent and at number 1, with no message, no clicks, nothing fading or hidden, the elapsed time at zero and its timer running, and auto-play off. The numbers are the shuffle of 1..targetCount for the draws, and the positions are those of the placement loop. |
| Game.Session.HandleClick | src/App.js:149-166 | With no game started, nothing changes. The expected number advances currentNumber, is appended to the clicks and starts a 30-tenth fade. Any other number gives "Game Over", stops the game, auto-play and timer, and shows the GAME OVER header. Clicking a target that is still fading is a wrong click. The invariant is preserved. |
| Game.Session.AutoStep | src/App.js:85-89 | With auto-play on in a started game that has targets left, it performs exactly the correct click, so auto-play never loses. Otherwise nothing changes. |
| Game.Session.ToggleAutoPlay | src/App.js:229 | Flips auto-play in a started game. The button is disabled otherwise, and auto-play stays off outside a game. |
| Game.Session.TickElapsed | src/App.js:71-73 | Adds one tenth while the timer runs, and nothing once it has been cleared. |
| Game.Session.TickCountdown | src/App.js:108-129 | The state after one countdown tick is the updater's result, and the invariant is preserved. |
| Game.Session.CheckWin | src/App.js:168-175 | When `targetCount` targets are hidden, it stops the game with the completion message at the elapsed time, and auto-play and the timer are off. Otherwise nothing changes. In a consistent session a win implies that every target was clicked, and the header reads ALL CLEARED. |
| Game.LoseWhileFading | src/App.js:149-166 | Start, click 1, then click 3: the game is over with target 1 still fading for 30 tenths. |
| Game.StaleFadeHidesNextTarget | src/App.js:60-83 | As written: after `LoseWhileFading`, Play (startGame) and 30 countdown ticks, the new session is started, still expects 1, and target 1 is hidden. |
| Game.FreshStartKeepsNextTargetVisible | src/App.js:60-83 | Corrected: the same play through `PressPlay`. For any number of countdown ticks that follow, the new session is started, expects 1, and target 1 is not hidden. |

## Left out

- Rendering is not modelled: the JSX, styles, colours, opacity, the `z-index`, and the `toFixed(1)` formatting of times and countdowns.
- Scheduling is not modelled: `setInterval`, `clearInterval`, the React effects, state batching and stale closures. Each handler or timer callback is one atomic step of the `Session`. `timerRunning` stands for "the elapsed-time interval is live".
- `Math.random` is not modelled: the shuffle's draws and the sampler's candidates are parameters, constrained to the values `Math.floor(Math.random() * k)` can produce. Uniformity is not modelled.
- Floating point is not modelled: elapsed time and countdowns are whole tenths. The countdown's `toFixed(1)` rounding keeps it on tenths. The source's unrounded `prevTime + 0.1` can drift slightly, and the model leaves that drift out.
- `Math.sqrt` is not modelled: the overlap test compares squared distances, which decides the same relation exactly.
- `parseInt` on the count input is not modelled: the model takes a natural number, and `NaN` and negative input are left out.
- The `else` branch of the auto-play interval (src/App.js:90-96) is not modelled. The interval is re-created whenever currentNumber changes and its callback sees the currentNumber of its creation, so that branch is not reachable in an atomic-step model. The win check ends an auto-played game.
- The separate `inputValue` and `numberCount` fields are not modelled; `targetCount` stands for all three.
- Game.Session.PressPlay: starts a stopped game through the corrected `FreshStart` rather than the source's `startGame` (see Findings). The button's `disabled` condition (started and "Game Over") cannot hold while a started game shows no message, so it is not modelled.
- Clicking a target that is still fading is a wrong click and ends the game; the code does not ignore it. The win check is not guarded by `gameStarted`.

## Findings

| source | as written | input that shows it | evidently intended | confidence | as-written member | corrected member |
|---|---|---|---|---|---|---|
| src/App.js:60-83 | startGame clears the clicks and the hidden set but not `countdown`. A fade left pending by a lost game carries into the next session, and when it runs out the countdown updater hides that target there. | Play, click 1, click 3 (Game Over), press Play within 3 s, then wait 3 s: target 1 is hidden and no longer rendered, yet the new session expects 1 first. | A new session starts with no pending fades, as resetGame already ensures. | high; not executed | Game.StaleFadeHidesNextTarget | Game.FreshStartKeepsNextTargetVisible |
