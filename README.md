# The session coordinator of a p5.js quiz game, in Dafny

`sketch.js` is a small browser game. The player walks among three
questioner NPCs and one hint giver. A questioner the player comes close to
asks up to two questions from a catalog of nine. Each correct answer scores
a point and plays a twenty-frame attack. The hint giver reveals up to three
answers in total. Six points end the game.

This project models the part of the game that decides all of that: the
session coordinator. It keeps the global `gameState`, `score`,
`usedQuestionIds`, `helpCount`, `currentQuestion` and `currentQuestioner`,
the questioners' question lists, counts and cooldowns, the hint giver's
cooldown and the player's attack timer. Everything is driven by the
per-frame logic of `draw` and by the page's event handlers.

Modules:

- `Wrappers`: `Option`.
- `Seqs`: the JavaScript list operations the game uses, stated over
  `seq<int>`: `filter`, `splice(i, 1)`, `flatMap`, and duplicate-freeness.
- `Quiz`: the catalog (`quizBank`) and the answer test `trim` then
  `toLowerCase`.
- `Allocation`: `Questioner.setupQuestions`, a method with the source's two
  `while` loops that splice random picks out of a pool.
- `Rules`: the expression-style rules.
  - which questioner a frame triggers;
  - which question is drawn;
  - which hint options are listed;
  - how cooldowns count down.
- `Session`: class `Game`. Its fields are the globals, and its methods are
  `setup` (the constructor), one frame of `draw` (`Tick`) and the handlers
  `keyPressed`, `checkAnswer`, `endQuestioning`, `revealAnswer` and
  `endHintSelecting`.

The class invariant `Game.Valid()` collects what the game keeps true
throughout a session:

- **Score.** The score equals the questioners' total answered count, which
  is what the HUD shows. Each questioner answers at most two questions.
- **Used ids.** No id is used twice. Every used id came from exactly one
  correct answer or one unit of help: `|used| == score + (3 - helpCount)`.
- **Help budget.** It stays within 0..3.
- **Mode agreement.**
  - The attack flag, the attack timer and the open overlays agree with the
    mode.
  - A current questioner exists exactly while questioning.
  - The current question is one of that questioner's own, still unused.
- **Winning.** Six points mean the game is finished, or is in the winning
  attack's first frame.

Every event method keeps `Valid()` and states the new state it produces.

Randomness becomes parameters:

- `roll(index, step) % n` stands for the `step`-th `floor(random(n))` of
  questioner `index`'s allocation.
- `pick % |available|` stands for `random(availableIds)`.

Proximity (`checkCollision`) becomes boolean inputs to `Tick`.

Two behaviours of the allocation are worth stating outright, because a
reader might expect otherwise.

- **Fill level.** A questioner holds at most three ids, not always three
  (sketch.js:189-197).
  - `SetupQuestions` states when it holds fewer: only when both pools ran
    dry.
  - `QuizBankAllocation` shows that with the shipped catalog each
    questioner gets exactly its own partition of three.
- **Held ids.** The set of ids already held is recomputed for each
  questioner, from the lists of the questioners filled before it
  (sketch.js:186, 291-294). It is not taken once for all three.
  `SetupQuestioners` threads it the same way, and `Allocated` states each
  questioner's list against the lists of the ones before it.

## Model

| member | source | states |
|---|---|---|
| Seqs.FilterFacts | sketch.js:185-187 | an element is in the result of `filter` exactly when it is in the input and passes the test, and the result is a sub-multiset of the input |
| Seqs.FilterCounts | sketch.js:185-187 | `filter` keeps every occurrence of a passing element and no occurrence of a failing one |
| Seqs.Splice | sketch.js:190-196 | `splice(i, 1)` yields a list one shorter whose multiset is the input's minus the removed element |
| Seqs.Flatten | sketch.js:186 | `flatMap` holds exactly the ids held by some questioner |
| Quiz.Ids | sketch.js:46-56 | the ids of a catalog, one per item, in catalog order |
| Quiz.FindItem | sketch.js:582 | `quizBank.find` returns an item of the catalog with that id, and nothing exactly when no item has it |
| Quiz.FindItemFirst | sketch.js:582 | the item `find` returns is the first in the catalog with that id |
| Quiz.JsRem | sketch.js:185 | JavaScript `%` agrees with the mathematical remainder on non-negative ids and takes the sign of the dividend otherwise |
| Quiz.TrimStartFacts | sketch.js:614 | removing leading whitespace removes a whitespace prefix and stops at a non-space |
| Quiz.TrimEndFacts | sketch.js:614 | removing trailing whitespace removes a whitespace suffix and stops at a non-space |
| Quiz.TrimShape | sketch.js:614 | every text is whitespace, then its trim, then whitespace, and the trim has no whitespace at either end |
| Quiz.TrimPadded | sketch.js:614 | whitespace added around a text never changes its trim |
| Quiz.TrimOfTrimmed | sketch.js:614 | trimming a text with no whitespace at its ends returns it unchanged |
| Quiz.Lower | sketch.js:617 | lower-casing keeps the length |
| Quiz.PaddedAnswer | sketch.js:614-617 | an answer is accepted exactly when the user text is the stored answer up to ASCII case, with any whitespace around it |
| Quiz.PaddedDigitsAccepted | sketch.js:614-617 | " 100 " is accepted for the stored answer "100" |
| Quiz.LowerCaseAccepted | sketch.js:614-617 | "h2o" is accepted for the stored answer "H2O" |
| Allocation.DrawPartition | sketch.js:189-192 | the first loop draws min(3, pool size) ids without replacement: drawn plus left is the pool |
| Allocation.DrawSupplement | sketch.js:193-197 | the second loop keeps the first draws, appends only ids from the supplement not yet held, stops at three, and stops short only when the supplement is used up; no duplicate is introduced |
| Allocation.SetupQuestions | sketch.js:184-198 | at most three ids, all from the catalog, duplicate-free when the catalog is; the partition's draws come first and are the whole partition when it has at most three ids; later ids are outside the partition and not held by any questioner; fewer than three only when both pools ran dry |
| Allocation.LargePartitionDrawn | sketch.js:189-192 | a partition of three or more ids supplies all three ids of the list |
| Allocation.FullPartitionDrawn | sketch.js:189-192 | a partition of exactly three ids is the whole list |
| Allocation.BankIds | sketch.js:46-56 | the shipped catalog's ids are 1 to 9, each once |
| Allocation.BankPartition | sketch.js:185 | the shipped catalog's partition for questioner i is 3, 6, 9 / 1, 4, 7 / 2, 5, 8 |
| Allocation.DigitPartition | sketch.js:185 | the `id % 3 === index` filter of 1..9 for each index |
| Rules.FirstEligible | sketch.js:552-558 | the index found is eligible and no earlier questioner is; none is found exactly when no questioner is eligible |
| Rules.CoolingNotChosen | sketch.js:554 | a questioner whose cooldown is running is never triggered |
| Rules.TotalAnsweredUpdate | sketch.js:618-623 | changing one questioner's count changes the total by the same amount |
| Rules.TotalAnsweredSameCounts | sketch.js:469 | the total depends only on the answered counts |
| Rules.TotalAnsweredBound | sketch.js:512 | with each count at most two, the total of n questioners is at most 2n |
| Rules.CooldownCountsDown | sketch.js:469 | after n ticks a timer t >= 0 reads t - n, or 0 once n >= t, and is never negative |
| Rules.LeaveBlocksUntil | sketch.js:657-659 | a timer set to 120 on leaving allows a trigger again after exactly 120 ticks |
| Rules.Draw | sketch.js:567-582 | a drawn question is a catalog item whose id the questioner holds and that is unused; when the questioner's ids are catalog ids, nothing is drawn exactly when all of them are used |
| Rules.DrawAt | sketch.js:580-581 | a pick below the number of available ids draws the item at that position |
| Rules.DrawCanPick | sketch.js:580-581 | every available id is the draw of some pick |
| Rules.AllQuestionIds | sketch.js:751-752 | the ids listed are exactly those some questioner holds |
| Rules.CollectOptions | sketch.js:750-761 | the listing loop adds exactly the unused catalog ids not yet listed and never lists one twice |
| Rules.HintOptionsFacts | sketch.js:744-761 | the hint options are every unused catalog id held by some questioner, each once |
| Session.Game.ScoreBound | sketch.js:512 | the score is always between 0 and 6 |
| Session.Game.FinishedQuiet | sketch.js:515-519 | once finished, the attack flag stays set and no dialog, overlay or current question remains, so no handler can act |
| Session.Game.constructor | sketch.js:281-294 | the initial globals, and three questioners as setup leaves them: nothing answered, no cooldown, and questioner i holding what setupQuestions draws against the ids questioners 0 to i-1 hold |
| Session.Game.CoolDown | sketch.js:467-478 | each questioner's timer (sketch.js:469) and the hint giver's timer (sketch.js:231, called at 478) tick down by one if positive; nothing else changes |
| Session.Game.ScanQuestioners | sketch.js:552-558 | the scan with early return finds the first eligible questioner |
| Session.Game.StartQuestioning | sketch.js:561-609 | the mode becomes questioning with that questioner current and its dialog open; the question is the draw from its unused ids |
| Session.Game.CheckQuestionerInteraction | sketch.js:550-559 | from playing, the first eligible questioner starts questioning; otherwise nothing changes |
| Session.Game.StartHintGiverMessage | sketch.js:694-716 | the mode becomes the budget-exhausted message, with its dialog open |
| Session.Game.StartHintSelecting | sketch.js:731-766 | the overlay opens with the hint options listed and no selection; the leave button shows only if nothing is listed |
| Session.Game.CheckHintGiverInteraction | sketch.js:718-729 | from playing, near, with the timer run down: with no help left the message, otherwise the selection; in every other case nothing changes |
| Session.Game.Advance | sketch.js:485-499 | a frame's state logic and win check: finished and the dialog modes stay put; an attack counts down and ends at zero; from playing a questioner takes precedence over the hint giver; a score of six finishes the game |
| Session.Game.Tick | sketch.js:466-499 | one frame: the cooldowns tick, then the state logic runs; score, used ids and help never change in a frame; finished is never left; while questioning or in a hint mode nothing but the timers changes, so the current questioner and the one-selection rule survive the frame |
| Session.Game.KeyPressed | sketch.js:832-839 | space in playing starts a twenty-frame attack; any other key or mode changes nothing |
| Session.Game.CheckAnswer | sketch.js:611-651 | without a current question, or with a wrong answer, nothing changes; a correct answer produces the accepted state |
| Session.Game.AcceptAnswer | sketch.js:617-645 | one more point, the id appended to the used list, the questioner's count raised and finished on reaching two, attack started, question and questioner cleared |
| Session.Game.EndQuestioning | sketch.js:653-679 | the dialog closes and play resumes; the current questioner, or the hint giver after its message, gets a 120-frame cooldown |
| Session.Game.RevealAnswer | sketch.js:788-812 | picking an option disables the radios, spends one unit of help, marks the id used, returns that item's answer and shows the leave button |
| Session.Game.EndHintSelecting | sketch.js:815-825 | the overlay closes, the hint giver gets a 120-frame cooldown and play resumes |
| Session.RunAttack | sketch.js:491-498 | the attack started by a correct answer below six points, or by space, lasts exactly twenty frames and then play resumes |
| Session.Answered | sketch.js:623-637 | a correct answer adds one to the questioner's count and marks it finished on reaching two, keeping its ids and timer |
| Session.AnswerKeepsValid | sketch.js:617-645 | a correct answer keeps every part of the invariant: score equals the total answered, no id used twice, and used ids balance score plus help spent |
| Session.RetimedKeepsState | sketch.js:657-659 | changing only cooldown timers, to non-negative values, keeps the questioners well formed and the score they add up to |
| Session.SetupQuestioners | sketch.js:281-294 | each of the three questioners gets what setupQuestions draws for it against the ids the questioners before it hold, nothing answered and no cooldown |
| Session.SetupKeepsState | sketch.js:176-181 | freshly allocated questioners are well formed and have answered nothing |
| Session.TotalAnsweredZero | sketch.js:176 | questioners that have answered nothing add up to a score of zero |
| Session.HeldByEarlier | sketch.js:186 | while the later questioners hold nothing, `flatMap` over all questioners holds exactly the ids of the earlier ones |
| Session.SupplementNotHeldEarlier | sketch.js:186-196 | an id setup gives a questioner after its partition's share is held by no earlier questioner |
| Session.AllocatedNoDup | sketch.js:189-197 | with distinct catalog ids, setup gives every questioner a list without repeats |
| Session.QuizBankAllocation | sketch.js:184-198 | with the shipped catalog, questioner i holds exactly 3, 6, 9 / 1, 4, 7 / 2, 5, 8 |
| Session.QuizBankDisjoint | sketch.js:184-198 | with the shipped catalog no two questioners share a question |

## Left out

- Rendering and animation are not modelled. This covers `Character.draw`, `setAction`, frame indices, `animationSpeed`, `facing` and `updateProximity`'s `isInProximity` (sketch.js:81-121, 200-217). They are presentation only and use floating point.
- DOM and asset plumbing are not modelled: dialog creation, `.style`/`.html` calls, `preload`, canvas creation and `windowResized` (sketch.js:242-272, 302-454). Only the visibility of the dialog, the hint overlay, its leave button and the disabled radios is kept. These act as gates on which handler the page can deliver:
  - `EndQuestioning` requires the dialog open.
  - `RevealAnswer` requires the overlay open, no selection yet, and an id the overlay lists.
  - `EndHintSelecting` requires the leave button shown.
- The HUD text and toasts (`drawMessage`, `setMessage`, `messageTimer`, sketch.js:532-546, 827-830) only display text.
- The `setTimeout` callbacks at sketch.js:597 and 638-640 are not modelled. The second one reads `currentQuestioner` after sketch.js:644 has cleared it, so it fails, but it only shows a toast.
- Positions, movement and `checkCollision` use floating point (sketch.js:123-126, 137-170). Proximity is a boolean input to `Tick`, one per questioner plus one for the hint giver.
- `random` and `floor(random(n))` are parameters (`roll`, `pick`). The model does not state that draws are uniform.
- `trim` and `toLowerCase` are modelled on ASCII whitespace and ASCII letters, not full Unicode.
- The unused globals `questionHintGiven` and `currentHintDisplay` (sketch.js:18, 32) and the empty `mousePressed` (sketch.js:685-688) have no model.
- The guard at sketch.js:562 in `startQuestioning` is kept but cannot fire, because its only caller runs in playing. `StartQuestioning` therefore requires playing.
- The wrong-answer branch of `checkAnswer` only clears and refocuses the input box (sketch.js:646-649), so the model changes no state there.
- The catalog is the constructor's parameter. `QuizBank` is the shipped one, and the lemmas about it (`BankIds`, `BankPartition`, `QuizBankAllocation`) say what `setup` gives with it.
- The questioner objects are modelled as a sequence of records. `currentQuestioner` is an index into it, not a reference, so the model does not cover aliasing between `currentQuestioner` and the array entry.
- JavaScript numbers are doubles. Every counter here stays below 200, so the model uses unbounded integers.
- The hint overlay's list holds catalog items in the source. The model keeps their ids, which identify the items.
- SetupQuestions: states properties of the drawn list (bounds, origin, order of the two pools, duplicate-freeness), not which ids a given sequence of random rolls yields.
