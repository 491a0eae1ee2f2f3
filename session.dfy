/** The game-session coordinator of sketch.js: the globals `gameState`,
    `score`, `usedQuestionIds`, `helpCount`, `currentQuestion`,
    `currentQuestioner`, the questioners' and hint giver's session fields,
    the player's attack state, and the visibility of the dialogs that gate
    which events the page can deliver. */
module Session {
  import opened Wrappers
  import opened Seqs
  import opened Quiz
  import opened Allocation
  import opened Rules

  class Game {
    /** `gameState` (sketch.js:5). */
    var mode: Mode
    /** `score` (sketch.js:6). */
    var score: int
    /** `usedQuestionIds` (sketch.js:58). */
    var usedQuestionIds: seq<int>
    /** `helpCount` (sketch.js:28). */
    var helpCount: int
    /** `quizBank` (sketch.js:46-56). */
    const bank: seq<QuizItem>
    /** `questioners` (sketch.js:281-285), as their session records. */
    var questioners: seq<Questioner>
    /** `hintGiver.disableTimer` (sketch.js:225). */
    var hintTimer: int
    /** `player.isAttacking`, `player.attackTimer` (sketch.js:133-134). */
    var isAttacking: bool
    var attackTimer: int
    /** `currentQuestion` (sketch.js:59) and the index of `currentQuestioner` (sketch.js:60). */
    var currentQuestion: Option<QuizItem>
    var currentQuestioner: Option<nat>

    /** Whether the question dialog is displayed: its submit and close
        buttons can only be pressed then. */
    var dialogOpen: bool
    /** Whether the hint selection overlay is displayed. */
    var hintPanelOpen: bool
    /** Whether the hint overlay's leave button is displayed. */
    var hintLeaveShown: bool
    /** The ids offered as radio buttons by generateHintOptions. */
    var hintOptions: seq<int>
    /** Whether the radio buttons have been disabled by a selection. */
    var selectionMade: bool

    ghost predicate Valid()
      reads this
    {
      && QuestionersOk(bank, questioners)
      && Accounts(score, usedQuestionIds, helpCount, questioners)
      && hintTimer >= 0
      && Modes(mode, score, isAttacking, attackTimer, dialogOpen, hintPanelOpen)
      && CurrentOk(bank, questioners, usedQuestionIds, mode, currentQuestion, currentQuestioner)
      && HintPanelOk(bank, usedQuestionIds, helpCount, hintPanelOpen, hintLeaveShown, hintOptions, selectionMade)
    }

    /** The score never exceeds six (two questions for each of three questioners). */
    lemma ScoreBound()
      requires Valid()
      ensures 0 <= score <= WinningScore
    {
      assert forall i :: 0 <= i < |questioners| ==> 0 <= questioners[i].answered <= MaxQuestions by {
        forall i | 0 <= i < |questioners|
          ensures 0 <= questioners[i].answered <= MaxQuestions
        {
          assert WellFormed(bank, questioners[i]);
        }
      }
      TotalAnsweredBound(questioners);
    }

    /** Once finished, no event handler can change anything: keyPressed
        needs playing, checkAnswer a current question, endQuestioning the
        dialog, revealAnswer and endHintSelecting the hint overlay, and
        isAttacking stays set so no handler returns to playing. */
    lemma FinishedQuiet()
      requires Valid() && mode == Finished
      ensures isAttacking && !dialogOpen && !hintPanelOpen
      ensures currentQuestion == None && currentQuestioner == None
    {
    }

    /** The initial globals (sketch.js:5-6, 28, 58-60) and `setup`'s
        questioners (sketch.js:281-294). */
    constructor (catalog: seq<QuizItem>, roll: (nat, nat) -> nat)
      ensures Valid()
      ensures bank == catalog
      ensures mode == Playing && score == 0 && usedQuestionIds == [] && helpCount == InitialHelp
      ensures hintTimer == 0 && !isAttacking && attackTimer == 0
      ensures currentQuestion == None && currentQuestioner == None
      ensures !dialogOpen && !hintPanelOpen
      ensures Allocated(catalog, questioners)
    {
      var qs := SetupQuestioners(catalog, roll);
      SetupKeepsState(catalog, qs);
      mode := Playing;
      score := 0;
      usedQuestionIds := [];
      helpCount := InitialHelp;
      bank := catalog;
      questioners := qs;
      hintTimer := 0;
      isAttacking := false;
      attackTimer := 0;
      currentQuestion := None;
      currentQuestioner := None;
      dialogOpen := false;
      hintPanelOpen := false;
      hintLeaveShown := false;
      hintOptions := [];
      selectionMade := false;
    }

    /** The timer decrements at the start of every frame (sketch.js:467-470, 231). */
    method CoolDown()
      requires Valid()
      modifies this`questioners, this`hintTimer
      ensures Valid()
      ensures hintTimer == Cooldown(old(hintTimer))
      ensures |questioners| == |old(questioners)|
      ensures forall i :: 0 <= i < |questioners| ==>
        questioners[i] == old(questioners[i]).(disableTimer := Cooldown(old(questioners[i].disableTimer)))
    {
      var i := 0;
      while i < |questioners|
        invariant 0 <= i <= |questioners| == |old(questioners)|
        invariant forall j :: 0 <= j < i ==>
          questioners[j] == old(questioners[j]).(disableTimer := Cooldown(old(questioners[j].disableTimer)))
        invariant forall j :: i <= j < |questioners| ==> questioners[j] == old(questioners[j])
        invariant hintTimer == old(hintTimer)
      {
        var q := questioners[i];
        if q.disableTimer > 0 {
          questioners := questioners[i := q.(disableTimer := q.disableTimer - 1)];
        }
        i := i + 1;
      }
      if hintTimer > 0 {
        hintTimer := hintTimer - 1;
      }
      RetimedKeepsState(bank, old(questioners), questioners);
    }

    /** The scan of checkQuestionerInteraction (sketch.js:552-558): the
        index of the first eligible questioner, if any. */
    method ScanQuestioners(near: seq<bool>) returns (found: Option<nat>)
      requires |near| == |questioners|
      ensures found == FirstEligible(questioners, near, 0)
    {
      var i := 0;
      while i < |questioners|
        invariant 0 <= i <= |questioners|
        invariant FirstEligible(questioners, near, 0) == FirstEligible(questioners, near, i)
      {
        var q := questioners[i];
        if q.finished {
          i := i + 1;
          continue;
        }
        if q.disableTimer <= 0 && q.answered < MaxQuestions && near[i] {
          return Some(i);
        }
        i := i + 1;
      }
      return None;
    }

    /** startQuestioning (sketch.js:561-609): open the dialog for questioner
        `k` and draw one of its unused questions; `pick` stands for
        `random(availableIds)`. */
    method StartQuestioning(k: nat, pick: nat)
      requires Valid() && mode == Playing
      requires k < |questioners| && questioners[k].answered < MaxQuestions
      modifies this`mode, this`currentQuestioner, this`currentQuestion, this`dialogOpen
      ensures Valid()
      ensures mode == Questioning && currentQuestioner == Some(k) && dialogOpen
      ensures currentQuestion == Draw(bank, questioners[k].questionIds, usedQuestionIds, pick)
    {
      if mode == Questioning {
        return;
      }
      mode := Questioning;
      currentQuestioner := Some(k);
      var available := AvailableIds(questioners[k].questionIds, usedQuestionIds);
      dialogOpen := true;
      if |available| > 0 {
        currentQuestion := FindItem(bank, available[pick % |available|]);
      }
      assert currentQuestion == Draw(bank, questioners[k].questionIds, usedQuestionIds, pick);
    }

    /** checkQuestionerInteraction (sketch.js:550-559). */
    method CheckQuestionerInteraction(near: seq<bool>, pick: nat)
      requires Valid() && |near| == |questioners|
      modifies this`mode, this`currentQuestioner, this`currentQuestion, this`dialogOpen
      ensures Valid()
      ensures old(mode) != Playing || FirstEligible(questioners, near, 0).None? ==> unchanged(this)
      ensures old(mode) == Playing && FirstEligible(questioners, near, 0).Some? ==>
        var k := FirstEligible(questioners, near, 0).value;
        && mode == Questioning && currentQuestioner == Some(k) && dialogOpen
        && currentQuestion == Draw(bank, questioners[k].questionIds, usedQuestionIds, pick)
    {
      if mode != Playing {
        return;
      }
      var found := ScanQuestioners(near);
      if found.Some? {
        StartQuestioning(found.value, pick);
      }
    }

    /** startHintGiverMessage (sketch.js:694-716): the budget-exhausted notice. */
    method StartHintGiverMessage()
      requires Valid() && mode == Playing
      modifies this`mode, this`dialogOpen
      ensures Valid()
      ensures mode == HintMessage && dialogOpen
    {
      mode := HintMessage;
      dialogOpen := true;
    }

    /** startHintSelecting with the list computation of generateHintOptions
        (sketch.js:731-766): the leave button is hidden unless nothing can
        be offered. */
    method StartHintSelecting()
      requires Valid() && mode == Playing && helpCount > 0
      modifies this`mode, this`hintPanelOpen, this`hintLeaveShown, this`hintOptions, this`selectionMade
      ensures Valid()
      ensures mode == HintSelecting && hintPanelOpen && !selectionMade
      ensures hintOptions == HintOptions(bank, questioners, usedQuestionIds)
      ensures hintLeaveShown <==> hintOptions == []
    {
      mode := HintSelecting;
      hintPanelOpen := true;
      hintLeaveShown := false;
      HintOptionsFacts(bank, questioners, usedQuestionIds);
      hintOptions := HintOptions(bank, questioners, usedQuestionIds);
      selectionMade := false;
      if hintOptions == [] {
        hintLeaveShown := true;
      }
    }

    /** checkHintGiverInteraction (sketch.js:718-729). */
    method CheckHintGiverInteraction(near: bool)
      requires Valid()
      modifies this`mode, this`dialogOpen, this`hintPanelOpen, this`hintLeaveShown, this`hintOptions, this`selectionMade
      ensures Valid()
      ensures !(old(mode) == Playing && near && hintTimer <= 0) ==> unchanged(this)
      ensures old(mode) == Playing && near && hintTimer <= 0 && helpCount <= 0 ==>
        && mode == HintMessage && dialogOpen
        && unchanged(this`hintPanelOpen, this`hintLeaveShown, this`hintOptions, this`selectionMade)
      ensures old(mode) == Playing && near && hintTimer <= 0 && helpCount > 0 ==>
        && mode == HintSelecting && hintPanelOpen && !selectionMade && unchanged(this`dialogOpen)
        && hintOptions == HintOptions(bank, questioners, usedQuestionIds)
        && (hintLeaveShown <==> hintOptions == [])
    {
      if mode == Playing && near && hintTimer <= 0 {
        if helpCount <= 0 {
          StartHintGiverMessage();
        } else {
          StartHintSelecting();
        }
      }
    }

    /** The state logic of draw and the win check of drawHUD
        (sketch.js:485-499, 515-519), after the cooldowns. */
    method Advance(near: seq<bool>, nearHintGiver: bool, pick: nat)
      requires Valid() && |near| == |questioners|
      modifies this`mode, this`currentQuestioner, this`currentQuestion, this`dialogOpen, this`hintPanelOpen
      modifies this`hintLeaveShown, this`hintOptions, this`selectionMade, this`isAttacking, this`attackTimer
      ensures Valid()
      ensures old(mode) == Finished ==> unchanged(this)
      ensures old(score) >= WinningScore ==> mode == Finished
      ensures old(mode) == Attacking && score < WinningScore ==>
        && attackTimer == old(attackTimer) - 1
        && (mode == Playing <==> attackTimer <= 0)
        && (mode == Attacking <==> attackTimer > 0)
        && (isAttacking <==> attackTimer > 0)
      ensures old(mode) in {Questioning, HintSelecting, HintMessage} ==> unchanged(this)
      ensures old(mode) == Playing && FirstEligible(questioners, near, 0).Some? ==>
        var k := FirstEligible(questioners, near, 0).value;
        && mode == Questioning && currentQuestioner == Some(k)
        && currentQuestion == Draw(bank, questioners[k].questionIds, usedQuestionIds, pick)
      ensures old(mode) == Playing && FirstEligible(questioners, near, 0).None? ==>
        if nearHintGiver && hintTimer <= 0 then
          (helpCount <= 0 ==>
             mode == HintMessage && unchanged(this`hintLeaveShown, this`hintOptions, this`selectionMade)) &&
          (helpCount > 0 ==>
             mode == HintSelecting && !selectionMade &&
             hintOptions == HintOptions(bank, questioners, usedQuestionIds))
        else unchanged(this)
    {
      if mode == Playing {
        CheckQuestionerInteraction(near, pick);
        CheckHintGiverInteraction(nearHintGiver);
      } else if mode == Attacking {
        attackTimer := attackTimer - 1;
        if attackTimer <= 0 {
          isAttacking := false;
          mode := Playing;
        }
      }
      if score >= WinningScore && mode != Finished {
        mode := Finished;
        dialogOpen := false;
        hintPanelOpen := false;
      }
    }

    /** One frame of draw (sketch.js:466-499) with the win check of drawHUD
        (sketch.js:515-519): cooldowns first, then the state logic. `near`
        and `nearHintGiver` are the proximity tests, `pick` the random
        choice of a question. */
    method Tick(near: seq<bool>, nearHintGiver: bool, pick: nat)
      requires Valid() && |near| == |questioners|
      modifies this`questioners, this`hintTimer
      modifies this`mode, this`currentQuestioner, this`currentQuestion, this`dialogOpen, this`hintPanelOpen
      modifies this`hintLeaveShown, this`hintOptions, this`selectionMade, this`isAttacking, this`attackTimer
      ensures Valid()
      ensures hintTimer == Cooldown(old(hintTimer))
      ensures |questioners| == |old(questioners)|
      ensures forall i :: 0 <= i < |questioners| ==>
        questioners[i] == old(questioners[i]).(disableTimer := Cooldown(old(questioners[i].disableTimer)))
      ensures unchanged(this`score, this`usedQuestionIds, this`helpCount)
      ensures old(mode) == Finished ==> mode == Finished
      ensures old(score) >= WinningScore ==> mode == Finished
      ensures old(mode) == Attacking && score < WinningScore ==>
        && attackTimer == old(attackTimer) - 1
        && (mode == Playing <==> attackTimer <= 0)
        && (mode == Attacking <==> attackTimer > 0)
      ensures old(mode) in {Questioning, HintSelecting, HintMessage} ==>
        && unchanged(this`mode, this`currentQuestion, this`currentQuestioner, this`dialogOpen, this`hintPanelOpen)
        && unchanged(this`hintLeaveShown, this`hintOptions, this`selectionMade, this`isAttacking, this`attackTimer)
      ensures old(mode) == Playing && FirstEligible(questioners, near, 0).Some? ==>
        var k := FirstEligible(questioners, near, 0).value;
        && mode == Questioning && currentQuestioner == Some(k)
        && currentQuestion == Draw(bank, questioners[k].questionIds, usedQuestionIds, pick)
      ensures old(mode) == Playing && FirstEligible(questioners, near, 0).None? ==>
        if nearHintGiver && hintTimer <= 0 then
          (helpCount <= 0 ==>
             mode == HintMessage && unchanged(this`hintLeaveShown, this`hintOptions, this`selectionMade)) &&
          (helpCount > 0 ==>
             mode == HintSelecting && !selectionMade &&
             hintOptions == HintOptions(bank, questioners, usedQuestionIds))
        else mode == Playing
    {
      CoolDown();
      Advance(near, nearHintGiver, pick);
    }

    /** keyPressed (sketch.js:832-839): space starts an attack from playing. */
    method KeyPressed(key: char)
      requires Valid()
      modifies this`mode, this`isAttacking, this`attackTimer
      ensures Valid()
      ensures old(mode) == Playing && key == ' ' ==>
        mode == Attacking && isAttacking && attackTimer == AttackFrames
      ensures !(old(mode) == Playing && key == ' ') ==> unchanged(this)
    {
      if mode == Playing && key == ' ' {
        isAttacking := true;
        attackTimer := AttackFrames;
        mode := Attacking;
      }
    }

    /** checkAnswer (sketch.js:611-651), bound to Enter and the submit
        button: nothing happens without a question or with a wrong answer. */
    method CheckAnswer(user: string)
      requires Valid()
      modifies this`score, this`usedQuestionIds, this`questioners, this`isAttacking, this`attackTimer
      modifies this`mode, this`dialogOpen, this`currentQuestion, this`currentQuestioner
      ensures Valid()
      ensures old(currentQuestion).None? || !AnswerMatches(user, old(currentQuestion).value.answer) ==>
        unchanged(this)
      ensures old(currentQuestion).Some? && AnswerMatches(user, old(currentQuestion).value.answer) ==>
        Accepted(old(currentQuestion).value.id, old(currentQuestioner).value)
    {
      if currentQuestion.None? {
        return;
      }
      if AnswerMatches(user, currentQuestion.value.answer) {
        AcceptAnswer();
      }
    }

    /** The new state after a correct answer to question `id` of questioner
        `k`; the methods that reach it leave the help budget, the hint
        giver and the hint overlay alone. */
    twostate predicate Accepted(id: int, k: nat)
      reads this
    {
      && k < |old(questioners)|
      && score == old(score) + 1
      && usedQuestionIds == old(usedQuestionIds) + [id]
      && questioners == old(questioners)[k := Answered(old(questioners[k]))]
      && mode == Attacking && isAttacking && attackTimer == AttackFrames
      && currentQuestion == None && currentQuestioner == None && !dialogOpen
    }

    /** The correct-answer branch of checkAnswer (sketch.js:617-645): the
        score, the used list and the questioner's count move together, and
        the attack starts. */
    method AcceptAnswer()
      requires Valid() && currentQuestion.Some?
      modifies this`score, this`usedQuestionIds, this`questioners, this`isAttacking, this`attackTimer
      modifies this`mode, this`dialogOpen, this`currentQuestion, this`currentQuestioner
      ensures Valid()
      ensures Accepted(old(currentQuestion).value.id, old(currentQuestioner).value)
    {
      var id := currentQuestion.value.id;
      var k := currentQuestioner.value;
      AnswerKeepsValid(bank, questioners, usedQuestionIds, score, helpCount, mode, isAttacking, attackTimer,
        dialogOpen, hintPanelOpen, currentQuestion, currentQuestioner, hintLeaveShown, hintOptions, selectionMade);
      score := score + 1;
      usedQuestionIds := usedQuestionIds + [id];
      isAttacking := true;
      attackTimer := AttackFrames;
      mode := Attacking;
      dialogOpen := false;
      questioners := questioners[k := Answered(questioners[k])];
      currentQuestion := None;
      currentQuestioner := None;
    }

    /** endQuestioning (sketch.js:653-679), bound to the dialog's close
        button: leaving a questioner or acknowledging the hint giver's
        notice starts that NPC's cooldown. */
    method EndQuestioning()
      requires Valid() && dialogOpen
      modifies this`dialogOpen, this`questioners, this`hintTimer, this`currentQuestion
      modifies this`currentQuestioner, this`mode
      ensures Valid()
      ensures mode == Playing && !dialogOpen && currentQuestion == None && currentQuestioner == None
      ensures old(currentQuestioner).Some? ==>
        var k := old(currentQuestioner).value;
        k < |old(questioners)| && questioners == old(questioners)[k := old(questioners[k]).(disableTimer := DisableFrames)]
      ensures old(currentQuestioner).None? ==> questioners == old(questioners)
      ensures hintTimer == if old(mode) == HintMessage then DisableFrames else old(hintTimer)
    {
      dialogOpen := false;
      if currentQuestioner.Some? {
        var k := currentQuestioner.value;
        var q := questioners[k].(disableTimer := DisableFrames);
        RetimedKeepsState(bank, questioners, questioners[k := q]);
        questioners := questioners[k := q];
      }
      if mode == HintMessage {
        hintTimer := DisableFrames;
      }
      currentQuestion := None;
      currentQuestioner := None;
      if !isAttacking {
        mode := Playing;
      }
    }

    /** revealAnswer (sketch.js:788-812), bound to the radio button of
        option `id`: the radios are disabled, one unit of help is spent and
        the question is consumed. */
    method RevealAnswer(id: int) returns (answer: Option<string>)
      requires Valid() && hintPanelOpen && !selectionMade && id in hintOptions
      modifies this`selectionMade, this`helpCount, this`usedQuestionIds, this`hintLeaveShown
      ensures Valid()
      ensures selectionMade && hintLeaveShown
      ensures helpCount == old(helpCount) - 1
      ensures usedQuestionIds == old(usedQuestionIds) + [id]
      ensures FindItem(bank, id).Some? && answer == Some(FindItem(bank, id).value.answer)
    {
      selectionMade := true;
      var question := FindItem(bank, id);
      answer := None;
      if question.Some? {
        if helpCount > 0 {
          helpCount := helpCount - 1;
        }
        answer := Some(question.value.answer);
        if id !in usedQuestionIds {
          NoDupAppend(usedQuestionIds, id);
          usedQuestionIds := usedQuestionIds + [id];
        }
        hintLeaveShown := true;
      }
    }

    /** endHintSelecting (sketch.js:815-825), bound to the leave button. */
    method EndHintSelecting()
      requires Valid() && hintPanelOpen && hintLeaveShown
      modifies this`hintPanelOpen, this`hintTimer, this`mode
      ensures Valid()
      ensures mode == Playing && !hintPanelOpen && hintTimer == DisableFrames
    {
      hintPanelOpen := false;
      hintTimer := DisableFrames;
      mode := Playing;
    }
  }

  /** The p5 frame loop through one attack with the score below six:
      attacking lasts exactly twenty frames and then play resumes
      (sketch.js:491-498). */
  method RunAttack(g: Game, near: seq<bool>, nearHintGiver: bool, pick: nat) returns (frames: nat)
    requires g.Valid() && g.mode == Attacking && g.attackTimer == AttackFrames
    requires g.score < WinningScore && |near| == |g.questioners|
    modifies g
    ensures g.Valid() && g.mode == Playing && !g.isAttacking
    ensures frames == AttackFrames
  {
    frames := 0;
    while g.mode == Attacking
      invariant g.Valid() && |near| == |g.questioners| && g.score < WinningScore
      invariant g.mode == Attacking || g.mode == Playing
      invariant frames <= AttackFrames
      invariant g.mode == Attacking ==> frames + g.attackTimer == AttackFrames
      invariant g.mode == Playing ==> frames == AttackFrames
      decreases AttackFrames - frames
    {
      g.Tick(near, nearHintGiver, pick);
      frames := frames + 1;
    }
  }

  /** Three well-formed questioners. */
  ghost predicate QuestionersOk(bank: seq<QuizItem>, qs: seq<Questioner>)
  {
    |qs| == QuestionerCount && forall i :: 0 <= i < |qs| ==> WellFormed(bank, qs[i])
  }

  /** The score is the number of correct answers, the total the HUD shows
      (sketch.js:512); every used id entered once, by one correct answer or
      by one unit of help. */
  ghost predicate Accounts(score: int, used: seq<int>, helpCount: int, qs: seq<Questioner>)
  {
    && score == TotalAnswered(qs)
    && NoDup(used)
    && 0 <= helpCount <= InitialHelp
    && |used| == score + (InitialHelp - helpCount)
  }

  /** The attack flag, the attack timer and the open overlays agree with the
      mode; the frame after the winning answer ends the game. */
  ghost predicate Modes(mode: Mode, score: int, isAttacking: bool, attackTimer: int,
                        dialogOpen: bool, hintPanelOpen: bool)
  {
    && (isAttacking <==> mode == Attacking || mode == Finished)
    && (mode == Attacking ==> 0 < attackTimer <= AttackFrames)
    && (score >= WinningScore ==> mode == Finished || (mode == Attacking && attackTimer == AttackFrames))
    && (mode == Finished ==> score >= WinningScore)
    && (dialogOpen <==> mode == Questioning || mode == HintMessage)
    && (hintPanelOpen <==> mode == HintSelecting)
  }

  /** A questioner is current exactly while questioning; it still has a
      question to answer, and its question is one of its own, unused. */
  ghost predicate CurrentOk(bank: seq<QuizItem>, qs: seq<Questioner>, used: seq<int>, mode: Mode,
                            current: Option<QuizItem>, questioner: Option<nat>)
  {
    && (questioner.Some? <==> mode == Questioning)
    && (questioner.Some? ==> questioner.value < |qs| && qs[questioner.value].answered < MaxQuestions)
    && (current.Some? ==>
          && questioner.Some? && current.value in bank
          && current.value.id in qs[questioner.value].questionIds && current.value.id !in used)
  }

  /** Before a selection help remains and every offered id is an unused
      catalog id; the leave button shows once a selection is made or when
      nothing is offered. */
  ghost predicate HintPanelOk(bank: seq<QuizItem>, used: seq<int>, helpCount: int, open: bool,
                              leaveShown: bool, options: seq<int>, selectionMade: bool)
  {
    && (open ==> (leaveShown <==> selectionMade || options == []))
    && (open && !selectionMade ==>
          helpCount > 0 && forall x :: x in options ==> x !in used && x in Ids(bank))
  }

  /** A questioner after one more correct answer (sketch.js:623, 635-637). */
  function Answered(q: Questioner): (r: Questioner)
    ensures r.answered == q.answered + 1
    ensures r.questionIds == q.questionIds && r.disableTimer == q.disableTimer
    ensures r.finished <==> q.finished || r.answered >= MaxQuestions
  {
    if q.answered + 1 >= MaxQuestions then q.(answered := q.answered + 1, finished := true)
    else q.(answered := q.answered + 1)
  }

  /** A correct answer to the current question keeps every part of the
      session invariant: one more point for the current questioner, one
      more used id, and an attack that starts with no questioner current. */
  lemma AnswerKeepsValid(bank: seq<QuizItem>, qs: seq<Questioner>, used: seq<int>, score: int, helpCount: int,
                         mode: Mode, isAttacking: bool, attackTimer: int, dialogOpen: bool, hintPanelOpen: bool,
                         current: Option<QuizItem>, questioner: Option<nat>,
                         leaveShown: bool, options: seq<int>, selectionMade: bool)
    requires QuestionersOk(bank, qs) && Accounts(score, used, helpCount, qs)
    requires Modes(mode, score, isAttacking, attackTimer, dialogOpen, hintPanelOpen)
    requires CurrentOk(bank, qs, used, mode, current, questioner) && current.Some?
    requires HintPanelOk(bank, used, helpCount, hintPanelOpen, leaveShown, options, selectionMade)
    ensures var qs' := qs[questioner.value := Answered(qs[questioner.value])];
      var used' := used + [current.value.id];
      && QuestionersOk(bank, qs') && Accounts(score + 1, used', helpCount, qs')
      && Modes(Attacking, score + 1, true, AttackFrames, false, hintPanelOpen)
      && CurrentOk(bank, qs', used', Attacking, None, None)
      && HintPanelOk(bank, used', helpCount, hintPanelOpen, leaveShown, options, selectionMade)
  {
    var k, id := questioner.value, current.value.id;
    NoDupAppend(used, id);
    TotalAnsweredUpdate(qs, k, Answered(qs[k]));
    assert WellFormed(bank, qs[k]);
  }

  /** Changing only cooldown timers, to non-negative values, keeps the
      questioners well formed and the score they add up to. */
  lemma RetimedKeepsState(bank: seq<QuizItem>, qs: seq<Questioner>, qs': seq<Questioner>)
    requires QuestionersOk(bank, qs) && |qs'| == |qs|
    requires forall i :: 0 <= i < |qs| ==>
      qs'[i] == qs[i].(disableTimer := qs'[i].disableTimer) && qs'[i].disableTimer >= 0
    ensures QuestionersOk(bank, qs') && TotalAnswered(qs') == TotalAnswered(qs)
  {
    assert forall i :: 0 <= i < |qs| ==> WellFormed(bank, qs'[i]) by {
      forall i | 0 <= i < |qs|
        ensures WellFormed(bank, qs'[i])
      {
        assert WellFormed(bank, qs[i]);
      }
    }
    TotalAnsweredSameCounts(qs, qs');
  }

  /** Questioner `i` as setup leaves it: nothing answered, no cooldown,
      and its ids drawn by setupQuestions against the ids the questioners
      before it hold. */
  ghost predicate AllocatedAt(catalog: seq<QuizItem>, qs: seq<Questioner>, i: nat)
  {
    && i < |qs|
    && qs[i].answered == 0 && !qs[i].finished && qs[i].disableTimer == 0
    && Drawn(catalog, i, AllQuestionIds(qs[..i]), qs[i].questionIds)
  }

  /** The three questioners as setup leaves them. */
  ghost predicate Allocated(catalog: seq<QuizItem>, qs: seq<Questioner>)
  {
    |qs| == QuestionerCount && forall i :: 0 <= i < |qs| ==> AllocatedAt(catalog, qs, i)
  }

  /** The three questioners of `setup` (sketch.js:281-294), each running
      setupQuestions in order. The questioners after the current one still
      hold nothing, so the ids all questioners hold are the ids the earlier
      ones hold. */
  method SetupQuestioners(catalog: seq<QuizItem>, roll: (nat, nat) -> nat) returns (qs: seq<Questioner>)
    ensures Allocated(catalog, qs)
  {
    qs := [Questioner([], 0, false, 0), Questioner([], 0, false, 0), Questioner([], 0, false, 0)];
    var i := 0;
    while i < QuestionerCount
      invariant 0 <= i <= QuestionerCount == |qs|
      invariant forall j :: i <= j < QuestionerCount ==> qs[j] == Questioner([], 0, false, 0)
      invariant forall j :: 0 <= j < i ==> AllocatedAt(catalog, qs, j)
    {
      var drawn := SetupQuestions(catalog, i, AllQuestionIds(qs), roll);
      HeldByEarlier(qs, i);
      DrawnSameTaken(catalog, i, AllQuestionIds(qs), AllQuestionIds(qs[..i]), drawn);
      var qs' := qs[i := Questioner(drawn, 0, false, 0)];
      forall j | 0 <= j <= i
        ensures AllocatedAt(catalog, qs', j)
      {
        assert qs'[..j] == qs[..j];
        if j < i {
          assert AllocatedAt(catalog, qs, j);
        }
      }
      qs := qs';
      i := i + 1;
    }
  }

  /** When the questioners from `i` on hold nothing, the ids all of them
      hold are the ids the first `i` hold. */
  lemma HeldByEarlier(qs: seq<Questioner>, i: nat)
    requires i <= |qs|
    requires forall j :: i <= j < |qs| ==> qs[j].questionIds == []
    ensures forall x :: x in AllQuestionIds(qs) <==> x in AllQuestionIds(qs[..i])
  {
    forall x | x in AllQuestionIds(qs)
      ensures x in AllQuestionIds(qs[..i])
    {
      var k :| 0 <= k < |qs| && x in qs[k].questionIds;
      assert k < i;
      assert qs[..i][k] == qs[k];
    }
    forall x | x in AllQuestionIds(qs[..i])
      ensures x in AllQuestionIds(qs)
    {
      var k :| 0 <= k < |qs[..i]| && x in qs[..i][k].questionIds;
      assert qs[..i][k] == qs[k];
    }
  }

  /** An id setup hands a questioner from the supplement pool is held by
      none of the questioners before it. */
  lemma SupplementNotHeldEarlier(catalog: seq<QuizItem>, qs: seq<Questioner>, i: nat, m: nat)
    requires Allocated(catalog, qs) && m < i < |qs|
    ensures forall j :: PartitionShare(|PartitionIds(catalog, i)|) <= j < |qs[i].questionIds| ==>
      qs[i].questionIds[j] !in qs[m].questionIds
  {
    assert AllocatedAt(catalog, qs, i);
    assert qs[..i][m] == qs[m];
  }

  /** Setup hands a list without repeats to every questioner when the
      catalog's ids are distinct. */
  lemma AllocatedNoDup(catalog: seq<QuizItem>, qs: seq<Questioner>)
    requires Allocated(catalog, qs) && NoDup(Ids(catalog))
    ensures forall i :: 0 <= i < |qs| ==> NoDup(qs[i].questionIds)
  {
    forall i | 0 <= i < |qs|
      ensures NoDup(qs[i].questionIds)
    {
      assert AllocatedAt(catalog, qs, i);
    }
  }

  /** Freshly allocated questioners are well formed and have answered nothing. */
  lemma SetupKeepsState(catalog: seq<QuizItem>, qs: seq<Questioner>)
    requires Allocated(catalog, qs)
    ensures QuestionersOk(catalog, qs) && TotalAnswered(qs) == 0
  {
    forall i | 0 <= i < |qs|
      ensures WellFormed(catalog, qs[i]) && qs[i].answered == 0
    {
      assert AllocatedAt(catalog, qs, i);
    }
    TotalAnsweredZero(qs);
  }

  /** A fresh set of questioners answers nothing. */
  lemma {:induction false} TotalAnsweredZero(qs: seq<Questioner>)
    requires forall i :: 0 <= i < |qs| ==> qs[i].answered == 0
    ensures TotalAnswered(qs) == 0
  {
    if qs != [] {
      TotalAnsweredZero(qs[1..]);
    }
  }

  /** With the shipped catalog every partition has three ids, so setup
      gives questioner i exactly its own partition: 3, 6, 9 / 1, 4, 7 /
      2, 5, 8. */
  lemma QuizBankAllocation(qs: seq<Questioner>, i: nat)
    requires Allocated(QuizBank, qs) && i < QuestionerCount
    ensures multiset(qs[i].questionIds) == multiset(ExpectedPartition(i))
  {
    assert AllocatedAt(QuizBank, qs, i);
    BankPartition(i);
    FullPartitionDrawn(QuizBank, i, AllQuestionIds(qs[..i]), qs[i].questionIds);
  }

  /** With the shipped catalog no two questioners share a question. */
  lemma QuizBankDisjoint(qs: seq<Questioner>, i: nat, j: nat)
    requires Allocated(QuizBank, qs) && i < j < QuestionerCount
    ensures forall x :: x in qs[i].questionIds ==> x !in qs[j].questionIds
  {
    QuizBankAllocation(qs, i);
    QuizBankAllocation(qs, j);
    forall x | x in qs[i].questionIds
      ensures x !in qs[j].questionIds
    {
      assert x in multiset(ExpectedPartition(i));
      assert x !in multiset(ExpectedPartition(j));
    }
  }
}
