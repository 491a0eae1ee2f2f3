/** The session rules of sketch.js that are expressions over the questioner
    records and the used-question list: who may be questioned, which question
    is drawn, which hint options are offered, how cooldowns count down. */
module Rules {
  import opened Wrappers
  import opened Seqs
  import opened Quiz
  import opened Allocation

  /** Three questioners (sketch.js:281-285). */
  const QuestionerCount := 3
  /** Questions each questioner asks (sketch.js:177). */
  const MaxQuestions := 2
  /** The score that ends the game (sketch.js:515). */
  const WinningScore := 6
  /** Answers the hint giver may reveal (sketch.js:28). */
  const InitialHelp := 3
  /** Cooldown set on leaving an NPC (sketch.js:43). */
  const DisableFrames := 120
  /** Length of an attack (sketch.js:630, 836). */
  const AttackFrames := 20

  /** The values of `gameState` (sketch.js:5). */
  datatype Mode = Playing | Questioning | HintSelecting | HintMessage | Attacking | Finished

  /** The session fields of a Questioner (sketch.js:176-181):
      `availableQuestionIds`, `questionsAnswered`, `finished`, `disableTimer`. */
  datatype Questioner = Questioner(questionIds: seq<int>, answered: int, finished: bool, disableTimer: int)

  /** What every questioner satisfies throughout a session. */
  ghost predicate WellFormed(bank: seq<QuizItem>, q: Questioner)
  {
    && 0 <= q.answered <= MaxQuestions
    && (q.finished <==> q.answered == MaxQuestions)
    && q.disableTimer >= 0
    && |q.questionIds| <= MaxAssigned
    && (forall x :: x in q.questionIds ==> x in Ids(bank))
  }

  /** The test of sketch.js:553-554 for a questioner the player is `near`. */
  predicate Eligible(q: Questioner, near: bool)
  {
    !q.finished && q.disableTimer <= 0 && q.answered < MaxQuestions && near
  }

  /** The questioner checkQuestionerInteraction starts questioning: the
      first eligible one at index `from` or later. */
  function FirstEligible(qs: seq<Questioner>, near: seq<bool>, from: nat): (r: Option<nat>)
    requires |near| == |qs| && from <= |qs|
    ensures r.Some? ==>
      from <= r.value < |qs| && Eligible(qs[r.value], near[r.value]) &&
      forall j :: from <= j < r.value ==> !Eligible(qs[j], near[j])
    ensures r.None? ==> forall j :: from <= j < |qs| ==> !Eligible(qs[j], near[j])
    decreases |qs| - from
  {
    if from == |qs| then None
    else if Eligible(qs[from], near[from]) then Some(from)
    else FirstEligible(qs, near, from + 1)
  }

  /** A questioner whose cooldown is still running is never the one triggered. */
  lemma CoolingNotChosen(qs: seq<Questioner>, near: seq<bool>, i: nat)
    requires |near| == |qs| && i < |qs| && qs[i].disableTimer > 0
    ensures FirstEligible(qs, near, 0) != Some(i)
  {
  }

  /** `questioners.reduce((acc, q) => acc + q.questionsAnswered, 0)` (sketch.js:512). */
  function TotalAnswered(qs: seq<Questioner>): int
  {
    if qs == [] then 0 else qs[0].answered + TotalAnswered(qs[1..])
  }

  /** Replacing one questioner changes the total by the change in its count. */
  lemma {:induction false} TotalAnsweredUpdate(qs: seq<Questioner>, k: nat, q: Questioner)
    requires k < |qs|
    ensures TotalAnswered(qs[k := q]) == TotalAnswered(qs) - qs[k].answered + q.answered
  {
    if k == 0 {
      assert qs[k := q][1..] == qs[1..];
    } else {
      assert qs[k := q][1..] == qs[1..][k - 1 := q];
      TotalAnsweredUpdate(qs[1..], k - 1, q);
    }
  }

  /** The total depends only on the answered counts. */
  lemma {:induction false} TotalAnsweredSameCounts(a: seq<Questioner>, b: seq<Questioner>)
    requires |a| == |b|
    requires forall i :: 0 <= i < |a| ==> a[i].answered == b[i].answered
    ensures TotalAnswered(a) == TotalAnswered(b)
  {
    if a != [] {
      TotalAnsweredSameCounts(a[1..], b[1..]);
    }
  }

  /** With every count at most MaxQuestions, so is the total per questioner. */
  lemma {:induction false} TotalAnsweredBound(qs: seq<Questioner>)
    requires forall i :: 0 <= i < |qs| ==> 0 <= qs[i].answered <= MaxQuestions
    ensures 0 <= TotalAnswered(qs) <= MaxQuestions * |qs|
  {
    if qs != [] {
      TotalAnsweredBound(qs[1..]);
    }
  }

  /** One tick of a `disableTimer` (sketch.js:469, 231). */
  function Cooldown(t: int): int
  {
    if t > 0 then t - 1 else t
  }

  /** A timer after `n` ticks. */
  function CooldownAfter(t: int, n: nat): int
  {
    if n == 0 then t else Cooldown(CooldownAfter(t, n - 1))
  }

  /** A timer counts down by one per tick and then stays at zero. */
  lemma {:induction false} CooldownCountsDown(t: int, n: nat)
    requires t >= 0
    ensures CooldownAfter(t, n) == if n <= t then t - n else 0
  {
    if n > 0 {
      CooldownCountsDown(t, n - 1);
    }
  }

  /** After leaving an NPC its timer blocks a trigger on the next 119 ticks
      and allows it on the 120th (the tick decrements before the check). */
  lemma LeaveBlocksUntil(n: nat)
    ensures CooldownAfter(DisableFrames, n) <= 0 <==> n >= DisableFrames
  {
    CooldownCountsDown(DisableFrames, n);
  }

  /** `ids.filter(id => !usedQuestionIds.includes(id))` (sketch.js:567). */
  function AvailableIds(ids: seq<int>, used: seq<int>): seq<int>
  {
    Filter(ids, NotIn(used))
  }

  /** The question startQuestioning sets (sketch.js:567, 580-582): the item
      of the available id at `pick` (standing for `random(availableIds)`),
      or none when every id of the questioner is used. */
  function Draw(bank: seq<QuizItem>, ids: seq<int>, used: seq<int>, pick: nat): (r: Option<QuizItem>)
    ensures r.Some? ==> r.value in bank && r.value.id in ids && r.value.id !in used
    ensures (forall x :: x in ids ==> x in Ids(bank)) ==>
      (r.None? <==> forall x :: x in ids ==> x in used)
  {
    FilterFacts(ids, NotIn(used));
    var avail := AvailableIds(ids, used);
    if avail == [] then None else FindItem(bank, avail[pick % |avail|])
  }

  /** A pick below the number of available ids draws the item of the id at that position. */
  lemma DrawAt(bank: seq<QuizItem>, ids: seq<int>, used: seq<int>, pick: nat)
    requires pick < |AvailableIds(ids, used)|
    ensures Draw(bank, ids, used, pick) == FindItem(bank, AvailableIds(ids, used)[pick])
  {
    assert pick % |AvailableIds(ids, used)| == pick;
  }

  /** Every id still available can be the one drawn. */
  lemma DrawCanPick(bank: seq<QuizItem>, ids: seq<int>, used: seq<int>, x: int)
    requires x in ids && x !in used
    ensures exists pick: nat :: Draw(bank, ids, used, pick) == FindItem(bank, x)
  {
    var avail := AvailableIds(ids, used);
    FilterFacts(ids, NotIn(used));
    assert NotIn(used)(x);
    var k :| 0 <= k < |avail| && avail[k] == x;
    DrawAt(bank, ids, used, k);
  }

  /** `questioners.flatMap(q => q.availableQuestionIds)` (sketch.js:186, 751-752). */
  function AllQuestionIds(qs: seq<Questioner>): (r: seq<int>)
    ensures forall x :: x in r <==> exists k :: 0 <= k < |qs| && x in qs[k].questionIds
  {
    var lists := seq(|qs|, k requires 0 <= k < |qs| => qs[k].questionIds);
    assert forall k :: 0 <= k < |qs| ==> lists[k] == qs[k].questionIds;
    Flatten(lists)
  }

  /** The loop of generateHintOptions (sketch.js:750-761) over the ids still
      to visit: an id is added when unused, in the catalog and not yet listed. */
  function CollectOptions(bank: seq<QuizItem>, ids: seq<int>, used: seq<int>, listed: seq<int>): (r: seq<int>)
    ensures NoDup(listed) ==> NoDup(r)
    ensures forall x :: x in r <==> x in listed || (x in ids && x !in used && x in Ids(bank))
    decreases |ids|
  {
    if ids == [] then listed
    else
      var id := ids[0];
      var add := id !in used && FindItem(bank, id).Some? && id !in listed;
      if add then
        NoDupAppend(listed, id);
        CollectOptions(bank, ids[1..], used, listed + [id])
      else
        CollectOptions(bank, ids[1..], used, listed)
  }

  /** The options generateHintOptions lists (sketch.js:744-761). */
  function HintOptions(bank: seq<QuizItem>, qs: seq<Questioner>, used: seq<int>): seq<int>
  {
    CollectOptions(bank, AllQuestionIds(qs), used, [])
  }

  /** The hint options are every unused catalog id some questioner holds, once each. */
  lemma HintOptionsFacts(bank: seq<QuizItem>, qs: seq<Questioner>, used: seq<int>)
    ensures NoDup(HintOptions(bank, qs, used))
    ensures forall x :: x in HintOptions(bank, qs, used) <==>
      (exists k :: 0 <= k < |qs| && x in qs[k].questionIds) && x !in used && x in Ids(bank)
  {
    assert NoDup([]);
  }
}
